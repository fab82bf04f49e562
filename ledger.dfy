/** The reaction ledger of the posts routes: per-post counts of `plus` and
    `minus` reactions, the caller's own reaction, and the effect of `react`
    on the reaction table (reject, no change, overwrite in place, or insert). */
module Ledger {
  import opened Common
  import opened Tables

  /** Reactions on post `p`: of kind `k` when `k` is given, of any kind otherwise. */
  function Count(rs: seq<Reaction>, p: nat, k: Option<ReactionKind>): (r: nat) {
    if rs == [] then 0
    else (if rs[0].postId == p && (k.None? || rs[0].kind == k.value) then 1 else 0) + Count(rs[1..], p, k)
  }

  function PlusCount(rs: seq<Reaction>, p: nat): (r: nat) { Count(rs, p, Some(Plus)) }
  function MinusCount(rs: seq<Reaction>, p: nat): (r: nat) { Count(rs, p, Some(Minus)) }
  /** `len(post.reactions)`. */
  function ReactionCount(rs: seq<Reaction>, p: nat): (r: nat) { Count(rs, p, None) }

  lemma {:induction false} CountConcat(a: seq<Reaction>, b: seq<Reaction>, p: nat, k: Option<ReactionKind>)
    ensures Count(a + b, p, k) == Count(a, p, k) + Count(b, p, k)
  {
    if a != [] {
      assert (a + b)[1..] == a[1..] + b;
      CountConcat(a[1..], b, p, k);
    } else {
      assert a + b == b;
    }
  }

  /** Every reaction is a plus or a minus, so the two counts add up to the total. */
  lemma {:induction false} PlusMinusTotal(rs: seq<Reaction>, p: nat)
    ensures PlusCount(rs, p) + MinusCount(rs, p) == ReactionCount(rs, p)
  {
    if rs != [] {
      PlusMinusTotal(rs[1..], p);
    }
  }

  /** The kind of the reaction `user` already has on `post`, if any. */
  function Previous(rs: seq<Reaction>, post: nat, user: nat): (r: Option<ReactionKind>) {
    match FindReaction(rs, post, user)
    case None => None
    case Some(i) => Some(rs[i].kind)
  }

  /** The reaction table after `user` reacts with `kind` on `post`: unchanged
      when that reaction is already there, the existing row's kind overwritten
      (same id) when it differs, a new row with id `newId` appended otherwise. */
  function Record(rs: seq<Reaction>, post: nat, user: nat, kind: ReactionKind, newId: nat): (r: seq<Reaction>) {
    match FindReaction(rs, post, user)
    case None => rs + [Reaction(newId, post, user, kind)]
    case Some(i) => if rs[i].kind == kind then rs else rs[i := rs[i].(kind := kind)]
  }

  /** The unique constraint survives a reaction. */
  lemma RecordKeepsOnePerUser(rs: seq<Reaction>, post: nat, user: nat, kind: ReactionKind, newId: nat)
    requires OnePerUser(rs)
    ensures OnePerUser(Record(rs, post, user, kind, newId))
  {
    var r := Record(rs, post, user, kind, newId);
    match FindReaction(rs, post, user)
    case None =>
      forall i, j | 0 <= i < j < |r| ensures r[i].postId != r[j].postId || r[i].userId != r[j].userId {
        if j == |rs| { assert r[i] == rs[i]; }
      }
    case Some(_) =>
  }

  /** Afterwards the user has exactly one reaction on the post, of the
      requested kind: one row has that pair, and every row with it has that kind. */
  lemma RecordSetsKind(rs: seq<Reaction>, post: nat, user: nat, kind: ReactionKind, newId: nat)
    requires OnePerUser(rs)
    ensures var r := Record(rs, post, user, kind, newId);
      && (exists i :: 0 <= i < |r| && r[i].postId == post && r[i].userId == user)
      && (forall i :: 0 <= i < |r| && r[i].postId == post && r[i].userId == user ==> r[i].kind == kind)
  {
    var r := Record(rs, post, user, kind, newId);
    match FindReaction(rs, post, user)
    case None =>
      assert r[|rs|].postId == post && r[|rs|].userId == user;
    case Some(m) =>
      assert r[m].postId == post && r[m].userId == user;
      forall i | 0 <= i < |r| && i != m ensures r[i] == rs[i] && (rs[i].postId != post || rs[i].userId != user) {
      }
  }

  /** Rows of every other (post, user) pair are untouched. */
  lemma RecordFrame(rs: seq<Reaction>, post: nat, user: nat, kind: ReactionKind, newId: nat, x: Reaction)
    requires x.postId != post || x.userId != user
    ensures x in Record(rs, post, user, kind, newId) <==> x in rs
  {
    match FindReaction(rs, post, user)
    case None =>
    case Some(m) =>
      var r := Record(rs, post, user, kind, newId);
      if x in rs {
        var i :| 0 <= i < |rs| && rs[i] == x;
        assert i != m && r[i] == x;
      }
      if x in r {
        var i :| 0 <= i < |r| && r[i] == x;
        assert i != m && rs[i] == x;
      }
  }

  /** Reacting twice the same way is the same as reacting once. */
  lemma RecordIdempotent(rs: seq<Reaction>, post: nat, user: nat, kind: ReactionKind, id1: nat, id2: nat)
    requires OnePerUser(rs)
    ensures Record(Record(rs, post, user, kind, id1), post, user, kind, id2) == Record(rs, post, user, kind, id1)
  {
    var r := Record(rs, post, user, kind, id1);
    RecordSetsKind(rs, post, user, kind, id1);
    var f := FindReaction(r, post, user);
    assert f.Some?;
    assert r[f.value].kind == kind;
  }

  /** How the counts of post `q` move: the previous reaction of the user, if
      any, leaves its kind, the new one joins its kind, and the total grows
      only when the user had no reaction. */
  lemma RecordCounts(rs: seq<Reaction>, post: nat, user: nat, kind: ReactionKind, newId: nat, q: nat, k: ReactionKind)
    ensures var prev := Previous(rs, post, user);
      && Count(Record(rs, post, user, kind, newId), q, Some(k)) ==
           Count(rs, q, Some(k)) - (if q == post && prev == Some(k) then 1 else 0) + (if q == post && kind == k then 1 else 0)
      && ReactionCount(Record(rs, post, user, kind, newId), q) ==
           ReactionCount(rs, q) + (if q == post && prev.None? then 1 else 0)
  {
    var added := Reaction(newId, post, user, kind);
    match FindReaction(rs, post, user)
    case None =>
      CountConcat(rs, [added], q, Some(k));
      CountConcat(rs, [added], q, None);
    case Some(m) =>
      if rs[m].kind != kind {
        var r := rs[m := rs[m].(kind := kind)];
        assert rs == rs[..m] + [rs[m]] + rs[m + 1..];
        assert r == rs[..m] + [r[m]] + rs[m + 1..];
        CountConcat(rs[..m] + [rs[m]], rs[m + 1..], q, Some(k));
        CountConcat(rs[..m], [rs[m]], q, Some(k));
        CountConcat(rs[..m] + [r[m]], rs[m + 1..], q, Some(k));
        CountConcat(rs[..m], [r[m]], q, Some(k));
        CountConcat(rs[..m] + [rs[m]], rs[m + 1..], q, None);
        CountConcat(rs[..m], [rs[m]], q, None);
        CountConcat(rs[..m] + [r[m]], rs[m + 1..], q, None);
        CountConcat(rs[..m], [r[m]], q, None);
      }
  }

  /** Reacting on an existing post keeps the reaction table well formed when
      a new row takes the next free id. */
  lemma RecordKeepsReactionsOk(rs: seq<Reaction>, postIds: set<nat>, next: nat, post: nat, user: nat, kind: ReactionKind)
    requires ReactionsOk(rs, postIds, next) && post in postIds
    ensures ReactionsOk(Record(rs, post, user, kind, next), postIds, next + 1)
  {
    RecordKeepsOnePerUser(rs, post, user, kind, next);
    var r := Record(rs, post, user, kind, next);
    match FindReaction(rs, post, user)
    case None =>
      assert forall i :: 0 <= i < |rs| ==> r[i] == rs[i] && rs[i] in rs;
    case Some(m) =>
      assert forall i :: 0 <= i < |rs| ==> r[i].id == rs[i].id && r[i].postId == rs[i].postId && rs[i] in rs;
  }

  // ---- the per-post summary shown with a post ---------------------------------

  datatype Summary = Summary(plus: nat, minus: nat, yours: Option<ReactionKind>)

  /** Plus and minus counts of post `p`, and the reaction of the signed-in
      user (`None` for an anonymous visitor or a user who has not reacted). */
  function Summarize(rs: seq<Reaction>, p: nat, user: Option<nat>): (r: Summary) {
    Summary(PlusCount(rs, p), MinusCount(rs, p), if user.None? then None else Previous(rs, p, user.value))
  }

  /** The summary counts every reaction on the post once, and reports the
      user's reaction exactly when the user has one. */
  lemma SummarizeSpec(rs: seq<Reaction>, p: nat, user: Option<nat>, k: ReactionKind)
    requires OnePerUser(rs)
    ensures Summarize(rs, p, user).plus + Summarize(rs, p, user).minus == ReactionCount(rs, p)
    ensures Summarize(rs, p, user).yours == Some(k) <==>
      user.Some? && exists i :: 0 <= i < |rs| && rs[i] == Reaction(rs[i].id, p, user.value, k)
  {
    PlusMinusTotal(rs, p);
    if user.Some? {
      var f := FindReaction(rs, p, user.value);
      if exists i :: 0 <= i < |rs| && rs[i] == Reaction(rs[i].id, p, user.value, k) {
        var i :| 0 <= i < |rs| && rs[i] == Reaction(rs[i].id, p, user.value, k);
        assert f == Some(i);
      }
    }
  }

  /** After reacting, the user's summary shows the new reaction. */
  lemma SummaryAfterRecord(rs: seq<Reaction>, post: nat, user: nat, kind: ReactionKind, newId: nat)
    requires OnePerUser(rs)
    ensures Summarize(Record(rs, post, user, kind, newId), post, Some(user)).yours == Some(kind)
  {
    RecordSetsKind(rs, post, user, kind, newId);
  }
}
