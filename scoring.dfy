/** The popularity score of a post and the five most used hashtags it
    depends on (`calculate_popularity_score` and the top-hashtag query of the
    index page). */
module Scoring {
  import opened Common
  import opened Tables
  import opened Sorting
  import opened Ledger

  const SecondsPerDay: int := 86400

  /** Comments on post `p`, replies included. */
  function CommentCount(cs: seq<Comment>, p: nat): (r: nat) {
    if cs == [] then 0 else (if cs[0].postId == p then 1 else 0) + CommentCount(cs[1..], p)
  }

  /** A new comment counts for its own post only. */
  lemma {:induction false} CommentCountAppend(cs: seq<Comment>, c: Comment, p: nat)
    ensures CommentCount(cs + [c], p) == CommentCount(cs, p) + (if c.postId == p then 1 else 0)
  {
    if cs != [] {
      assert (cs + [c])[1..] == cs[1..] + [c];
      CommentCountAppend(cs[1..], c, p);
    } else {
      assert cs + [c] == [c];
    }
  }

  /** `timedelta.days` of the age `now - created`: the whole number of days,
      rounded toward minus infinity. */
  function DaysOld(created: int, now: int): (d: int)
    ensures d * SecondsPerDay <= now - created < (d + 1) * SecondsPerDay
  {
    (now - created) / SecondsPerDay
  }

  /** The new-post boost: `7 - days_old` points while `days_old <= 7`, none
      without a usable timestamp. */
  function RecencyBonus(created: Option<int>, now: int): (r: int) {
    match created
    case None => 0
    case Some(c) => var d := DaysOld(c, now); if d <= 7 then 7 - d else 0
  }

  /** The boost is at most 7 points for a post created in the past, nothing
      from the eighth day on, and grows past 7 for a timestamp in the future;
      an older post never gets more than a newer one. */
  lemma RecencyBonusBounds(created: Option<int>, now: int, older: int)
    ensures created.None? ==> RecencyBonus(created, now) == 0
    ensures created.Some? && created.value <= now ==> 0 <= RecencyBonus(created, now) <= 7
    ensures created.Some? && now - created.value >= 7 * SecondsPerDay ==> RecencyBonus(created, now) == 0
    ensures created.Some? && created.value > now ==> RecencyBonus(created, now) > 7
    ensures created.Some? && older <= created.value ==> RecencyBonus(Some(older), now) <= RecencyBonus(created, now)
  {
    if created.Some? {
      var c := created.value;
      var d := DaysOld(c, now);
      if older <= c {
        var d' := DaysOld(older, now);
        assert d' * SecondsPerDay <= now - older < (d' + 1) * SecondsPerDay;
        assert d <= d';
      }
    }
  }

  /** Some hashtag of post `p` is among `top`. */
  predicate HasTopTag(links: seq<Link>, p: nat, top: seq<Hashtag>) {
    exists l :: l in links && l.postId == p && exists t :: t in top && t.id == l.hashtagId
  }

  /** 2 points per plus, 1 per reaction, 5 per comment, 10 for a top hashtag,
      and the new-post boost. */
  function Score(post: Post, rs: seq<Reaction>, cs: seq<Comment>, links: seq<Link>, top: seq<Hashtag>, now: int): (r: int) {
    2 * PlusCount(rs, post.id) + ReactionCount(rs, post.id) + 5 * CommentCount(cs, post.id)
    + (if HasTopTag(links, post.id, top) then 10 else 0) + RecencyBonus(post.createdAt, now)
  }

  /** What a reaction does to a post's score: a first plus adds 3, a first
      minus 1, repeating a reaction nothing, switching to plus adds 2 and to
      minus takes 2 away; other posts keep their score. */
  lemma ScoreAfterRecord(post: Post, rs: seq<Reaction>, cs: seq<Comment>, links: seq<Link>, top: seq<Hashtag>, now: int,
                         p: nat, user: nat, kind: ReactionKind, newId: nat)
    ensures Score(post, Record(rs, p, user, kind, newId), cs, links, top, now) == Score(post, rs, cs, links, top, now) +
      if post.id != p then 0
      else match Previous(rs, p, user)
        case None => if kind == Plus then 3 else 1
        case Some(k) => if k == kind then 0 else if kind == Plus then 2 else -2
  {
    RecordCounts(rs, p, user, kind, newId, post.id, Plus);
  }

  /** A comment adds 5 points to its post and nothing to the others. */
  lemma ScoreAfterComment(post: Post, rs: seq<Reaction>, cs: seq<Comment>, c: Comment, links: seq<Link>, top: seq<Hashtag>, now: int)
    ensures Score(post, rs, cs + [c], links, top, now) == Score(post, rs, cs, links, top, now) + (if c.postId == post.id then 5 else 0)
  {
    CommentCountAppend(cs, c, post.id);
  }

  // ---- the top hashtags -------------------------------------------------------

  /** Associations that name hashtag `t`: `count(post_hashtag.post_id)`. */
  function LinkCount(links: seq<Link>, t: nat): (r: nat) {
    if links == [] then 0 else (if links[0].hashtagId == t then 1 else 0) + LinkCount(links[1..], t)
  }

  function TagId(h: Hashtag): (r: int) { h.id }

  /** The rows of the grouped join: every hashtag used by at least one post,
      with its count, in id order. */
  function Candidates(hs: seq<Hashtag>, links: seq<Link>): (r: seq<(Hashtag, int)>) {
    if hs == [] then []
    else
      var n := LinkCount(links, hs[0].id);
      (if n >= 1 then [(hs[0], n as int)] else []) + Candidates(hs[1..], links)
  }

  /** The join holds a row for a hashtag exactly when some post uses it, and
      the row carries the number of its uses. */
  lemma {:induction false} CandidateMember(hs: seq<Hashtag>, links: seq<Link>, e: (Hashtag, int))
    ensures e in Candidates(hs, links) <==> e.0 in hs && e.1 == LinkCount(links, e.0.id) >= 1
  {
    if hs != [] {
      CandidateMember(hs[1..], links, e);
      assert e.0 in hs <==> e.0 == hs[0] || e.0 in hs[1..] by {
        assert hs == [hs[0]] + hs[1..];
      }
    }
  }

  /** Every row after the first hashtag's belongs to a later hashtag. */
  lemma CandidatesAfterFirst(hs: seq<Hashtag>, links: seq<Link>)
    requires hs != []
    requires forall i, j :: 0 <= i < j < |hs| ==> hs[i].id < hs[j].id
    ensures forall e :: e in Candidates(hs[1..], links) ==> hs[0].id < e.0.id
  {
    forall e | e in Candidates(hs[1..], links) ensures hs[0].id < e.0.id {
      CandidateMember(hs[1..], links, e);
      var k :| 0 <= k < |hs[1..]| && hs[1..][k] == e.0;
      assert hs[k + 1] == e.0;
    }
  }

  ghost predicate IdsAscending(c: seq<(Hashtag, int)>) {
    forall i, j :: 0 <= i < j < |c| ==> c[i].0.id < c[j].0.id
  }

  lemma ConsIdsAscending(x: (Hashtag, int), rest: seq<(Hashtag, int)>)
    requires IdsAscending(rest)
    requires forall e :: e in rest ==> x.0.id < e.0.id
    ensures IdsAscending([x] + rest)
  {
    var c := [x] + rest;
    forall i, j | 0 <= i < j < |c| ensures c[i].0.id < c[j].0.id {
      assert c[j] == rest[j - 1] && c[j] in rest;
      if i > 0 { assert c[i] == rest[i - 1]; }
    }
  }

  lemma {:induction false} CandidatesAscending(hs: seq<Hashtag>, links: seq<Link>)
    requires forall i, j :: 0 <= i < j < |hs| ==> hs[i].id < hs[j].id
    ensures IdsAscending(Candidates(hs, links))
  {
    if hs != [] {
      CandidatesAscending(hs[1..], links);
      CandidatesAfterFirst(hs, links);
      if LinkCount(links, hs[0].id) >= 1 {
        ConsIdsAscending((hs[0], LinkCount(links, hs[0].id) as int), Candidates(hs[1..], links));
      }
    }
  }

  /** At most five hashtags, the most used first. */
  function TopHashtags(hs: seq<Hashtag>, links: seq<Link>): (r: seq<Hashtag>) {
    var ranked := SortDesc(Candidates(hs, links));
    Items(ranked[..if |ranked| < 5 then |ranked| else 5])
  }

  /** The top hashtags are at most five tags in use, listed by decreasing use
      and, at equal use, by increasing id; a tag in use that is left out means
      the list is full and is used no more than any listed tag. */
  lemma TopHashtagsSpec(hs: seq<Hashtag>, links: seq<Link>, next: nat)
    requires HashtagsOk(hs, next)
    ensures var top := TopHashtags(hs, links);
      && |top| <= 5
      && (forall t :: t in top ==> t in hs && LinkCount(links, t.id) >= 1)
      && (forall i, j :: 0 <= i < j < |top| ==>
            LinkCount(links, top[i].id) > LinkCount(links, top[j].id) ||
            (LinkCount(links, top[i].id) == LinkCount(links, top[j].id) && top[i].id < top[j].id))
      && (forall h :: h in hs && LinkCount(links, h.id) >= 1 && h !in top ==>
            |top| == 5 && forall t :: t in top ==> LinkCount(links, t.id) >= LinkCount(links, h.id))
  {
    TopHashtagsInUse(hs, links, next);
    TopHashtagsOrdered(hs, links, next);
    TopHashtagsOmitted(hs, links, next);
  }

  lemma TopHashtagsInUse(hs: seq<Hashtag>, links: seq<Link>, next: nat)
    requires HashtagsOk(hs, next)
    ensures var top := TopHashtags(hs, links);
      && |top| <= 5
      && (forall t :: t in top ==> t in hs && LinkCount(links, t.id) >= 1)
  {
    var ranked := SortDesc(Candidates(hs, links));
    var m := if |ranked| < 5 then |ranked| else 5;
    var top := Items(ranked[..m]);
    RankedSpec(hs, links, next);
    forall t | t in top ensures t in hs && LinkCount(links, t.id) >= 1 {
      var i :| 0 <= i < |top| && top[i] == t;
      assert top[i] == ranked[i].0;
    }
  }

  lemma TopHashtagsOrdered(hs: seq<Hashtag>, links: seq<Link>, next: nat)
    requires HashtagsOk(hs, next)
    ensures var top := TopHashtags(hs, links);
      forall i, j :: 0 <= i < j < |top| ==>
        LinkCount(links, top[i].id) > LinkCount(links, top[j].id) ||
        (LinkCount(links, top[i].id) == LinkCount(links, top[j].id) && top[i].id < top[j].id)
  {
    var ranked := SortDesc(Candidates(hs, links));
    var m := if |ranked| < 5 then |ranked| else 5;
    var top := Items(ranked[..m]);
    RankedSpec(hs, links, next);
    forall i, j | 0 <= i < j < |top|
      ensures LinkCount(links, top[i].id) > LinkCount(links, top[j].id) ||
        (LinkCount(links, top[i].id) == LinkCount(links, top[j].id) && top[i].id < top[j].id)
    {
      assert top[i] == ranked[i].0 && top[j] == ranked[j].0;
      assert TagId(ranked[i].0) == top[i].id && TagId(ranked[j].0) == top[j].id;
    }
  }

  lemma TopHashtagsOmitted(hs: seq<Hashtag>, links: seq<Link>, next: nat)
    requires HashtagsOk(hs, next)
    ensures var top := TopHashtags(hs, links);
      forall h :: h in hs && LinkCount(links, h.id) >= 1 && h !in top ==>
        |top| == 5 && forall t :: t in top ==> LinkCount(links, t.id) >= LinkCount(links, h.id)
  {
    var ranked := SortDesc(Candidates(hs, links));
    var m := if |ranked| < 5 then |ranked| else 5;
    var top := Items(ranked[..m]);
    RankedSpec(hs, links, next);
    forall h | h in hs && LinkCount(links, h.id) >= 1 && h !in top
      ensures |top| == 5 && forall t :: t in top ==> LinkCount(links, t.id) >= LinkCount(links, h.id)
    {
      OmittedRanksLower(ranked, TagId, m, (h, LinkCount(links, h.id) as int));
    }
  }

  /** The ranked rows: ordered by use then id, each a hashtag in use with its
      count, and every hashtag in use among them. */
  lemma RankedSpec(hs: seq<Hashtag>, links: seq<Link>, next: nat)
    requires HashtagsOk(hs, next)
    ensures var ranked := SortDesc(Candidates(hs, links));
      && KeyThenTie(ranked, TagId)
      && (forall i :: 0 <= i < |ranked| ==> ranked[i].0 in hs && ranked[i].1 == LinkCount(links, ranked[i].0.id) >= 1)
      && (forall h :: h in hs && LinkCount(links, h.id) >= 1 ==> (h, LinkCount(links, h.id) as int) in ranked)
  {
    var c := Candidates(hs, links);
    var ranked := SortDesc(c);
    CandidatesAscending(hs, links);
    assert forall i, j :: 0 <= i < j < |c| ==> TagId(c[i].0) < TagId(c[j].0);
    SortDescPerm(c);
    SortDescTieBreak(c, TagId);
    forall i | 0 <= i < |ranked| ensures ranked[i].0 in hs && ranked[i].1 == LinkCount(links, ranked[i].0.id) >= 1 {
      assert ranked[i] in multiset(ranked);
      CandidateMember(hs, links, ranked[i]);
    }
    forall h | h in hs && LinkCount(links, h.id) >= 1 ensures (h, LinkCount(links, h.id) as int) in ranked {
      CandidateMember(hs, links, (h, LinkCount(links, h.id) as int));
      assert (h, LinkCount(links, h.id) as int) in multiset(c);
    }
  }

  /** An entry of a sorted list whose item is not among the first `m` items
      comes after them, with a key no larger than theirs. */
  lemma OmittedRanksLower<T>(ranked: seq<(T, int)>, tie: T -> int, m: nat, e: (T, int))
    requires m <= |ranked| && KeyThenTie(ranked, tie)
    requires e in ranked && e.0 !in Items(ranked[..m])
    ensures m < |ranked|
    ensures forall t :: t in Items(ranked[..m]) ==> exists i :: 0 <= i < m && t == ranked[i].0 && ranked[i].1 >= e.1
  {
    var top := Items(ranked[..m]);
    var q :| 0 <= q < |ranked| && ranked[q] == e;
    forall i | 0 <= i < m ensures ranked[i] != e {
      assert top[i] in top;
    }
    forall t | t in top ensures exists i :: 0 <= i < m && t == ranked[i].0 && ranked[i].1 >= e.1 {
      var i :| 0 <= i < |top| && top[i] == t;
      assert ranked[i].1 >= ranked[q].1;
    }
  }
}
