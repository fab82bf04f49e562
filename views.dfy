/** The pages of the posts blueprint that only read the database: the index
    feed ranked by popularity, a post with its thread roots and reaction
    summary, and the posts of one hashtag. */
module Views {
  import opened Common
  import opened Text
  import opened Tables
  import opened Sorting
  import opened Ledger
  import opened Scoring
  import opened Posts

  // ---- the feed -----------------------------------------------------------------

  /** Every post paired with its score, in table order. */
  function Scored(ps: seq<Post>, rs: seq<Reaction>, cs: seq<Comment>, links: seq<Link>, top: seq<Hashtag>, now: int): (r: seq<(Post, int)>)
    ensures |r| == |ps|
    ensures forall i :: 0 <= i < |ps| ==> r[i] == (ps[i], Score(ps[i], rs, cs, links, top, now))
  {
    seq(|ps|, i requires 0 <= i < |ps| => (ps[i], Score(ps[i], rs, cs, links, top, now)))
  }

  /** The index page's order: the posts stably sorted by decreasing score,
      scored against the current top hashtags. */
  function FeedOrder(ps: seq<Post>, rs: seq<Reaction>, cs: seq<Comment>, links: seq<Link>, hs: seq<Hashtag>, now: int): (r: seq<Post>) {
    Items(SortDesc(Scored(ps, rs, cs, links, TopHashtags(hs, links), now)))
  }

  /** `index` on GET: the top hashtags are computed once, every post is
      scored in a loop, and the scored posts are sorted. */
  method Feed(s: Store, now: int) returns (feed: seq<Post>)
    ensures feed == FeedOrder(s.posts, s.reactions, s.comments, s.links, s.hashtags, now)
  {
    var top := TopHashtags(s.hashtags, s.links);
    var scored: seq<(Post, int)> := [];
    var i := 0;
    while i < |s.posts|
      invariant 0 <= i <= |s.posts|
      invariant scored == Scored(s.posts[..i], s.reactions, s.comments, s.links, top, now)
    {
      scored := scored + [(s.posts[i], Score(s.posts[i], s.reactions, s.comments, s.links, top, now))];
      i := i + 1;
    }
    assert s.posts[..i] == s.posts;
    feed := Items(SortDesc(scored));
  }

  /** The posts of `ps` whose score is `k`, in order. */
  function WithScore(ps: seq<Post>, k: int, rs: seq<Reaction>, cs: seq<Comment>, links: seq<Link>, top: seq<Hashtag>, now: int): (r: seq<Post>) {
    if ps == [] then []
    else (if Score(ps[0], rs, cs, links, top, now) == k then [ps[0]] else []) + WithScore(ps[1..], k, rs, cs, links, top, now)
  }

  lemma {:induction false} WithScoreItems(xs: seq<(Post, int)>, k: int, rs: seq<Reaction>, cs: seq<Comment>, links: seq<Link>, top: seq<Hashtag>, now: int)
    requires forall e :: e in xs ==> e.1 == Score(e.0, rs, cs, links, top, now)
    ensures WithScore(Items(xs), k, rs, cs, links, top, now) == Items(WithKey(xs, k))
  {
    if xs != [] {
      assert Items(xs)[1..] == Items(xs[1..]);
      assert forall e :: e in xs[1..] ==> e in xs;
      WithScoreItems(xs[1..], k, rs, cs, links, top, now);
      assert xs[0] in xs;
      if xs[0].1 == k {
        assert Items(WithKey(xs, k)) == [xs[0].0] + Items(WithKey(xs[1..], k));
      }
    }
  }

  /** The pairs of the ranked list still carry each post's own score. */
  lemma {:induction false} RankedScores(ps: seq<Post>, rs: seq<Reaction>, cs: seq<Comment>, links: seq<Link>, top: seq<Hashtag>, now: int)
    ensures forall e :: e in SortDesc(Scored(ps, rs, cs, links, top, now)) ==> e.1 == Score(e.0, rs, cs, links, top, now)
  {
    var sc := Scored(ps, rs, cs, links, top, now);
    SortDescPerm(sc);
    forall e | e in SortDesc(sc) ensures e.1 == Score(e.0, rs, cs, links, top, now) {
      assert e in multiset(SortDesc(sc));
      assert e in sc;
    }
  }

  /** The feed holds every post, each as often as the table does. */
  lemma FeedIsPermutation(ps: seq<Post>, rs: seq<Reaction>, cs: seq<Comment>, links: seq<Link>, hs: seq<Hashtag>, now: int)
    ensures multiset(FeedOrder(ps, rs, cs, links, hs, now)) == multiset(ps)
  {
    var sc := Scored(ps, rs, cs, links, TopHashtags(hs, links), now);
    assert Items(sc) == ps;
    SortDescItemsPerm(sc);
  }

  /** The feed lists posts by nonincreasing score. */
  lemma FeedIsRanked(ps: seq<Post>, rs: seq<Reaction>, cs: seq<Comment>, links: seq<Link>, hs: seq<Hashtag>, now: int)
    ensures var top := TopHashtags(hs, links);
      var feed := FeedOrder(ps, rs, cs, links, hs, now);
      forall i, j :: 0 <= i < j < |feed| ==> Score(feed[i], rs, cs, links, top, now) >= Score(feed[j], rs, cs, links, top, now)
  {
    var top := TopHashtags(hs, links);
    var ranked := SortDesc(Scored(ps, rs, cs, links, top, now));
    SortDescSorted(Scored(ps, rs, cs, links, top, now));
    RankedScores(ps, rs, cs, links, top, now);
    assert forall i :: 0 <= i < |ranked| ==> ranked[i] in ranked;
  }

  /** Posts with equal scores keep their table order: the sort is stable. */
  lemma FeedIsStable(ps: seq<Post>, rs: seq<Reaction>, cs: seq<Comment>, links: seq<Link>, hs: seq<Hashtag>, now: int, k: int)
    ensures var top := TopHashtags(hs, links);
      WithScore(FeedOrder(ps, rs, cs, links, hs, now), k, rs, cs, links, top, now) == WithScore(ps, k, rs, cs, links, top, now)
  {
    var top := TopHashtags(hs, links);
    var sc := Scored(ps, rs, cs, links, top, now);
    assert Items(sc) == ps;
    SortDescStable(sc, k);
    RankedScores(ps, rs, cs, links, top, now);
    WithScoreItems(sc, k, rs, cs, links, top, now);
    WithScoreItems(SortDesc(sc), k, rs, cs, links, top, now);
  }

  // ---- one post -------------------------------------------------------------------

  datatype Detail = Detail(post: Post, roots: seq<Comment>, summary: Summary)

  /** The comments of post `p` that answer no other comment, in table order. */
  function Roots(cs: seq<Comment>, p: nat): (r: seq<Comment>) {
    Filter(cs, (c: Comment) => c.postId == p && c.parentId.None?)
  }

  /** `post_detail` on GET: 404 for a missing post, otherwise the post, its
      thread roots, and its reaction summary for the signed-in user. */
  function PostDetail(ps: seq<Post>, cs: seq<Comment>, rs: seq<Reaction>, uid: Option<nat>, postId: nat): (r: Option<Detail>) {
    match PostById(ps, postId)
    case None => None
    case Some(p) => Some(Detail(p, Roots(cs, p.id), Summarize(rs, p.id, if SignedIn(uid) then uid else None)))
  }

  /** The page exists exactly for an existing post; its comments are the
      post's thread roots, replies are left out; its counts add up to the
      post's reactions, and an anonymous visitor has no reaction of their own. */
  lemma PostDetailSpec(ps: seq<Post>, cs: seq<Comment>, rs: seq<Reaction>, uid: Option<nat>, postId: nat, c: Comment)
    ensures PostDetail(ps, cs, rs, uid, postId).None? <==> postId !in PostIds(ps)
    ensures PostDetail(ps, cs, rs, uid, postId).Some? ==>
      var d := PostDetail(ps, cs, rs, uid, postId).value;
      && d.post in ps && d.post.id == postId
      && (c in d.roots <==> c in cs && c.postId == postId && c.parentId.None?)
      && d.summary.plus + d.summary.minus == ReactionCount(rs, postId)
      && (!SignedIn(uid) ==> d.summary.yours.None?)
  {
    PlusMinusTotal(rs, postId);
  }

  // ---- the posts of one hashtag -----------------------------------------------------

  /** The posts linked to hashtag `t`, in link order. */
  function TaggedPosts(ps: seq<Post>, links: seq<Link>, t: nat): (r: seq<Post>) {
    if links == [] then []
    else
      var here := if links[0].hashtagId != t then [] else match PostById(ps, links[0].postId)
        case None => []
        case Some(p) => [p];
      here + TaggedPosts(ps, links[1..], t)
  }

  /** `posts_by_hashtag`: 404 when no hashtag has the lower-cased name,
      otherwise that hashtag's posts. */
  function PostsByHashtag(hs: seq<Hashtag>, ps: seq<Post>, links: seq<Link>, name: string): (r: Option<seq<Post>>) {
    match HashtagByName(hs, Lower(name))
    case None => None
    case Some(t) => Some(TaggedPosts(ps, links, t.id))
  }

  lemma {:induction false} PostByIdFinds(ps: seq<Post>, next: nat, x: Post)
    requires PostsOk(ps, next) && x in ps
    ensures PostById(ps, x.id) == Some(x)
  {
    if ps[0] != x {
      assert x in ps[1..];
      var k :| 0 <= k < |ps| && ps[k] == x;
      assert ps[0].id < ps[k].id;
      PostByIdFinds(ps[1..], next, x);
    }
  }

  lemma {:induction false} TaggedPostsMember(ps: seq<Post>, next: nat, links: seq<Link>, t: nat, x: Post)
    requires PostsOk(ps, next)
    ensures x in TaggedPosts(ps, links, t) <==> x in ps && Link(x.id, t) in links
  {
    if links != [] {
      TaggedPostsMember(ps, next, links[1..], t, x);
      assert Link(x.id, t) in links <==> links[0] == Link(x.id, t) || Link(x.id, t) in links[1..] by {
        assert links == [links[0]] + links[1..];
      }
      if x in ps && links[0] == Link(x.id, t) {
        PostByIdFinds(ps, next, x);
      }
    }
  }

  /** The page is missing exactly when no hashtag has the lower-cased name;
      otherwise it lists the posts linked to that hashtag. The name's case
      does not matter. */
  lemma PostsByHashtagSpec(hs: seq<Hashtag>, ps: seq<Post>, links: seq<Link>, name: string, np: nat, nh: nat, x: Post)
    requires PostsOk(ps, np) && HashtagsOk(hs, nh)
    ensures PostsByHashtag(hs, ps, links, name).None? <==> forall h :: h in hs ==> h.name != Lower(name)
    ensures PostsByHashtag(hs, ps, links, name).Some? ==>
      (x in PostsByHashtag(hs, ps, links, name).value <==>
        x in ps && exists h :: h in hs && h.name == Lower(name) && Link(x.id, h.id) in links)
    ensures PostsByHashtag(hs, ps, links, Lower(name)) == PostsByHashtag(hs, ps, links, name)
  {
    LowerIdempotent(name);
    var found := HashtagByName(hs, Lower(name));
    if found.Some? {
      var t := found.value;
      TaggedPostsMember(ps, np, links, t.id, x);
      forall h | h in hs && h.name == Lower(name) ensures h == t {
        var a :| 0 <= a < |hs| && hs[a] == h;
        var b :| 0 <= b < |hs| && hs[b] == t;
        assert a == b;
      }
    }
  }
}
