/** The forum's tables (users, posts, comments, reactions, hashtags and the
    post-hashtag association) and the rules their declarations impose:
    non-null columns become non-optional fields, unique columns and the
    composite key become invariants, foreign keys become "refers to an
    existing row", and the delete cascades of posts and comments become the
    set of comments `DoomedIds` that deleting a post removes.
    Every table is a sequence of rows in increasing id order, the order in
    which SQLite returns an unordered query. The tables are declared without
    AUTOINCREMENT, so a new row gets one more than the largest id in its
    table (`NextPostId` and the like): the id of a deleted newest row is
    given out again. */
module Tables {
  import opened Common

  datatype ReactionKind = Plus | Minus

  datatype User = User(id: nat, login: string, passwordHash: string, isAdmin: bool)

  /** `createdAt` is the creation time in seconds; `None` stands for a
      timestamp the scorer cannot use (missing, unparsable, or mixing a
      time-zone-aware value with a naive clock). */
  datatype Post = Post(id: nat, title: string, content: string, authorId: nat, createdAt: Option<int>)

  /** `parentId` is `None` for a thread root and otherwise names another
      comment, which need not be on the same post. */
  datatype Comment = Comment(id: nat, content: string, postId: nat, authorId: nat, parentId: Option<nat>)

  datatype Reaction = Reaction(id: nat, postId: nat, userId: nat, kind: ReactionKind)

  datatype Hashtag = Hashtag(id: nat, name: string)

  /** A row of the association table; the pair is its primary key. */
  datatype Link = Link(postId: nat, hashtagId: nat)

  // ---- keys and foreign keys ------------------------------------------------

  function PostIds(ps: seq<Post>): (r: set<nat>) { set p | p in ps :: p.id }
  function CommentIds(cs: seq<Comment>): (r: set<nat>) { set c | c in cs :: c.id }
  function HashtagIds(hs: seq<Hashtag>): (r: set<nat>) { set h | h in hs :: h.id }

  ghost predicate UsersOk(us: seq<User>, next: nat) {
    && (forall i, j :: 0 <= i < j < |us| ==> us[i].id < us[j].id)
    && (forall u :: u in us ==> u.id < next)
    && (forall i, j :: 0 <= i < j < |us| ==> us[i].login != us[j].login)
  }

  ghost predicate PostsOk(ps: seq<Post>, next: nat) {
    && (forall i, j :: 0 <= i < j < |ps| ==> ps[i].id < ps[j].id)
    && (forall p :: p in ps ==> p.id < next)
  }

  /** Every comment is on an existing post; a parent, when there is one, is
      an existing comment created before the reply. */
  ghost predicate CommentsOk(cs: seq<Comment>, postIds: set<nat>, next: nat) {
    && (forall i, j :: 0 <= i < j < |cs| ==> cs[i].id < cs[j].id)
    && (forall c :: c in cs ==> c.id < next && c.postId in postIds)
    && (forall c :: c in cs && c.parentId.Some? ==>
          c.parentId.value < c.id && c.parentId.value in CommentIds(cs))
  }

  /** At most one reaction per (post, user): the unique constraint. */
  ghost predicate OnePerUser(rs: seq<Reaction>) {
    forall i, j :: 0 <= i < j < |rs| ==> rs[i].postId != rs[j].postId || rs[i].userId != rs[j].userId
  }

  ghost predicate ReactionsOk(rs: seq<Reaction>, postIds: set<nat>, next: nat) {
    && (forall i, j :: 0 <= i < j < |rs| ==> rs[i].id < rs[j].id)
    && (forall r :: r in rs ==> r.id < next && r.postId in postIds)
    && OnePerUser(rs)
  }

  /** Hashtag names are unique. */
  ghost predicate HashtagsOk(hs: seq<Hashtag>, next: nat) {
    && (forall i, j :: 0 <= i < j < |hs| ==> hs[i].id < hs[j].id)
    && (forall h :: h in hs ==> h.id < next)
    && (forall i, j :: 0 <= i < j < |hs| ==> hs[i].name != hs[j].name)
  }

  /** The association holds each (post, hashtag) pair at most once and only
      pairs of existing rows. */
  ghost predicate LinksOk(ls: seq<Link>, postIds: set<nat>, tagIds: set<nat>) {
    && NoDup(ls)
    && (forall l :: l in ls ==> l.postId in postIds && l.hashtagId in tagIds)
  }

  /** The rules of every table, with the next free id of each. */
  ghost predicate TablesOk(us: seq<User>, ps: seq<Post>, cs: seq<Comment>, rs: seq<Reaction>, hs: seq<Hashtag>, ls: seq<Link>,
                           nextUser: nat, nextPost: nat, nextComment: nat, nextReaction: nat, nextHashtag: nat) {
    && UsersOk(us, nextUser)
    && PostsOk(ps, nextPost)
    && CommentsOk(cs, PostIds(ps), nextComment)
    && ReactionsOk(rs, PostIds(ps), nextReaction)
    && HashtagsOk(hs, nextHashtag)
    && LinksOk(ls, PostIds(ps), HashtagIds(hs))
  }

  // ---- the ids SQLite gives new rows ---------------------------------------------

  /** One more than the largest id of the table, which is its last row's as
      ids ascend; 1 for an empty table. */
  function NextUserId(us: seq<User>): (r: nat)
    ensures us != [] ==> us[|us| - 1].id < r
  {
    if us == [] then 1 else us[|us| - 1].id + 1
  }

  function NextPostId(ps: seq<Post>): (r: nat)
    ensures ps != [] ==> ps[|ps| - 1].id < r
  {
    if ps == [] then 1 else ps[|ps| - 1].id + 1
  }

  function NextCommentId(cs: seq<Comment>): (r: nat)
    ensures cs != [] ==> cs[|cs| - 1].id < r
  {
    if cs == [] then 1 else cs[|cs| - 1].id + 1
  }

  function NextReactionId(rs: seq<Reaction>): (r: nat)
    ensures rs != [] ==> rs[|rs| - 1].id < r
  {
    if rs == [] then 1 else rs[|rs| - 1].id + 1
  }

  function NextHashtagId(hs: seq<Hashtag>): (r: nat)
    ensures hs != [] ==> hs[|hs| - 1].id < r
  {
    if hs == [] then 1 else hs[|hs| - 1].id + 1
  }

  /** Tables that keep their rules under some bounds on their ids keep them
      under the ids SQLite hands out next, which are never above those
      bounds (or 1): every id in use is below the next one. */
  lemma TablesAtNext(us: seq<User>, ps: seq<Post>, cs: seq<Comment>, rs: seq<Reaction>, hs: seq<Hashtag>, ls: seq<Link>,
                     nu: nat, np: nat, nc: nat, nr: nat, nh: nat)
    requires TablesOk(us, ps, cs, rs, hs, ls, nu, np, nc, nr, nh)
    ensures TablesOk(us, ps, cs, rs, hs, ls, NextUserId(us), NextPostId(ps), NextCommentId(cs), NextReactionId(rs), NextHashtagId(hs))
    ensures NextUserId(us) <= if nu == 0 then 1 else nu
    ensures NextPostId(ps) <= if np == 0 then 1 else np
    ensures NextCommentId(cs) <= if nc == 0 then 1 else nc
    ensures NextReactionId(rs) <= if nr == 0 then 1 else nr
    ensures NextHashtagId(hs) <= if nh == 0 then 1 else nh
  {
    forall u | u in us ensures u.id < NextUserId(us) {
      var i :| 0 <= i < |us| && us[i] == u;
    }
    forall p | p in ps ensures p.id < NextPostId(ps) {
      var i :| 0 <= i < |ps| && ps[i] == p;
    }
    forall c | c in cs ensures c.id < NextCommentId(cs) {
      var i :| 0 <= i < |cs| && cs[i] == c;
    }
    forall r | r in rs ensures r.id < NextReactionId(rs) {
      var i :| 0 <= i < |rs| && rs[i] == r;
    }
    forall h | h in hs ensures h.id < NextHashtagId(hs) {
      var i :| 0 <= i < |hs| && hs[i] == h;
    }
    if us != [] { assert us[|us| - 1] in us; }
    if ps != [] { assert ps[|ps| - 1] in ps; }
    if cs != [] { assert cs[|cs| - 1] in cs; }
    if rs != [] { assert rs[|rs| - 1] in rs; }
    if hs != [] { assert hs[|hs| - 1] in hs; }
  }

  // ---- the store -------------------------------------------------------------

  class Store {
    var users: seq<User>
    var posts: seq<Post>
    var comments: seq<Comment>
    var reactions: seq<Reaction>
    var hashtags: seq<Hashtag>
    var links: seq<Link>

    ghost predicate Valid()
      reads this
    {
      TablesOk(users, posts, comments, reactions, hashtags, links,
               NextUserId(users), NextPostId(posts), NextCommentId(comments), NextReactionId(reactions), NextHashtagId(hashtags))
    }

    /** An empty database. */
    constructor ()
      ensures Valid()
      ensures users == [] && posts == [] && comments == [] && reactions == []
      ensures hashtags == [] && links == []
    {
      users, posts, comments, reactions, hashtags, links := [], [], [], [], [], [];
    }

    /** Stores a new post table with the hashtags and links that go with it. */
    method SetPostTables(ps: seq<Post>, hs: seq<Hashtag>, ls: seq<Link>, ghost np: nat, ghost nh: nat)
      requires TablesOk(users, ps, comments, reactions, hs, ls, NextUserId(users), np, NextCommentId(comments), NextReactionId(reactions), nh)
      modifies this
      ensures Valid()
      ensures posts == ps && hashtags == hs && links == ls
      ensures users == old(users) && comments == old(comments) && reactions == old(reactions)
    {
      TablesAtNext(users, ps, comments, reactions, hs, ls, NextUserId(users), np, NextCommentId(comments), NextReactionId(reactions), nh);
      posts, hashtags, links := ps, hs, ls;
    }

    /** Stores the tables that lose rows when a post is deleted. */
    method SetRemaining(ps: seq<Post>, cs: seq<Comment>, rs: seq<Reaction>, ls: seq<Link>, ghost np: nat, ghost nc: nat, ghost nr: nat)
      requires TablesOk(users, ps, cs, rs, hashtags, ls, NextUserId(users), np, nc, nr, NextHashtagId(hashtags))
      modifies this
      ensures Valid()
      ensures posts == ps && comments == cs && reactions == rs && links == ls
      ensures users == old(users) && hashtags == old(hashtags)
    {
      TablesAtNext(users, ps, cs, rs, hashtags, ls, NextUserId(users), np, nc, nr, NextHashtagId(hashtags));
      posts, comments, reactions, links := ps, cs, rs, ls;
    }
  }

  // ---- lookups (`query.get`, `filter_by(...).first()`) ---------------------------

  function PostById(ps: seq<Post>, id: nat): (r: Option<Post>)
    ensures r.Some? ==> r.value in ps && r.value.id == id
    ensures r.None? ==> id !in PostIds(ps)
  {
    if ps == [] then None
    else if ps[0].id == id then Some(ps[0])
    else PostById(ps[1..], id)
  }

  function CommentById(cs: seq<Comment>, id: nat): (r: Option<Comment>)
    ensures r.Some? ==> r.value in cs && r.value.id == id
    ensures r.None? ==> id !in CommentIds(cs)
  {
    if cs == [] then None
    else if cs[0].id == id then Some(cs[0])
    else CommentById(cs[1..], id)
  }

  function UserById(us: seq<User>, id: nat): (r: Option<User>)
    ensures r.Some? ==> r.value in us && r.value.id == id
    ensures r.None? ==> forall u :: u in us ==> u.id != id
  {
    if us == [] then None
    else if us[0].id == id then Some(us[0])
    else UserById(us[1..], id)
  }

  /** The first user with this exact login. */
  function UserByLogin(us: seq<User>, login: string): (r: Option<User>)
    ensures r.Some? ==> r.value in us && r.value.login == login
    ensures r.None? ==> forall u :: u in us ==> u.login != login
  {
    if us == [] then None
    else if us[0].login == login then Some(us[0])
    else UserByLogin(us[1..], login)
  }

  function HashtagByName(hs: seq<Hashtag>, name: string): (r: Option<Hashtag>)
    ensures r.Some? ==> r.value in hs && r.value.name == name
    ensures r.None? ==> forall h :: h in hs ==> h.name != name
  {
    if hs == [] then None
    else if hs[0].name == name then Some(hs[0])
    else HashtagByName(hs[1..], name)
  }

  /** Position of the first reaction of `user` on `post`. */
  function FindReaction(rs: seq<Reaction>, post: nat, user: nat): (r: Option<nat>)
    ensures r.Some? ==> r.value < |rs| && rs[r.value].postId == post && rs[r.value].userId == user
    ensures r.Some? ==> forall k :: 0 <= k < r.value ==> rs[k].postId != post || rs[k].userId != user
    ensures r.None? ==> forall k :: 0 <= k < |rs| ==> rs[k].postId != post || rs[k].userId != user
  {
    if rs == [] then None
    else if rs[0].postId == post && rs[0].userId == user then Some(0)
    else match FindReaction(rs[1..], post, user)
      case None => None
      case Some(k) => Some(k + 1)
  }

  // ---- the cascade of a post deletion ------------------------------------------

  /** The comment at position `i` goes when post `p` is deleted: it is on `p`
      (the post's comment cascade), or its parent, which precedes it, goes
      (the replies cascade). */
  ghost predicate InDeletedSubtree(cs: seq<Comment>, p: nat, i: nat)
    requires i < |cs|
    decreases i
  {
    || cs[i].postId == p
    || (cs[i].parentId.Some? &&
        exists j :: 0 <= j < i && cs[j].id == cs[i].parentId.value && InDeletedSubtree(cs, p, j))
  }

  /** Ids of the comments removed together with post `p`. */
  ghost function DoomedIds(cs: seq<Comment>, p: nat): (r: set<nat>) {
    set i | 0 <= i < |cs| && InDeletedSubtree(cs, p, i) :: cs[i].id
  }

  /** The removed comments are exactly the least set of comments that holds
      every comment on the post and every reply to a removed comment: it holds
      them (first two conclusions), and any set that holds them contains it
      (last conclusion). */
  lemma DoomedIsLeastClosure(cs: seq<Comment>, postIds: set<nat>, next: nat, p: nat, closed: set<nat>)
    requires CommentsOk(cs, postIds, next)
    requires forall c :: c in cs && c.postId == p ==> c.id in closed
    requires forall c :: c in cs && c.parentId.Some? && c.parentId.value in closed ==> c.id in closed
    ensures forall c :: c in cs && c.postId == p ==> c.id in DoomedIds(cs, p)
    ensures forall c :: c in cs && c.parentId.Some? && c.parentId.value in DoomedIds(cs, p) ==> c.id in DoomedIds(cs, p)
    ensures DoomedIds(cs, p) <= closed
  {
    DoomedOnPost(cs, p);
    DoomedClosedUnderReplies(cs, postIds, next, p);
    forall i | 0 <= i < |cs| && InDeletedSubtree(cs, p, i) ensures cs[i].id in closed {
      DoomedWithin(cs, p, closed, i);
    }
  }

  lemma DoomedOnPost(cs: seq<Comment>, p: nat)
    ensures forall c :: c in cs && c.postId == p ==> c.id in DoomedIds(cs, p)
  {
    forall c | c in cs && c.postId == p ensures c.id in DoomedIds(cs, p) {
      var i :| 0 <= i < |cs| && cs[i] == c;
      assert InDeletedSubtree(cs, p, i);
    }
  }

  /** No reply survives its parent. */
  lemma DoomedClosedUnderReplies(cs: seq<Comment>, postIds: set<nat>, next: nat, p: nat)
    requires CommentsOk(cs, postIds, next)
    ensures forall c :: c in cs && c.parentId.Some? && c.parentId.value in DoomedIds(cs, p) ==> c.id in DoomedIds(cs, p)
  {
    forall c | c in cs && c.parentId.Some? && c.parentId.value in DoomedIds(cs, p)
      ensures c.id in DoomedIds(cs, p)
    {
      var i :| 0 <= i < |cs| && cs[i] == c;
      var j :| 0 <= j < |cs| && InDeletedSubtree(cs, p, j) && cs[j].id == c.parentId.value;
      assert InDeletedSubtree(cs, p, i);
    }
  }

  lemma {:induction false} DoomedWithin(cs: seq<Comment>, p: nat, closed: set<nat>, i: nat)
    requires i < |cs| && InDeletedSubtree(cs, p, i)
    requires forall c :: c in cs && c.postId == p ==> c.id in closed
    requires forall c :: c in cs && c.parentId.Some? && c.parentId.value in closed ==> c.id in closed
    ensures cs[i].id in closed
    decreases i
  {
    if cs[i].postId != p {
      var j :| 0 <= j < i && cs[j].id == cs[i].parentId.value && InDeletedSubtree(cs, p, j);
      DoomedWithin(cs, p, closed, j);
      assert cs[i] in cs;
    } else {
      assert cs[i] in cs;
    }
  }
}
