/** The routes of the posts blueprint that change the database: creating a
    post with its hashtags, commenting, reacting and deleting a post. Each
    route is a method on the `Store`; the session's `user_id` is a parameter
    and the route's redirect, flash or error page is its `Outcome`. */
module Posts {
  import opened Common
  import opened Text
  import opened Tables
  import opened Hashtags
  import opened Ledger

  /** How a route ends: it did its work, or it stopped early by sending the
      visitor to the login page, flashing "Invalid reaction.", or answering
      404 or 403. */
  datatype Outcome = Done | NotSignedIn | InvalidReaction | NotFound | Forbidden

  /** `session.get("user_id")` is truthy: present and not 0. */
  predicate SignedIn(uid: Option<nat>) {
    uid.Some? && uid.value != 0
  }

  // ---- creating a post ----------------------------------------------------------

  function LowerAll(names: seq<string>): (r: seq<string>)
    ensures |r| == |names|
    ensures forall i :: 0 <= i < |names| ==> r[i] == Lower(names[i])
  {
    seq(|names|, i requires 0 <= i < |names| => Lower(names[i]))
  }

  /** The lower-cased names hold no upper-case letter, and lower-casing them
      again changes nothing: names the attachment loop looks up are already
      in the form the hashtag table stores. */
  lemma LowerAllSpec(names: seq<string>)
    ensures forall i, k :: 0 <= i < |names| && 0 <= k < |LowerAll(names)[i]| ==> !IsUpper(LowerAll(names)[i][k])
    ensures LowerAll(LowerAll(names)) == LowerAll(names)
  {
    forall i | 0 <= i < |names| ensures LowerAll(LowerAll(names))[i] == LowerAll(names)[i] {
      LowerIdempotent(names[i]);
    }
  }

  /** The names of the hashtags a new post is attached to: the hashtags of
      "title content", lower-cased. */
  function TagNames(title: string, content: string): (r: seq<string>) {
    LowerAll(ParseHashtags(title + " " + content))
  }

  /** The attachment of post `pid` after the names `done` were handled,
      starting from hashtags `tags0` and links `links0`: both tables only
      grew, new hashtags carry handled names, new links belong to the post,
      the post is linked to exactly the hashtags named in `done`, and every
      handled name has its hashtag. */
  ghost predicate Attached(hs: seq<Hashtag>, links: seq<Link>, pid: nat, tags0: seq<Hashtag>, links0: seq<Link>, done: seq<string>) {
    && tags0 <= hs && links0 <= links
    && (forall h :: h in hs[|tags0|..] ==> h.name in done)
    && (forall l :: l in links[|links0|..] ==> l.postId == pid)
    && (forall h :: h in hs ==> (Link(pid, h.id) in links <==> h.name in done))
    && (forall n :: n in done ==> exists h :: h in hs && h.name == n)
  }

  /** A new post of a signed-in user is appended with the next id, its author
      and the current time. Each of its hashtag names, lower-cased, is looked
      up and created when missing, and the post is linked to it once. Nothing
      else changes: old hashtags and links stay in place, new hashtags carry
      names of this post, and new links belong to this post. */
  method CreatePost(s: Store, uid: Option<nat>, title: string, content: string, now: int) returns (out: Outcome)
    requires s.Valid()
    modifies s
    ensures s.Valid()
    ensures out == (if SignedIn(uid) then Done else NotSignedIn)
    ensures out != Done ==> unchanged(s)
    ensures out == Done ==>
      && s.posts == old(s.posts) + [Post(NextPostId(old(s.posts)), title, content, uid.value, Some(now))]
      && s.users == old(s.users) && s.comments == old(s.comments) && s.reactions == old(s.reactions)
      && Attached(s.hashtags, s.links, NextPostId(old(s.posts)), old(s.hashtags), old(s.links), TagNames(title, content))
  {
    if !SignedIn(uid) {
      return NotSignedIn;
    }
    var p := Post(NextPostId(s.posts), title, content, uid.value, Some(now));
    var ps, hs, nh, ls := NewPost(s.users, s.posts, s.comments, s.reactions, s.hashtags, s.links,
                                  NextUserId(s.users), NextPostId(s.posts), NextCommentId(s.comments),
                                  NextReactionId(s.reactions), NextHashtagId(s.hashtags),
                                  p, TagNames(title, content));
    s.SetPostTables(ps, hs, ls, NextPostId(s.posts) + 1, nh);
    return Done;
  }

  /** The tables after post `p` is added and attached to the hashtags `names`. */
  method NewPost(us: seq<User>, ps: seq<Post>, cs: seq<Comment>, rs: seq<Reaction>, hs: seq<Hashtag>, ls: seq<Link>,
                 nu: nat, np: nat, nc: nat, nr: nat, nh: nat, p: Post, names: seq<string>)
    returns (ps': seq<Post>, hs': seq<Hashtag>, nh': nat, ls': seq<Link>)
    requires TablesOk(us, ps, cs, rs, hs, ls, nu, np, nc, nr, nh) && p.id == np
    ensures TablesOk(us, ps', cs, rs, hs', ls', nu, np + 1, nc, nr, nh')
    ensures ps' == ps + [p]
    ensures Attached(hs', ls', p.id, hs, ls, names)
  {
    ps' := ps + [p];
    InsertPostOk(us, ps, cs, rs, hs, ls, p, nu, np, nc, nr, nh);
    hs', nh', ls' := AttachAll(hs, nh, ls, PostIds(ps'), p.id, names);
    NewTagsOk(us, ps', cs, rs, hs, ls, hs', ls', nu, np + 1, nc, nr, nh, nh');
  }

  /** Replacing the hashtags and the links by well-formed ones keeps the
      other tables' rules. */
  lemma NewTagsOk(us: seq<User>, ps: seq<Post>, cs: seq<Comment>, rs: seq<Reaction>, hs: seq<Hashtag>, ls: seq<Link>,
                  hs': seq<Hashtag>, ls': seq<Link>, nu: nat, np: nat, nc: nat, nr: nat, nh: nat, nh': nat)
    requires TablesOk(us, ps, cs, rs, hs, ls, nu, np, nc, nr, nh)
    requires HashtagsOk(hs', nh') && LinksOk(ls', PostIds(ps), HashtagIds(hs'))
    ensures TablesOk(us, ps, cs, rs, hs', ls', nu, np, nc, nr, nh')
  {
  }

  /** The attachment loop of `index` on POST: every name in turn is looked
      up, created when missing, and linked to post `pid` once. */
  method AttachAll(hs0: seq<Hashtag>, next0: nat, links0: seq<Link>, ghost postIds: set<nat>, pid: nat, names: seq<string>)
    returns (hs: seq<Hashtag>, next: nat, links: seq<Link>)
    requires HashtagsOk(hs0, next0) && LinksOk(links0, postIds, HashtagIds(hs0)) && pid in postIds
    requires Attached(hs0, links0, pid, hs0, links0, [])
    ensures HashtagsOk(hs, next) && LinksOk(links, postIds, HashtagIds(hs))
    ensures Attached(hs, links, pid, hs0, links0, names)
  {
    hs, next, links := hs0, next0, links0;
    var i := 0;
    while i < |names|
      invariant 0 <= i <= |names|
      invariant HashtagsOk(hs, next) && LinksOk(links, postIds, HashtagIds(hs))
      invariant Attached(hs, links, pid, hs0, links0, names[..i])
    {
      assert names[..i + 1] == names[..i] + [names[i]];
      hs, next, links := AttachTag(hs, next, links, postIds, pid, names[i], hs0, links0, names[..i]);
      i := i + 1;
    }
    assert names[..|names|] == names;
  }

  /** `db.session.add(post)` with the next post id: the post table grows by
      one row that no link mentions yet, and the rules still hold. */
  lemma InsertPostOk(us: seq<User>, ps: seq<Post>, cs: seq<Comment>, rs: seq<Reaction>, hs: seq<Hashtag>, ls: seq<Link>,
                     p: Post, nu: nat, np: nat, nc: nat, nr: nat, nh: nat)
    requires TablesOk(us, ps, cs, rs, hs, ls, nu, np, nc, nr, nh) && p.id == np
    ensures TablesOk(us, ps + [p], cs, rs, hs, ls, nu, np + 1, nc, nr, nh)
    ensures p.id in PostIds(ps + [p])
    ensures Attached(hs, ls, p.id, hs, ls, [])
  {
    PostIdsGrow(ps, p);
    forall l | l in ls ensures l.postId != p.id {
      var q :| q in ps && q.id == l.postId;
    }
    var ps' := ps + [p];
    assert forall i :: 0 <= i < |ps| ==> ps'[i] == ps[i] && ps[i] in ps;
  }

  /** One turn of the attachment loop: the hashtag called `name` is looked up
      in `hs`, created with the next id when missing, and linked to post
      `pid` unless it already is. */
  method AttachTag(hs: seq<Hashtag>, next: nat, links: seq<Link>, ghost postIds: set<nat>, pid: nat, name: string,
                   ghost tags0: seq<Hashtag>, ghost links0: seq<Link>, ghost done: seq<string>)
    returns (hs': seq<Hashtag>, next': nat, links': seq<Link>)
    requires HashtagsOk(hs, next) && LinksOk(links, postIds, HashtagIds(hs)) && pid in postIds
    requires Attached(hs, links, pid, tags0, links0, done)
    ensures HashtagsOk(hs', next') && LinksOk(links', postIds, HashtagIds(hs'))
    ensures Attached(hs', links', pid, tags0, links0, done + [name])
  {
    var found := HashtagByName(hs, name);
    var tag: Hashtag;
    if found.None? {
      tag := Hashtag(next, name);
      hs', next' := hs + [tag], next + 1;
    } else {
      tag := found.value;
      hs', next' := hs, next;
    }
    links' := if Link(pid, tag.id) in links then links else links + [Link(pid, tag.id)];
    AttachKeepsOk(hs, next, links, postIds, pid, hs', next', links', tag);
    AttachCovers(hs, next, links, pid, tags0, links0, done, hs', next', links', tag);
  }

  /** `tag` is the hashtag called `name` in `hs'`: either it was in `hs`
      already, or it was appended to it with the next id. */
  ghost predicate Grown(hs: seq<Hashtag>, next: nat, hs': seq<Hashtag>, next': nat, tag: Hashtag) {
    || (hs' == hs && next' == next && tag in hs)
    || (hs' == hs + [tag] && next' == next + 1 && tag.id == next && forall h :: h in hs ==> h.name != tag.name)
  }

  lemma AttachKeepsOk(hs: seq<Hashtag>, next: nat, links: seq<Link>, postIds: set<nat>, pid: nat,
                      hs': seq<Hashtag>, next': nat, links': seq<Link>, tag: Hashtag)
    requires HashtagsOk(hs, next) && LinksOk(links, postIds, HashtagIds(hs)) && pid in postIds
    requires Grown(hs, next, hs', next', tag)
    requires links' == if Link(pid, tag.id) in links then links else links + [Link(pid, tag.id)]
    ensures HashtagsOk(hs', next') && LinksOk(links', postIds, HashtagIds(hs'))
  {
    if hs' != hs {
      AddHashtagKeepsOk(hs, next, tag);
    }
  }

  lemma AttachCovers(hs: seq<Hashtag>, next: nat, links: seq<Link>, pid: nat,
                     tags0: seq<Hashtag>, links0: seq<Link>, done: seq<string>,
                     hs': seq<Hashtag>, next': nat, links': seq<Link>, tag: Hashtag)
    requires HashtagsOk(hs, next)
    requires Attached(hs, links, pid, tags0, links0, done)
    requires Grown(hs, next, hs', next', tag)
    requires links' == if Link(pid, tag.id) in links then links else links + [Link(pid, tag.id)]
    ensures Attached(hs', links', pid, tags0, links0, done + [tag.name])
  {
    if hs' != hs {
      AddHashtagKeepsOk(hs, next, tag);
    }
    assert forall h :: h in hs' && h != tag ==> h in hs;
    TagStep(hs', next', links, links', pid, tag, done);
    forall h | h in hs'[|tags0|..] ensures h.name in done + [tag.name] {
      if hs' != hs { AppendedTail(tags0, hs, tag, h); }
    }
    forall l | l in links'[|links0|..] ensures l.postId == pid {
      if links' != links { AppendedTail(links0, links, Link(pid, tag.id), l); }
    }
    forall n | n in done + [tag.name] ensures exists h :: h in hs' && h.name == n {
      if n != tag.name {
        var h :| h in hs && h.name == n;
        assert h in hs';
      }
    }
  }

  lemma PostIdsGrow(ps: seq<Post>, p: Post)
    ensures PostIds(ps + [p]) == PostIds(ps) + {p.id}
  {
  }

  lemma AddHashtagKeepsOk(hs: seq<Hashtag>, next: nat, tag: Hashtag)
    requires HashtagsOk(hs, next) && tag.id == next
    requires forall h :: h in hs ==> h.name != tag.name
    ensures HashtagsOk(hs + [tag], next + 1)
    ensures HashtagIds(hs + [tag]) == HashtagIds(hs) + {tag.id}
  {
    var r := hs + [tag];
    forall i, j | 0 <= i < j < |r| ensures r[i].id < r[j].id && r[i].name != r[j].name {
      assert r[i] == hs[i] && hs[i] in hs;
      if j < |hs| { assert r[j] == hs[j]; }
    }
  }

  /** After linking the post to `tag`, the linked hashtags are those named
      by the handled names and `tag`'s own. */
  lemma TagStep(hs: seq<Hashtag>, next: nat, links: seq<Link>, links': seq<Link>, pid: nat, tag: Hashtag, done: seq<string>)
    requires HashtagsOk(hs, next) && tag in hs
    requires links' == if Link(pid, tag.id) in links then links else links + [Link(pid, tag.id)]
    requires forall h :: h in hs && h != tag ==> (Link(pid, h.id) in links <==> h.name in done)
    ensures forall h :: h in hs ==> (Link(pid, h.id) in links' <==> h.name in done + [tag.name])
  {
    forall h | h in hs && h != tag ensures h.id != tag.id && h.name != tag.name {
      var a :| 0 <= a < |hs| && hs[a] == h;
      var b :| 0 <= b < |hs| && hs[b] == tag;
      assert a != b;
    }
  }

  // ---- reacting ----------------------------------------------------------------

  /** The reaction named in the URL, when it is one of the two kinds. */
  function ParseKind(text: string): (r: Option<ReactionKind>) {
    if text == "plus" then Some(Plus) else if text == "minus" then Some(Minus) else None
  }

  /** `react`: the visitor must be signed in, the kind must be "plus" or
      "minus", and the post must exist, checked in that order; then the
      user's reaction on the post is recorded as the ledger says. */
  method React(s: Store, uid: Option<nat>, postId: nat, kindText: string) returns (out: Outcome)
    requires s.Valid()
    modifies s
    ensures s.Valid()
    ensures out == (if !SignedIn(uid) then NotSignedIn
                    else if ParseKind(kindText).None? then InvalidReaction
                    else if postId !in PostIds(old(s.posts)) then NotFound
                    else Done)
    ensures out != Done ==> unchanged(s)
    ensures out == Done ==>
      && s.reactions == Record(old(s.reactions), postId, uid.value, ParseKind(kindText).value, NextReactionId(old(s.reactions)))
      && s.users == old(s.users) && s.posts == old(s.posts) && s.comments == old(s.comments)
      && s.hashtags == old(s.hashtags) && s.links == old(s.links)
  {
    if !SignedIn(uid) {
      return NotSignedIn;
    }
    var kind := ParseKind(kindText);
    if kind.None? {
      return InvalidReaction;
    }
    var post := PostById(s.posts, postId);
    if post.None? {
      return NotFound;
    }
    var rs := Record(s.reactions, postId, uid.value, kind.value, NextReactionId(s.reactions));
    RecordKeepsReactionsOk(s.reactions, PostIds(s.posts), NextReactionId(s.reactions), postId, uid.value, kind.value);
    TablesAtNext(s.users, s.posts, s.comments, rs, s.hashtags, s.links,
                 NextUserId(s.users), NextPostId(s.posts), NextCommentId(s.comments), NextReactionId(s.reactions) + 1, NextHashtagId(s.hashtags));
    s.reactions := rs;
    return Done;
  }

  // ---- commenting ----------------------------------------------------------------

  /** The parent of a new comment: the comment whose id the form's
      `parent_id` gives, when there is one; none when the field is missing,
      empty, or names no comment. */
  function ParentOf(cs: seq<Comment>, field: Option<int>): (r: Option<nat>) {
    match field
    case None => None
    case Some(n) =>
      if n < 0 then None
      else match CommentById(cs, n)
        case None => None
        case Some(c) => Some(c.id)
  }

  /** A reply is attached to the named comment exactly when it exists;
      otherwise the comment silently becomes a thread root. */
  lemma ParentOfSpec(cs: seq<Comment>, field: Option<int>, q: nat)
    ensures ParentOf(cs, field) == Some(q) <==> field == Some(q as int) && q in CommentIds(cs)
    ensures ParentOf(cs, field).None? <==> field.None? || field.value < 0 || field.value as nat !in CommentIds(cs)
  {
  }

  /** `post_detail` on POST: a missing post answers 404 before the sign-in
      check; a signed-in user's comment is appended with the next id, on this
      post, with the parent `ParentOf` gives. The parent may be on another
      post. */
  method AddComment(s: Store, uid: Option<nat>, postId: nat, content: string, parentField: Option<int>) returns (out: Outcome)
    requires s.Valid()
    modifies s
    ensures s.Valid()
    ensures out == (if postId !in PostIds(old(s.posts)) then NotFound else if !SignedIn(uid) then NotSignedIn else Done)
    ensures out != Done ==> unchanged(s)
    ensures out == Done ==>
      && s.comments == old(s.comments) + [Comment(NextCommentId(old(s.comments)), content, postId, uid.value, ParentOf(old(s.comments), parentField))]
      && s.users == old(s.users) && s.posts == old(s.posts) && s.reactions == old(s.reactions)
      && s.hashtags == old(s.hashtags) && s.links == old(s.links)
  {
    var post := PostById(s.posts, postId);
    if post.None? {
      return NotFound;
    }
    if !SignedIn(uid) {
      return NotSignedIn;
    }
    var c := Comment(NextCommentId(s.comments), content, postId, uid.value, ParentOf(s.comments, parentField));
    AddCommentKeepsOk(s.comments, PostIds(s.posts), NextCommentId(s.comments), c);
    assert NextCommentId(s.comments + [c]) == c.id + 1;
    s.comments := s.comments + [c];
    return Done;
  }

  lemma AddCommentKeepsOk(cs: seq<Comment>, postIds: set<nat>, next: nat, c: Comment)
    requires CommentsOk(cs, postIds, next) && c.id == next && c.postId in postIds
    requires c.parentId.Some? ==> c.parentId.value in CommentIds(cs)
    ensures CommentsOk(cs + [c], postIds, next + 1)
  {
    var r := cs + [c];
    assert CommentIds(r) == CommentIds(cs) + {c.id};
    forall i, j | 0 <= i < j < |r| ensures r[i].id < r[j].id {
      assert r[i] == cs[i] && cs[i] in cs;
      if j < |cs| { assert r[j] == cs[j]; }
    }
    if c.parentId.Some? {
      var p :| p in cs && p.id == c.parentId.value;
    }
  }

  // ---- deleting a post -------------------------------------------------------------

  /** The user with this id exists and is an administrator. */
  predicate IsAdmin(us: seq<User>, id: nat) {
    match UserById(us, id)
    case None => false
    case Some(u) => u.isAdmin
  }

  /** Ids of the comments among the first `n` that go with post `p`. */
  ghost function DoomedBefore(cs: seq<Comment>, p: nat, n: nat): (r: set<nat>)
    requires n <= |cs|
  {
    set j | 0 <= j < n && InDeletedSubtree(cs, p, j) :: cs[j].id
  }

  /** The comments that go with post `p`, found in one pass over the table:
      a comment goes when it is on `p` or when its parent, which comes
      earlier, went. */
  method CascadeIds(cs: seq<Comment>, p: nat) returns (doomed: set<nat>)
    ensures doomed == DoomedIds(cs, p)
  {
    doomed := {};
    var i := 0;
    while i < |cs|
      invariant 0 <= i <= |cs|
      invariant doomed == DoomedBefore(cs, p, i)
    {
      var c := cs[i];
      CascadeStep(cs, p, i);
      if c.postId == p || (c.parentId.Some? && c.parentId.value in doomed) {
        doomed := doomed + {c.id};
      }
      i := i + 1;
    }
  }

  lemma CascadeStep(cs: seq<Comment>, p: nat, i: nat)
    requires i < |cs|
    ensures InDeletedSubtree(cs, p, i) <==>
      cs[i].postId == p || (cs[i].parentId.Some? && cs[i].parentId.value in DoomedBefore(cs, p, i))
    ensures DoomedBefore(cs, p, i + 1) ==
      DoomedBefore(cs, p, i) + (if InDeletedSubtree(cs, p, i) then {cs[i].id} else {})
  {
    if cs[i].parentId.Some? && cs[i].parentId.value in DoomedBefore(cs, p, i) {
      var j :| 0 <= j < i && InDeletedSubtree(cs, p, j) && cs[j].id == cs[i].parentId.value;
    }
  }

  /** `delete_post`: the visitor must be signed in, must be an existing
      administrator (403 otherwise), and the post must exist (404), checked
      in that order. The post goes, with its reactions, its hashtag links,
      its comments and every reply below a removed comment. */
  method DeletePost(s: Store, uid: Option<nat>, postId: nat) returns (out: Outcome)
    requires s.Valid()
    modifies s
    ensures s.Valid()
    ensures out == (if !SignedIn(uid) then NotSignedIn
                    else if !IsAdmin(old(s.users), uid.value) then Forbidden
                    else if postId !in PostIds(old(s.posts)) then NotFound
                    else Done)
    ensures out != Done ==> unchanged(s)
    ensures out == Done ==>
      && s.users == old(s.users) && s.hashtags == old(s.hashtags)
      && (forall x :: x in s.posts <==> x in old(s.posts) && x.id != postId)
      && (forall c :: c in s.comments <==> c in old(s.comments) && c.id !in DoomedIds(old(s.comments), postId))
      && (forall r :: r in s.reactions <==> r in old(s.reactions) && r.postId != postId)
      && (forall l :: l in s.links <==> l in old(s.links) && l.postId != postId)
    ensures out == Done ==>
      && s.posts == Filter(old(s.posts), KeepPost(postId))
      && s.comments == Filter(old(s.comments), KeepComment(DoomedIds(old(s.comments), postId)))
      && s.reactions == Filter(old(s.reactions), KeepReaction(postId))
      && s.links == Filter(old(s.links), KeepLink(postId))
  {
    if !SignedIn(uid) {
      return NotSignedIn;
    }
    if !IsAdmin(s.users, uid.value) {
      return Forbidden;
    }
    var post := PostById(s.posts, postId);
    if post.None? {
      return NotFound;
    }
    var ps, cs, rs, ls := RemovePost(s.posts, s.comments, s.reactions, s.links, postId,
                                     s.users, s.hashtags, NextUserId(s.users), NextPostId(s.posts), NextCommentId(s.comments),
                                     NextReactionId(s.reactions), NextHashtagId(s.hashtags));
    s.SetRemaining(ps, cs, rs, ls, NextPostId(s.posts), NextCommentId(s.comments), NextReactionId(s.reactions));
    return Done;
  }

  /** The tables without post `p` and everything that goes with it; the rules
      of the tables still hold. */
  method RemovePost(ps: seq<Post>, cs: seq<Comment>, rs: seq<Reaction>, ls: seq<Link>, p: nat,
                    ghost us: seq<User>, ghost hs: seq<Hashtag>,
                    ghost nu: nat, ghost np: nat, ghost nc: nat, ghost nr: nat, ghost nh: nat)
    returns (ps': seq<Post>, cs': seq<Comment>, rs': seq<Reaction>, ls': seq<Link>)
    requires TablesOk(us, ps, cs, rs, hs, ls, nu, np, nc, nr, nh)
    ensures TablesOk(us, ps', cs', rs', hs, ls', nu, np, nc, nr, nh)
    ensures forall x :: x in ps' <==> x in ps && x.id != p
    ensures forall c :: c in cs' <==> c in cs && c.id !in DoomedIds(cs, p)
    ensures forall r :: r in rs' <==> r in rs && r.postId != p
    ensures forall l :: l in ls' <==> l in ls && l.postId != p
    ensures ps' == Filter(ps, KeepPost(p)) && cs' == Filter(cs, KeepComment(DoomedIds(cs, p)))
    ensures rs' == Filter(rs, KeepReaction(p)) && ls' == Filter(ls, KeepLink(p))
  {
    var doomed := CascadeIds(cs, p);
    ps' := Filter(ps, KeepPost(p));
    cs' := Filter(cs, KeepComment(doomed));
    rs' := Filter(rs, KeepReaction(p));
    ls' := Filter(ls, KeepLink(p));
    DeletePostsOk(ps, np, p, KeepPost(p));
    DeleteCommentsOk(cs, PostIds(ps), nc, p, KeepComment(doomed));
    DeleteReactionsOk(rs, PostIds(ps), nr, p, KeepReaction(p));
    DeleteLinksOk(ls, PostIds(ps), HashtagIds(hs), p, KeepLink(p));
  }

  /** What survives the deletion of post `p`, row by row: posts other than
      `p`, comments outside the cascade, and reactions and links of other
      posts. */
  function KeepPost(p: nat): (r: Post -> bool) {
    (x: Post) => x.id != p
  }

  function KeepComment(doomed: set<nat>): (r: Comment -> bool) {
    (c: Comment) => c.id !in doomed
  }

  function KeepReaction(p: nat): (r: Reaction -> bool) {
    (r: Reaction) => r.postId != p
  }

  function KeepLink(p: nat): (r: Link -> bool) {
    (l: Link) => l.postId != p
  }

  lemma DeletePostsOk(ps: seq<Post>, next: nat, p: nat, keep: Post -> bool)
    requires PostsOk(ps, next)
    requires forall x :: keep(x) <==> x.id != p
    ensures PostsOk(Filter(ps, keep), next)
    ensures PostIds(Filter(ps, keep)) == PostIds(ps) - {p}
  {
    FilterPairwise(ps, keep, (a: Post, b: Post) => a.id < b.id);
  }

  lemma DeleteCommentsOk(cs: seq<Comment>, postIds: set<nat>, next: nat, p: nat, keep: Comment -> bool)
    requires CommentsOk(cs, postIds, next)
    requires forall c :: keep(c) <==> c.id !in DoomedIds(cs, p)
    ensures CommentsOk(Filter(cs, keep), postIds - {p}, next)
  {
    var r := Filter(cs, keep);
    FilterPairwise(cs, keep, (a: Comment, b: Comment) => a.id < b.id);
    DoomedOnPost(cs, p);
    DoomedClosedUnderReplies(cs, postIds, next, p);
    forall c | c in r && c.parentId.Some? ensures c.parentId.value in CommentIds(r) {
      var q :| q in cs && q.id == c.parentId.value;
      assert q in r;
    }
  }

  lemma DeleteReactionsOk(rs: seq<Reaction>, postIds: set<nat>, next: nat, p: nat, keep: Reaction -> bool)
    requires ReactionsOk(rs, postIds, next)
    requires forall x :: keep(x) <==> x.postId != p
    ensures ReactionsOk(Filter(rs, keep), postIds - {p}, next)
  {
    FilterPairwise(rs, keep, (a: Reaction, b: Reaction) => a.id < b.id);
    FilterPairwise(rs, keep, (a: Reaction, b: Reaction) => a.postId != b.postId || a.userId != b.userId);
  }

  lemma DeleteLinksOk(ls: seq<Link>, postIds: set<nat>, tagIds: set<nat>, p: nat, keep: Link -> bool)
    requires LinksOk(ls, postIds, tagIds)
    requires forall x :: keep(x) <==> x.postId != p
    ensures LinksOk(Filter(ls, keep), postIds - {p}, tagIds)
  {
    FilterNoDup(ls, keep);
  }
}
