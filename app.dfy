/** The application factory's own logic: the `parse_mentions` template
    filter and the bootstrap of the administrator account. */
module App {
  import opened Common
  import opened Text
  import opened Tables
  import opened Auth

  // ---- parse_mentions ------------------------------------------------------------

  /** A piece of scanned text: a character copied as it is, or a mention
      `@name` of a maximal word-character run. */
  datatype Piece = Plain(c: char) | Mention(name: string)

  /** `re.sub(r"@(\w+)", ...)` reads the text left to right: at an `@`
      followed by a word character it takes the whole run as one mention and
      resumes after it; any other character is copied. */
  function Scan(s: string): (r: seq<Piece>)
    decreases |s|
  {
    if s == [] then []
    else if |s| >= 2 && s[0] == '@' && IsWordChar(s[1]) then
      var n := RunLen(s[1..]);
      [Mention(s[1..1 + n])] + Scan(s[1 + n..])
    else [Plain(s[0])] + Scan(s[1..])
  }

  /** The text the pieces were read from. */
  function Source(ps: seq<Piece>): (r: string) {
    if ps == [] then []
    else (match ps[0] case Plain(c) => [c] case Mention(name) => "@" + name) + Source(ps[1..])
  }

  /** The profile link a mention is replaced by. */
  function MentionLink(name: string): (r: string) {
    "<a href=\"/users/" + name + "\">@" + name + "</a>"
  }

  /** The replacement text of the pieces; replacement text is produced once
      and never scanned again. */
  function Render(ps: seq<Piece>): (r: string) {
    if ps == [] then []
    else (match ps[0] case Plain(c) => [c] case Mention(name) => MentionLink(name)) + Render(ps[1..])
  }

  /** `parse_mentions`: `None` and the empty text are returned as they are,
      any other text with every mention replaced by a profile link. */
  function ParseMentions(text: Option<string>): (r: Option<string>) {
    if text.None? || text.value == [] then text
    else Some(Render(Scan(text.value)))
  }

  /** A mention is a non-empty run of word characters, and the run is
      maximal: no word character is copied right after a mention or right
      after an `@` that stayed plain. */
  ghost predicate WellScanned(ps: seq<Piece>) {
    && (forall i :: 0 <= i < |ps| && ps[i].Mention? ==>
          |ps[i].name| > 0 && forall k :: 0 <= k < |ps[i].name| ==> IsWordChar(ps[i].name[k]))
    && (forall i :: 0 <= i < |ps| - 1 && (ps[i].Mention? || ps[i] == Plain('@')) ==>
          !(ps[i + 1].Plain? && IsWordChar(ps[i + 1].c)))
  }

  lemma ScanHead(s: string)
    requires s != []
    ensures Scan(s) != []
    ensures Scan(s)[0] == Plain(s[0]) || (s[0] == '@' && Scan(s)[0].Mention?)
  {
  }

  /** Scanning loses nothing: the pieces spell the text again, in order, and
      they are well formed. */
  lemma {:induction false} ScanSpec(s: string)
    ensures Source(Scan(s)) == s
    ensures WellScanned(Scan(s))
    decreases |s|
  {
    if s == [] {
    } else if MentionFirst(s) {
      ScanSpec(s[1 + RunLen(s[1..])..]);
      ScanSpecMention(s);
    } else {
      ScanSpec(s[1..]);
      ScanSpecPlain(s);
    }
  }

  lemma ScanSpecMention(s: string)
    requires MentionFirst(s)
    requires Source(Scan(s[1 + RunLen(s[1..])..])) == s[1 + RunLen(s[1..])..]
    requires WellScanned(Scan(s[1 + RunLen(s[1..])..]))
    ensures Source(Scan(s)) == s
    ensures WellScanned(Scan(s))
  {
    var n := RunLen(s[1..]);
    var rest := s[1 + n..];
    MentionParts(s, n, s[1..1 + n]);
    ScanMentionFirst(s);
    SourceConsMention(s[1..1 + n], Scan(rest));
    if rest != [] {
      ScanHead(rest);
    }
    WellScannedCons(Mention(s[1..1 + n]), Scan(rest));
  }

  lemma ScanSpecPlain(s: string)
    requires s != [] && !MentionFirst(s)
    requires Source(Scan(s[1..])) == s[1..]
    requires WellScanned(Scan(s[1..]))
    ensures Source(Scan(s)) == s
    ensures WellScanned(Scan(s))
  {
    ScanPlainFirst(s);
    SourceConsPlain(s[0], Scan(s[1..]));
    HeadTail(s);
    if |s| >= 2 {
      ScanHead(s[1..]);
    }
    WellScannedCons(Plain(s[0]), Scan(s[1..]));
  }

  /** How a text that starts with a mention splits up. */
  lemma MentionParts(s: string, n: nat, name: string)
    requires MentionFirst(s) && n == RunLen(s[1..])
    requires 1 + n <= |s| && name == s[1..1 + n]
    ensures 1 <= n
    ensures s == "@" + name + s[1 + n..]
    ensures forall k :: 0 <= k < |name| ==> IsWordChar(name[k])
    ensures 1 + n < |s| ==> !IsWordChar(s[1 + n])
  {
    assert s[1..][0] == s[1];
    forall k | 0 <= k < n ensures IsWordChar(name[k]) {
      assert name[k] == s[1..][k];
    }
    if 1 + n < |s| {
      assert s[1 + n] == s[1..][n];
    }
  }

  lemma HeadTail(s: string)
    requires s != []
    ensures s == [s[0]] + s[1..]
  {
  }

  lemma SourceConsMention(name: string, ps: seq<Piece>)
    ensures Source([Mention(name)] + ps) == "@" + name + Source(ps)
  {
    assert ([Mention(name)] + ps)[1..] == ps;
  }

  lemma SourceConsPlain(c: char, ps: seq<Piece>)
    ensures Source([Plain(c)] + ps) == [c] + Source(ps)
  {
    assert ([Plain(c)] + ps)[1..] == ps;
  }

  lemma WellScannedCons(p: Piece, ps: seq<Piece>)
    requires WellScanned(ps)
    requires p.Mention? ==> |p.name| > 0 && forall k :: 0 <= k < |p.name| ==> IsWordChar(p.name[k])
    requires ps != [] && (p.Mention? || p == Plain('@')) ==> !(ps[0].Plain? && IsWordChar(ps[0].c))
    ensures WellScanned([p] + ps)
  {
    var qs := [p] + ps;
    forall i | 1 <= i < |qs| ensures qs[i] == ps[i - 1] {
    }
  }

  /** `parse_mentions` returns a falsy text as it is; any other text is
      the rendering of a well-formed scan that spells the text. */
  lemma ParseMentionsSpec(text: Option<string>)
    ensures text.None? || text.value == [] ==> ParseMentions(text) == text
    ensures text.Some? && text.value != [] ==>
      exists ps :: Source(ps) == text.value && WellScanned(ps) && ParseMentions(text) == Some(Render(ps))
  {
    if text.Some? && text.value != [] {
      ScanSpec(text.value);
    }
  }

  /** Text in which no `@` is followed by a word character comes back unchanged. */
  lemma {:induction false} NoMentionUnchanged(s: string)
    requires forall i :: 0 <= i < |s| - 1 && s[i] == '@' ==> !IsWordChar(s[i + 1])
    ensures ParseMentions(Some(s)) == Some(s)
    decreases |s|
  {
    if s != [] {
      assert Scan(s) == [Plain(s[0])] + Scan(s[1..]);
      NoMentionUnchanged(s[1..]);
      if s[1..] != [] {
        assert Render(Scan(s[1..])) == s[1..];
      }
      assert s == [s[0]] + s[1..];
    }
  }

  lemma {:induction false} RunLenAppend(a: string, b: string)
    requires b == [] || !IsWordChar(b[0])
    ensures RunLen(a + b) == RunLen(a)
  {
    if a != [] {
      assert (a + b)[1..] == a[1..] + b;
      RunLenAppend(a[1..], b);
    } else {
      assert a + b == b;
    }
  }

  /** `s` starts with `@` and a word character: a mention is read first. */
  predicate MentionFirst(s: string) {
    |s| >= 2 && s[0] == '@' && IsWordChar(s[1])
  }

  /** Cutting the text just before a character that is not a word character
      cuts the scan there too: no mention spans the cut. */
  lemma {:induction false} ScanAppend(a: string, b: string)
    requires b == [] || !IsWordChar(b[0])
    ensures Scan(a + b) == Scan(a) + Scan(b)
    decreases |a|
  {
    if a == [] {
      assert a + b == b;
    } else if MentionFirst(a) {
      ScanAppend(a[1 + RunLen(a[1..])..], b);
      ScanAppendMention(a, b);
    } else {
      ScanAppend(a[1..], b);
      ScanAppendPlain(a, b);
    }
  }

  lemma ScanAppendMention(a: string, b: string)
    requires MentionFirst(a) && (b == [] || !IsWordChar(b[0]))
    requires Scan(a[1 + RunLen(a[1..])..] + b) == Scan(a[1 + RunLen(a[1..])..]) + Scan(b)
    ensures Scan(a + b) == Scan(a) + Scan(b)
  {
    var n := RunLen(a[1..]);
    SuffixOfAppend(a, b, 1);
    RunLenAppend(a[1..], b);
    SliceOfAppend(a, b, 1, 1 + n);
    SuffixOfAppend(a, b, 1 + n);
    ScanMentionFirst(a + b);
    ScanMentionFirst(a);
    calc {
      Scan(a + b);
      [Mention(a[1..1 + n])] + Scan(a[1 + n..] + b);
      [Mention(a[1..1 + n])] + (Scan(a[1 + n..]) + Scan(b));
      { PiecesAssoc([Mention(a[1..1 + n])], Scan(a[1 + n..]), Scan(b)); }
      ([Mention(a[1..1 + n])] + Scan(a[1 + n..])) + Scan(b);
    }
  }

  lemma ScanAppendPlain(a: string, b: string)
    requires a != [] && !MentionFirst(a) && (b == [] || !IsWordChar(b[0]))
    requires Scan(a[1..] + b) == Scan(a[1..]) + Scan(b)
    ensures Scan(a + b) == Scan(a) + Scan(b)
  {
    SuffixOfAppend(a, b, 1);
    assert !MentionFirst(a + b);
    ScanPlainFirst(a + b);
    ScanPlainFirst(a);
    calc {
      Scan(a + b);
      [Plain(a[0])] + Scan(a[1..] + b);
      [Plain(a[0])] + (Scan(a[1..]) + Scan(b));
      { PiecesAssoc([Plain(a[0])], Scan(a[1..]), Scan(b)); }
      ([Plain(a[0])] + Scan(a[1..])) + Scan(b);
    }
  }

  lemma SuffixOfAppend(a: string, b: string, k: nat)
    requires k <= |a|
    ensures (a + b)[k..] == a[k..] + b
  {
  }

  lemma SliceOfAppend(a: string, b: string, i: nat, j: nat)
    requires i <= j <= |a|
    ensures (a + b)[i..j] == a[i..j]
  {
  }

  lemma PiecesAssoc(x: seq<Piece>, y: seq<Piece>, z: seq<Piece>)
    ensures x + (y + z) == (x + y) + z
  {
  }

  lemma ScanMentionFirst(s: string)
    requires MentionFirst(s)
    ensures Scan(s) == [Mention(s[1..1 + RunLen(s[1..])])] + Scan(s[1 + RunLen(s[1..])..])
  {
  }

  lemma ScanPlainFirst(s: string)
    requires s != [] && !MentionFirst(s)
    ensures Scan(s) == [Plain(s[0])] + Scan(s[1..])
  {
  }

  lemma {:induction false} RenderAppend(xs: seq<Piece>, ys: seq<Piece>)
    ensures Render(xs + ys) == Render(xs) + Render(ys)
  {
    if xs != [] {
      assert (xs + ys)[1..] == xs[1..] + ys;
      RenderAppend(xs[1..], ys);
    } else {
      assert xs + ys == ys;
    }
  }

  /** One mention of a whole run followed by a non-word character, or by
      the end of the text, becomes exactly one link, and the rest of the text
      is rewritten on its own. */
  lemma OneMention(name: string, rest: string)
    requires |name| > 0 && forall k :: 0 <= k < |name| ==> IsWordChar(name[k])
    requires rest == [] || !IsWordChar(rest[0])
    ensures ParseMentions(Some(['@'] + name + rest)) == Some(MentionLink(name) + Render(Scan(rest)))
  {
    var s := ['@'] + name + rest;
    MentionText(name, rest);
    ScanMentionFirst(s);
    RenderAppend([Mention(name)], Scan(rest));
  }

  /** The pieces of the text `@name rest`, before any scanning. */
  lemma MentionText(name: string, rest: string)
    requires |name| > 0 && forall k :: 0 <= k < |name| ==> IsWordChar(name[k])
    requires rest == [] || !IsWordChar(rest[0])
    ensures MentionFirst(['@'] + name + rest)
    ensures RunLen((['@'] + name + rest)[1..]) == |name|
    ensures (['@'] + name + rest)[1..1 + |name|] == name
    ensures (['@'] + name + rest)[1 + |name|..] == rest
  {
    var s := ['@'] + name + rest;
    assert s[1..] == name + rest;
    assert s[1] == name[0];
    RunLenAppend(name, rest);
    RunLenAll(name);
  }

  lemma {:induction false} RunLenAll(s: string)
    requires forall k :: 0 <= k < |s| ==> IsWordChar(s[k])
    ensures RunLen(s) == |s|
  {
    if s != [] {
      RunLenAll(s[1..]);
    }
  }

  // ---- the administrator bootstrap ------------------------------------------------

  const AdminLogin := "admin"
  const FallbackAdminPassword := "admin123"

  /** `ADMIN_PASSWORD` from the environment, `admin123` when it is unset. */
  function AdminPassword(env: Option<string>): (r: string) {
    if env.Some? then env.value else FallbackAdminPassword
  }

  /** `create_app` after `create_all`: when no user is called `admin`, one
      administrator with that login and the hash of the configured password
      is added; otherwise nothing changes. Either way an `admin` user exists
      afterwards. */
  method EnsureAdmin(s: Store, env: Option<string>, hashOf: string -> string)
    requires s.Valid()
    modifies s
    ensures s.Valid()
    ensures UserByLogin(s.users, AdminLogin).Some?
    ensures UserByLogin(old(s.users), AdminLogin).Some? ==> unchanged(s)
    ensures UserByLogin(old(s.users), AdminLogin).None? ==>
      && s.users == old(s.users) + [User(NextUserId(old(s.users)), AdminLogin, hashOf(AdminPassword(env)), true)]
      && s.posts == old(s.posts) && s.comments == old(s.comments) && s.reactions == old(s.reactions)
      && s.hashtags == old(s.hashtags) && s.links == old(s.links)
  {
    if UserByLogin(s.users, AdminLogin).None? {
      AddUser(s, AdminLogin, hashOf(AdminPassword(env)), true);
      UserByLoginAppend(old(s.users), User(NextUserId(old(s.users)), AdminLogin, hashOf(AdminPassword(env)), true));
    }
  }
}
