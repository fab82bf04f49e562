/** `parse_hashtags`: every `#` followed by a maximal run of word characters
    (the regular expression `#\w+` searched left to right), the run without
    its `#`, duplicates removed. Python builds the result through a `set`, so
    its order is arbitrary; the model keeps first occurrences in text order,
    and only the set of names is promised. */
module Hashtags {
  import opened Common
  import opened Text

  /** The maximal word-character run starting at position `k`. */
  function WordAt(s: string, k: nat): (r: string)
    requires k <= |s|
  {
    s[k..k + RunLen(s[k..])]
  }

  /** A `#` stands at position `i` and a word character follows it. */
  ghost predicate TagStart(s: string, i: int) {
    0 <= i < |s| - 1 && s[i] == '#' && IsWordChar(s[i + 1])
  }

  /** The runs `re.findall(r"#\w+", s)` matches, without their `#`, in order. */
  function TagMatches(s: string): (r: seq<string>)
    decreases |s|
  {
    if |s| < 2 then []
    else if s[0] == '#' && IsWordChar(s[1]) then
      var n := RunLen(s[1..]);
      [s[1..1 + n]] + TagMatches(s[1 + n..])
    else TagMatches(s[1..])
  }

  /** Every match is the run after some `#`. */
  lemma {:induction false} MatchHasStart(s: string, x: string)
    requires x in TagMatches(s)
    ensures exists i :: TagStart(s, i) && x == WordAt(s, i + 1)
    decreases |s|
  {
    if |s| < 2 {
    } else if s[0] == '#' && IsWordChar(s[1]) {
      var n := RunLen(s[1..]);
      var rest := s[1 + n..];
      assert TagMatches(s) == [s[1..1 + n]] + TagMatches(rest);
      if x == s[1..1 + n] {
        assert TagStart(s, 0) && x == WordAt(s, 1);
      } else {
        MatchHasStart(rest, x);
        var i' :| TagStart(rest, i') && x == WordAt(rest, i' + 1);
        ShiftedTagStart(s, 1 + n, i', i' + 1 + n);
      }
    } else {
      MatchHasStart(s[1..], x);
      var i' :| TagStart(s[1..], i') && x == WordAt(s[1..], i' + 1);
      ShiftedTagStart(s, 1, i', i' + 1);
    }
  }

  /** The run after every `#` is matched: a match never swallows a `#`. */
  lemma {:induction false} StartHasMatch(s: string, i: nat)
    requires TagStart(s, i)
    ensures WordAt(s, i + 1) in TagMatches(s)
    decreases |s|, 1
  {
    if s[0] == '#' && IsWordChar(s[1]) {
      StartHasMatchAfterTag(s, i);
    } else {
      assert i > 0;
      assert TagMatches(s) == TagMatches(s[1..]);
      ShiftedTagStart(s, 1, i - 1, i);
      StartHasMatch(s[1..], i - 1);
    }
  }

  /** The same, when the text itself starts with a tag. */
  lemma {:induction false} StartHasMatchAfterTag(s: string, i: nat)
    requires TagStart(s, i) && TagStart(s, 0)
    ensures WordAt(s, i + 1) in TagMatches(s)
    decreases |s|, 0
  {
    var n := RunLen(s[1..]);
    var rest := s[1 + n..];
    TagMatchesAtTag(s);
    if i == 0 {
      assert WordAt(s, 1) == s[1..1 + n];
    } else {
      TagAfterRun(s, n, i);
      ShiftedTagStart(s, 1 + n, i - 1 - n, i);
      StartHasMatch(rest, i - 1 - n);
    }
  }

  /** A text that starts with a tag matches its run first, then the rest. */
  lemma TagMatchesAtTag(s: string)
    requires TagStart(s, 0)
    ensures TagMatches(s) == [s[1..1 + RunLen(s[1..])]] + TagMatches(s[1 + RunLen(s[1..])..])
  {
  }

  /** A later tag starts after the word run of the first one, since a `#` is
      not a word character. */
  lemma TagAfterRun(s: string, n: nat, i: nat)
    requires 1 <= |s| && n == RunLen(s[1..])
    requires TagStart(s, i) && i != 0
    ensures i > n
  {
    forall k | 1 <= k <= n ensures s[k] != '#' {
      assert s[k] == s[1..][k - 1];
    }
  }

  /** The matches are exactly the runs after a `#`. */
  lemma TagMatchesExactly(s: string, x: string)
    ensures x in TagMatches(s) <==> exists i :: TagStart(s, i) && x == WordAt(s, i + 1)
  {
    if x in TagMatches(s) {
      MatchHasStart(s, x);
    }
    if exists i :: TagStart(s, i) && x == WordAt(s, i + 1) {
      var i :| TagStart(s, i) && x == WordAt(s, i + 1);
      StartHasMatch(s, i);
    }
  }

  /** A tag start at `i` in the suffix from `d` is a tag start at `j = i + d`
      of the whole text, with the same run. */
  lemma ShiftedTagStart(s: string, d: nat, i: nat, j: nat)
    requires d <= |s| && j == i + d
    ensures TagStart(s[d..], i) <==> TagStart(s, j)
    ensures i < |s| - d - 1 ==> WordAt(s[d..], i + 1) == WordAt(s, j + 1)
  {
    if i < |s| - d - 1 {
      assert s[d..][i + 1..] == s[j + 1..];
    }
  }

  /** First occurrences of the elements of `xs`, in order. */
  function Dedup(xs: seq<string>): (r: seq<string>)
    ensures NoDup(r)
    ensures forall x :: x in r <==> x in xs
  {
    if xs == [] then []
    else
      var d := Dedup(xs[..|xs| - 1]);
      var last := xs[|xs| - 1];
      assert xs == xs[..|xs| - 1] + [last];
      if last in d then d else d + [last]
  }

  function ParseHashtags(text: string): (names: seq<string>) {
    Dedup(TagMatches(text))
  }

  /** The names are word-character runs without duplicates, and a name is
      returned exactly when it is the whole run after some `#`. */
  lemma ParseHashtagsSpec(text: string)
    ensures NoDup(ParseHashtags(text))
    ensures forall x :: x in ParseHashtags(text) ==> |x| > 0 && forall i :: 0 <= i < |x| ==> IsWordChar(x[i])
    ensures forall x :: x in ParseHashtags(text) <==> exists i :: TagStart(text, i) && x == WordAt(text, i + 1)
  {
    forall x ensures x in ParseHashtags(text) <==> exists i :: TagStart(text, i) && x == WordAt(text, i + 1) {
      TagMatchesExactly(text, x);
    }
    forall x | x in ParseHashtags(text) ensures |x| > 0 && forall i :: 0 <= i < |x| ==> IsWordChar(x[i]) {
      var i :| TagStart(text, i) && x == WordAt(text, i + 1);
      assert text[i + 1..][0] == text[i + 1];
    }
  }

  /** Text in which no `#` is followed by a word character has no hashtags. */
  lemma {:induction false} NoTagNoHashtags(text: string)
    requires forall i :: !TagStart(text, i)
    ensures ParseHashtags(text) == []
    decreases |text|
  {
    if |text| >= 2 {
      assert !TagStart(text, 0);
      forall i: nat ensures !TagStart(text[1..], i) {
        ShiftedTagStart(text, 1, i, i + 1);
      }
      NoTagNoHashtags(text[1..]);
    }
  }
}
