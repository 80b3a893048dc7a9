/**
 * The e-mail shape the login endpoint accepts: the anchored regular
 * expression `^[^\s@]+@[^\s@]+\.[^\s@]+$`, as a reference predicate and as a
 * single left-to-right matcher proved equal to it.
 */
module Email {
  import opened Wrappers
  import opened Text

  /** A character of the class `[^\s@]`. */
  predicate PartChar(c: char) {
    !IsWhitespace(c) && c != '@'
  }

  // The pattern, read literally. These definitions are the reference the
  // matcher below is proved against.

  ghost predicate AllPartChars(s: string) {
    forall i :: 0 <= i < |s| ==> PartChar(s[i])
  }

  /** A run matched by `[^\s@]+`. */
  ghost predicate Part(s: string) {
    |s| > 0 && AllPartChars(s)
  }

  /** The address assembled from its local part, domain and tail. */
  function Join(l: string, d: string, t: string): (s: string) {
    l + ['@'] + d + ['.'] + t
  }

  /** `^[^\s@]+@[^\s@]+\.[^\s@]+$`: local part, '@', domain, '.', tail. */
  ghost predicate EmailPattern(s: string) {
    exists l, d, t :: Part(l) && Part(d) && Part(t) && s == Join(l, d, t)
  }

  /** Some '.' of `r` has at least one character before it and one after it. */
  ghost predicate HasInnerDot(r: string) {
    exists j :: 1 <= j < |r| - 1 && r[j] == '.'
  }

  /** The text after the '@' as the pattern sees it: `[^\s@]+\.[^\s@]+`. */
  ghost predicate SplitAfterAt(r: string) {
    AllPartChars(r) && HasInnerDot(r)
  }

  // The matcher: one left-to-right pass per piece.

  /** The first position of `c` in `s`, if any. */
  function IndexOf(s: string, c: char): (r: Option<nat>)
    ensures r.Some? ==> r.value < |s| && s[r.value] == c
  {
    if s == [] then None
    else if s[0] == c then Some(0)
    else match IndexOf(s[1..], c)
      case None => None
      case Some(i) => Some(i + 1)
  }

  /** Every character of `s` is in `[^\s@]`. */
  function IsRun(s: string): (b: bool) {
    s == [] || (PartChar(s[0]) && IsRun(s[1..]))
  }

  /** `s` is a run of `[^\s@]` with a '.' somewhere before its last character. */
  function DotThenMore(s: string): (b: bool) {
    |s| >= 2 && PartChar(s[0]) && (if s[0] == '.' then IsRun(s[1..]) else DotThenMore(s[1..]))
  }

  /** The matcher: the first '@' splits `s`; before it there must be a
      non-empty run of `[^\s@]`; after it one character of that class, then a
      run of the class holding a '.' before its last character. */
  function MatchesEmail(s: string): (b: bool) {
    match IndexOf(s, '@')
    case None => false
    case Some(i) =>
      var r := s[i + 1..];
      0 < i && IsRun(s[..i]) && |r| >= 1 && PartChar(r[0]) && DotThenMore(r[1..])
  }

  /** `IndexOf` finds the first occurrence, and finds nothing only when there is none. */
  lemma {:induction false} IndexOfMeaning(s: string, c: char)
    ensures var r := IndexOf(s, c);
            && (r.Some? ==> r.value < |s| && s[r.value] == c
                            && forall k :: 0 <= k < r.value ==> s[k] != c)
            && (r.None? ==> forall k :: 0 <= k < |s| ==> s[k] != c)
  {
    if s != [] && s[0] != c {
      IndexOfMeaning(s[1..], c);
      assert forall k :: 1 <= k < |s| ==> s[k] == s[1..][k - 1];
    }
  }

  lemma {:induction false} IsRunMeaning(s: string)
    ensures IsRun(s) <==> AllPartChars(s)
  {
    if s != [] {
      IsRunMeaning(s[1..]);
      assert forall k :: 1 <= k < |s| ==> s[k] == s[1..][k - 1];
    }
  }

  lemma {:induction false} DotThenMoreMeaning(s: string)
    ensures DotThenMore(s) <==>
              AllPartChars(s) && exists j :: 0 <= j < |s| - 1 && s[j] == '.'
  {
    if |s| >= 2 {
      var t := s[1..];
      assert forall k :: 1 <= k < |s| ==> s[k] == t[k - 1];
      if s[0] == '.' {
        IsRunMeaning(t);
        assert s[0] == '.';
      } else {
        DotThenMoreMeaning(t);
        if exists j :: 0 <= j < |s| - 1 && s[j] == '.' {
          var j :| 0 <= j < |s| - 1 && s[j] == '.';
          assert t[j - 1] == '.';
        }
        if exists j :: 0 <= j < |t| - 1 && t[j] == '.' {
          var j :| 0 <= j < |t| - 1 && t[j] == '.';
          assert s[j + 1] == '.';
        }
      }
    }
  }

  /** The matcher's test of the text after the '@' is the pattern's. */
  lemma AfterAtMeaning(r: string)
    ensures (|r| >= 1 && PartChar(r[0]) && DotThenMore(r[1..])) <==> SplitAfterAt(r)
  {
    if |r| >= 1 {
      var t := r[1..];
      DotThenMoreMeaning(t);
      assert forall k :: 1 <= k < |r| ==> r[k] == t[k - 1];
      if exists j :: 0 <= j < |t| - 1 && t[j] == '.' {
        var j :| 0 <= j < |t| - 1 && t[j] == '.';
        assert r[j + 1] == '.';
      }
      if HasInnerDot(r) {
        var j :| 1 <= j < |r| - 1 && r[j] == '.';
        assert t[j - 1] == '.';
      }
    }
  }

  /** The matcher in terms of the reference definitions. */
  lemma MatchesEmailMeaning(s: string)
    ensures MatchesEmail(s) <==>
              var at := IndexOf(s, '@');
              at.Some? && Part(s[..at.value]) && SplitAfterAt(s[at.value + 1..])
  {
    IndexOfMeaning(s, '@');
    var at := IndexOf(s, '@');
    if at.Some? {
      IsRunMeaning(s[..at.value]);
      AfterAtMeaning(s[at.value + 1..]);
    }
  }

  /** The matcher accepts exactly the strings of the pattern. */
  lemma MatchesEmailCorrect(s: string)
    ensures MatchesEmail(s) <==> EmailPattern(s)
  {
    MatchesEmailMeaning(s);
    PatternImpliesMatch(s);
    if MatchesEmail(s) {
      IndexOfMeaning(s, '@');
      MatchImpliesPattern(s, IndexOf(s, '@').value);
    }
  }

  /** A position holding `c` with no `c` before it is what `IndexOf` finds. */
  lemma IndexOfFirst(s: string, c: char, i: nat)
    requires i < |s| && s[i] == c
    requires forall k :: 0 <= k < i ==> s[k] != c
    ensures IndexOf(s, c) == Some(i)
  {
    IndexOfMeaning(s, c);
    var r := IndexOf(s, c);
    assert r.Some?;
    assert !(r.value < i);
  }

  lemma MatchImpliesPattern(s: string, i: nat)
    requires i < |s| && s[i] == '@' && Part(s[..i]) && SplitAfterAt(s[i + 1..])
    ensures EmailPattern(s)
  {
    var r := s[i + 1..];
    var j :| 1 <= j < |r| - 1 && r[j] == '.';
    var l, d, t := s[..i], r[..j], r[j + 1..];
    assert AllPartChars(d) by {
      forall k | 0 <= k < |d| ensures PartChar(d[k]) { assert d[k] == r[k]; }
    }
    assert AllPartChars(t) by {
      forall k | 0 <= k < |t| ensures PartChar(t[k]) { assert t[k] == r[j + 1 + k]; }
    }
    assert r == d + ['.'] + t;
    assert s == l + ['@'] + r;
    assert s == Join(l, d, t);
    assert Part(l) && Part(d) && Part(t);
  }

  lemma PatternImpliesMatch(s: string)
    ensures EmailPattern(s) ==>
              var at := IndexOf(s, '@');
              at.Some? && Part(s[..at.value]) && SplitAfterAt(s[at.value + 1..])
  {
    if EmailPattern(s) {
      var l, d, t :| Part(l) && Part(d) && Part(t) && s == Join(l, d, t);
      JoinParts(l, d, t);
    }
  }

  /** How a joined address splits back into its parts. */
  lemma JoinParts(l: string, d: string, t: string)
    requires Part(l) && Part(d) && Part(t)
    ensures var s, i := Join(l, d, t), |l|;
            && IndexOf(s, '@') == Some(i)
            && s[..i] == l
            && SplitAfterAt(s[i + 1..])
  {
    var s, i := Join(l, d, t), |l|;
    var r := d + ['.'] + t;
    assert s == l + ['@'] + r;
    assert s[..i] == l && s[i] == '@' && s[i + 1..] == r;
    forall k | 0 <= k < i ensures s[k] != '@' { assert s[k] == l[k]; }
    IndexOfFirst(s, '@', i);
    assert AllPartChars(r) by {
      forall k | 0 <= k < |r| ensures PartChar(r[k]) {
        if k < |d| { assert r[k] == d[k]; }
        else if k > |d| { assert r[k] == t[k - |d| - 1]; }
      }
    }
    assert r[|d|] == '.';
  }

  /** Lower-casing keeps every character in or out of `[^\s@]`, and keeps
      '@' and '.' where they were. */
  lemma LowerCharsPointwise(x: string)
    ensures forall k :: 0 <= k < |x| ==>
              && (PartChar(Lower(x)[k]) <==> PartChar(x[k]))
              && (Lower(x)[k] == '@' <==> x[k] == '@')
              && (Lower(x)[k] == '.' <==> x[k] == '.')
  {
    LowerMeaning(x);
    forall k | 0 <= k < |x|
      ensures PartChar(Lower(x)[k]) <==> PartChar(x[k])
      ensures Lower(x)[k] == '@' <==> x[k] == '@'
      ensures Lower(x)[k] == '.' <==> x[k] == '.'
    {
      LowerCharClass(x[k]);
    }
  }

  lemma LowerPartChars(x: string)
    ensures AllPartChars(Lower(x)) <==> AllPartChars(x)
    ensures HasInnerDot(Lower(x)) <==> HasInnerDot(x)
  {
    LowerCharsPointwise(x);
    if HasInnerDot(x) {
      var j :| 1 <= j < |x| - 1 && x[j] == '.';
      assert Lower(x)[j] == '.';
    }
    if HasInnerDot(Lower(x)) {
      var j :| 1 <= j < |x| - 1 && Lower(x)[j] == '.';
      assert x[j] == '.';
    }
  }

  lemma LowerIndexOf(x: string)
    ensures IndexOf(Lower(x), '@') == IndexOf(x, '@')
  {
    LowerCharsPointwise(x);
    IndexOfMeaning(x, '@');
    IndexOfMeaning(Lower(x), '@');
    var a, b := IndexOf(Lower(x), '@'), IndexOf(x, '@');
    if a.Some? && b.Some? {
      assert !(a.value < b.value) && !(b.value < a.value);
    }
  }

  /** Lower-casing commutes with taking a slice. */
  lemma LowerPrefix(s: string, i: nat)
    requires i <= |s|
    ensures Lower(s)[..i] == Lower(s[..i])
  {
    LowerMeaning(s[..i]);
    assert s == s[..i] + s[i..];
    LowerAppend(s[..i], s[i..]);
  }

  lemma LowerSuffix(s: string, i: nat)
    requires i <= |s|
    ensures Lower(s)[i..] == Lower(s[i..])
  {
    LowerMeaning(s[..i]);
    assert s == s[..i] + s[i..];
    LowerAppend(s[..i], s[i..]);
  }

  /** Lower-casing maps each of the three parts to a run of the same class,
      so an address matches after normalisation exactly when it matched before. */
  lemma LowerKeepsPattern(s: string)
    ensures EmailPattern(Lower(s)) <==> EmailPattern(s)
  {
    LowerIndexOf(s);
    var at := IndexOf(s, '@');
    MatchesEmailCorrect(s);
    MatchesEmailCorrect(Lower(s));
    MatchesEmailMeaning(s);
    MatchesEmailMeaning(Lower(s));
    IndexOfMeaning(s, '@');
    if at.Some? {
      var i := at.value;
      LowerPrefix(s, i);
      LowerSuffix(s, i + 1);
      LowerPartChars(s[..i]);
      LowerPartChars(s[i + 1..]);
      assert Part(Lower(s)[..i]) == Part(s[..i]);
      assert SplitAfterAt(Lower(s)[i + 1..]) == SplitAfterAt(s[i + 1..]);
    }
  }

  /** No address that matches contains whitespace, so the pattern ignores nothing `trim` removes. */
  lemma MatchHasNoWhitespace(s: string)
    requires EmailPattern(s)
    ensures forall k :: 0 <= k < |s| ==> !IsWhitespace(s[k])
    ensures NoOuterWhitespace(s)
  {
    var l, d, t :| Part(l) && Part(d) && Part(t) && s == Join(l, d, t);
    forall k | 0 <= k < |s| ensures !IsWhitespace(s[k]) {
      if k < |l| { assert s[k] == l[k]; }
      else if k == |l| { }
      else if k < |l| + 1 + |d| { assert s[k] == d[k - |l| - 1]; }
      else if k == |l| + 1 + |d| { }
      else { assert s[k] == t[k - |l| - |d| - 2]; }
    }
  }

  /** A sample address matches; the domain may itself contain dots. */
  lemma AcceptsSample()
    ensures MatchesEmail("a.b@c.d.e")
  {
    assert Part("a.b") && Part("c.d") && Part("e");
    assert "a.b@c.d.e" == Join("a.b", "c.d", "e");
    MatchesEmailCorrect("a.b@c.d.e");
  }

  /** Without a '.' after the domain there is no match. */
  lemma RejectsMissingDot()
    ensures !MatchesEmail("a@bc")
  {
    assert IndexOf("a@bc", '@') == Some(1) by {
      IndexOfFirst("a@bc", '@', 1);
    }
    var r := "bc";
    assert "a@bc"[2..] == r;
    AfterAtMeaning(r);
    MatchesEmailMeaning("a@bc");
  }

  /** The '.' before the tail may not directly follow the '@'. */
  lemma RejectsDotAfterAt()
    ensures !MatchesEmail("a@.bc")
  {
    assert IndexOf("a@.bc", '@') == Some(1) by {
      IndexOfFirst("a@.bc", '@', 1);
    }
    var r := ".bc";
    assert "a@.bc"[2..] == r;
    AfterAtMeaning(r);
    MatchesEmailMeaning("a@.bc");
    assert r[1] != '.';
  }

  /** A second '@' is not allowed anywhere. */
  lemma RejectsSecondAt()
    ensures !MatchesEmail("a@b@c.d")
  {
    assert IndexOf("a@b@c.d", '@') == Some(1) by {
      IndexOfFirst("a@b@c.d", '@', 1);
    }
    var r := "b@c.d";
    assert "a@b@c.d"[2..] == r;
    MatchesEmailMeaning("a@b@c.d");
    assert r[1] == '@';
  }
}
