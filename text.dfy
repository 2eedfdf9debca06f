/**
 * The few Python `str` built-ins the deployment script relies on, written out:
 * `str.strip()` (with Python's own set of whitespace characters),
 * `str.split(sep)` for a one-character separator, `str.upper()` restricted to
 * ASCII letters, and the code-point ordering `sorted` uses on strings.
 */
module Text {

  /** The characters for which Python's `str.isspace` holds; `str.strip()`
    * with no argument removes exactly these from both ends. */
  predicate IsSpace(c: char) {
    || ('\t' <= c <= '\r')            // HT, LF, VT, FF, CR
    || ('\U{1C}' <= c <= ' ')         // the four information separators and SPACE
    || c == '\U{85}' || c == '\U{A0}' || c == '\U{1680}'
    || ('\U{2000}' <= c <= '\U{200A}')
    || c == '\U{2028}' || c == '\U{2029}' || c == '\U{202F}' || c == '\U{205F}'
    || c == '\U{3000}'
  }

  /** The same 29 characters, listed one by one. */
  const PythonWhitespace: seq<char> :=
    [ '\t', '\n', '\U{0B}', '\U{0C}', '\r', '\U{1C}', '\U{1D}', '\U{1E}', '\U{1F}', ' ',
      '\U{85}', '\U{A0}', '\U{1680}',
      '\U{2000}', '\U{2001}', '\U{2002}', '\U{2003}', '\U{2004}', '\U{2005}',
      '\U{2006}', '\U{2007}', '\U{2008}', '\U{2009}', '\U{200A}',
      '\U{2028}', '\U{2029}', '\U{202F}', '\U{205F}', '\U{3000}' ]

  /** The ranges of `IsSpace` hold exactly the listed characters. */
  lemma IsSpaceIsPythonWhitespace(c: char)
    ensures IsSpace(c) <==> c in PythonWhitespace
  {
  }

  predicate AllSpace(s: string) {
    forall i :: 0 <= i < |s| ==> IsSpace(s[i])
  }

  /** No whitespace at either end. */
  predicate Trimmed(s: string) {
    s == [] || (!IsSpace(s[0]) && !IsSpace(s[|s| - 1]))
  }

  /** `s` is `r` with `i` whitespace characters before it and only
    * whitespace after it. */
  predicate PadsAt(s: string, r: string, i: nat) {
    i <= |s| - |r| && s[i..i + |r|] == r && AllSpace(s[..i]) && AllSpace(s[i + |r|..])
  }

  /** `s` is `r` with some whitespace before and after it. */
  ghost predicate Pads(s: string, r: string) {
    exists i: nat :: PadsAt(s, r, i)
  }

  /** `str.strip()`: drop whitespace from the front, then from the back,
    * until both ends are non-whitespace. */
  function Strip(s: string): (r: string)
    ensures Trimmed(r)
    ensures r == [] <==> AllSpace(s)
    decreases |s|
  {
    if s == [] then s
    else if IsSpace(s[0]) then
      var r := Strip(s[1..]);
      assert AllSpace(s[1..]) ==> AllSpace(s) by {
        assert forall i :: 1 <= i < |s| ==> s[i] == s[1..][i - 1];
      }
      r
    else if IsSpace(s[|s| - 1]) then
      Strip(s[..|s| - 1])
    else s
  }

  /** How many leading characters `Strip` drops. */
  function StripOffset(s: string): nat
    decreases |s|
  {
    if s == [] then 0
    else if IsSpace(s[0]) then 1 + StripOffset(s[1..])
    else if IsSpace(s[|s| - 1]) then StripOffset(s[..|s| - 1])
    else 0
  }

  lemma PadsFront(c: char, u: string, r: string, i: nat)
    requires IsSpace(c) && PadsAt(u, r, i)
    ensures PadsAt([c] + u, r, i + 1)
  {
    var s, j := [c] + u, i + 1;
    assert s[j..j + |r|] == u[i..i + |r|];
    assert s[j + |r|..] == u[i + |r|..];
    forall k | 0 <= k < j ensures IsSpace(s[..j][k]) {
      if k > 0 { assert s[..j][k] == u[..i][k - 1]; }
    }
  }

  lemma PadsBack(u: string, c: char, r: string, i: nat)
    requires IsSpace(c) && PadsAt(u, r, i)
    ensures PadsAt(u + [c], r, i)
  {
    var s := u + [c];
    assert s[i..i + |r|] == r;
    assert s[..i] == u[..i];
    assert s[i + |r|..] == u[i + |r|..] + [c];
  }

  lemma {:induction false} StripPadsAt(s: string)
    ensures PadsAt(s, Strip(s), StripOffset(s))
    decreases |s|
  {
    if s == [] || (!IsSpace(s[0]) && !IsSpace(s[|s| - 1])) {
      assert s[0..0 + |s|] == s && s[..0] == [] && s[0 + |s|..] == [];
    } else if IsSpace(s[0]) {
      var u := s[1..];
      StripPadsAt(u);
      assert s == [s[0]] + u;
      PadsFront(s[0], u, Strip(u), StripOffset(u));
    } else {
      var u := s[..|s| - 1];
      StripPadsAt(u);
      assert s == u + [s[|s| - 1]];
      PadsBack(u, s[|s| - 1], Strip(u), StripOffset(u));
    }
  }

  /** What `Strip` keeps is a piece of its input with only whitespace around
    * it. */
  lemma StripPads(s: string)
    ensures Pads(s, Strip(s))
  {
    StripPadsAt(s);
  }

  /** In particular `Strip` adds no character. */
  lemma StripAddsNothing(s: string)
    ensures forall c :: c in Strip(s) ==> c in s
  {
    StripPadsAt(s);
    var r, i := Strip(s), StripOffset(s);
    forall c | c in r ensures c in s {
      var k :| 0 <= k < |r| && r[k] == c;
      assert s[i + k] == c;
    }
  }

  lemma {:induction false} StripOfPadded(p: string, t: string, q: string)
    requires AllSpace(p) && AllSpace(q)
    requires t != [] && Trimmed(t)
    ensures Strip(p + t + q) == t
    decreases |p| + |q|
  {
    var s := p + t + q;
    if p != [] {
      assert s[0] == p[0] && s[1..] == p[1..] + t + q;
      assert Strip(s) == Strip(s[1..]);
      StripOfPadded(p[1..], t, q);
    } else if q != [] {
      assert s == t + q;
      assert s[0] == t[0] && s[|s| - 1] == q[|q| - 1];
      assert s[..|s| - 1] == p + t + q[..|q| - 1];
      assert Strip(s) == Strip(s[..|s| - 1]);
      StripOfPadded(p, t, q[..|q| - 1]);
    } else {
      assert s == t;
    }
  }

  /** Strip is determined by its contract: whenever `s` is a non-empty trimmed
    * `t` padded with whitespace, `Strip(s)` is `t`. */
  lemma StripUnique(s: string, t: string)
    requires t != [] && Trimmed(t) && Pads(s, t)
    ensures Strip(s) == t
  {
    var i: nat :| PadsAt(s, t, i);
    assert s == s[..i] + t + s[i + |t|..];
    StripOfPadded(s[..i], t, s[i + |t|..]);
  }

  /** A trimmed string is its own strip; in particular `Strip` is idempotent. */
  lemma StripOfTrimmed(t: string)
    requires Trimmed(t)
    ensures Strip(t) == t
  {
    if t != [] {
      assert t[0..0 + |t|] == t && t[..0] == [] && t[0 + |t|..] == [];
      assert PadsAt(t, t, 0);
      StripUnique(t, t);
    }
  }

  /** Python's `s.split(sep)`: never empty, one more fragment than there are
    * separators, fragments free of `sep`. */
  function Split(s: string, sep: char): (parts: seq<string>)
    ensures |parts| >= 1
    ensures forall i :: 0 <= i < |parts| ==> sep !in parts[i]
    decreases |s|
  {
    if s == [] then [[]]
    else
      var rest := Split(s[1..], sep);
      if s[0] == sep then [[]] + rest
      else [[s[0]] + rest[0]] + rest[1..]
  }

  /** `sep.join(parts)` */
  function Join(parts: seq<string>, sep: char): string
    requires |parts| >= 1
    decreases |parts|
  {
    if |parts| == 1 then parts[0] else parts[0] + [sep] + Join(parts[1..], sep)
  }

  /** Joining the fragments gives back the text: nothing is lost or reordered. */
  lemma {:induction false} JoinSplit(s: string, sep: char)
    ensures Join(Split(s, sep), sep) == s
    decreases |s|
  {
    if s != [] {
      var rest := Split(s[1..], sep);
      JoinSplit(s[1..], sep);
      if s[0] == sep {
        assert ([[]] + rest)[1..] == rest;
      } else {
        var parts := [[s[0]] + rest[0]] + rest[1..];
        if |rest| == 1 {
          assert parts == [[s[0]] + rest[0]];
        } else {
          assert parts[1..] == rest[1..];
          assert Join(rest, sep) == rest[0] + [sep] + Join(rest[1..], sep);
        }
      }
    }
  }

  /** Splitting a text whose start `p` has no separator puts `p` in front of
    * the first fragment. */
  lemma {:induction false} SplitFreePrefix(p: string, t: string, sep: char)
    requires sep !in p
    ensures Split(p + t, sep) == [p + Split(t, sep)[0]] + Split(t, sep)[1..]
    decreases |p|
  {
    if p == [] {
      var parts := Split(t, sep);
      assert p + t == t && p + parts[0] == parts[0];
      assert [parts[0]] + parts[1..] == parts;
    } else {
      assert (p + t)[1..] == p[1..] + t;
      SplitFreePrefix(p[1..], t, sep);
      assert [p[0]] + (p[1..] + Split(t, sep)[0]) == p + Split(t, sep)[0];
    }
  }

  /** The converse of JoinSplit: separator-free fragments come back unchanged,
    * so `Split` and `Join` are inverse bijections. */
  lemma {:induction false} SplitJoin(parts: seq<string>, sep: char)
    requires |parts| >= 1
    requires forall i :: 0 <= i < |parts| ==> sep !in parts[i]
    ensures Split(Join(parts, sep), sep) == parts
    decreases |parts|
  {
    if |parts| == 1 {
      SplitFreePrefix(parts[0], [], sep);
      assert parts[0] + [] == parts[0];
    } else {
      var t := [sep] + Join(parts[1..], sep);
      SplitJoin(parts[1..], sep);
      assert parts[0] + [sep] + Join(parts[1..], sep) == parts[0] + t;
      SplitFreePrefix(parts[0], t, sep);
      assert t[1..] == Join(parts[1..], sep);
      assert parts[0] + [] == parts[0];
    }
  }

  /** Splitting distributes over a separator: `split` of `a;b` is the
    * fragments of `a` followed by those of `b`. */
  lemma {:induction false} SplitAppend(a: string, b: string, sep: char)
    ensures Split(a + [sep] + b, sep) == Split(a, sep) + Split(b, sep)
    decreases |a|
  {
    if a == [] {
      assert a + [sep] + b == [sep] + b;
      assert ([sep] + b)[1..] == b;
    } else {
      assert (a + [sep] + b)[1..] == a[1..] + [sep] + b;
      SplitAppend(a[1..], b, sep);
    }
  }

  /** ASCII `str.upper()` on one character. */
  function UpperChar(c: char): char {
    if 'a' <= c <= 'z' then (c as int - 32) as char else c
  }

  predicate IsLowerLetter(c: char) {
    'a' <= c <= 'z'
  }

  /** `s.upper()`: each ASCII lower-case letter becomes its capital, 32 code
    * points lower; every other character is kept. */
  function Upper(s: string): (r: string)
    ensures |r| == |s|
    ensures forall i :: 0 <= i < |s| ==>
              if IsLowerLetter(s[i]) then r[i] as int == s[i] as int - 32 else r[i] == s[i]
  {
    seq(|s|, i requires 0 <= i < |s| => UpperChar(s[i]))
  }

  /** Two characters that are equal once ASCII case is ignored. */
  predicate SameLetter(x: char, y: char) {
    || x == y
    || (IsLowerLetter(x) && y as int == x as int - 32)
    || (IsLowerLetter(y) && x as int == y as int - 32)
  }

  predicate EqualIgnoringCase(a: string, b: string) {
    |a| == |b| && forall i :: 0 <= i < |a| ==> SameLetter(a[i], b[i])
  }

  /** Upper-casing leaves no lower-case ASCII letter and keeps the length. */
  lemma UpperHasNoLower(s: string)
    ensures |Upper(s)| == |s|
    ensures forall i :: 0 <= i < |s| ==> !IsLowerLetter(Upper(s)[i])
  {
  }

  /** Two names select the same upper-cased key exactly when they differ only
    * in the case of ASCII letters. */
  lemma UpperEqualIff(a: string, b: string)
    ensures Upper(a) == Upper(b) <==> EqualIgnoringCase(a, b)
  {
    if Upper(a) == Upper(b) {
      forall i | 0 <= i < |a| ensures SameLetter(a[i], b[i]) {
        assert Upper(a)[i] == Upper(b)[i];
      }
    }
    if EqualIgnoringCase(a, b) {
      forall i | 0 <= i < |a| ensures Upper(a)[i] == Upper(b)[i] {
        assert SameLetter(a[i], b[i]);
      }
    }
  }

  /** `a <= b` on Python strings: code point by code point, a proper prefix
    * first. */
  predicate LexLe(a: string, b: string)
    decreases |a|
  {
    a == [] || (b != [] && (a[0] < b[0] || (a[0] == b[0] && LexLe(a[1..], b[1..]))))
  }

  lemma {:induction false} LexLeReflexive(a: string)
    ensures LexLe(a, a)
    decreases |a|
  {
    if a != [] {
      LexLeReflexive(a[1..]);
    }
  }

  lemma {:induction false} LexLeTotal(a: string, b: string)
    ensures LexLe(a, b) || LexLe(b, a)
    decreases |a|
  {
    if a != [] && b != [] && a[0] == b[0] {
      LexLeTotal(a[1..], b[1..]);
    }
  }

  lemma {:induction false} LexLeAntisymmetric(a: string, b: string)
    requires LexLe(a, b) && LexLe(b, a)
    ensures a == b
    decreases |a|
  {
    if a != [] {
      LexLeAntisymmetric(a[1..], b[1..]);
      assert a == [a[0]] + a[1..] && b == [b[0]] + b[1..];
    }
  }

  lemma {:induction false} LexLeTransitive(a: string, b: string, c: string)
    requires LexLe(a, b) && LexLe(b, c)
    ensures LexLe(a, c)
    decreases |a|
  {
    if a != [] && a[0] == b[0] && b[0] == c[0] {
      LexLeTransitive(a[1..], b[1..], c[1..]);
    }
  }

  /** Length of the longest common prefix of `a` and `b`. */
  function CommonPrefix(a: string, b: string): (k: nat)
    ensures k <= |a| && k <= |b| && a[..k] == b[..k]
    ensures k < |a| && k < |b| ==> a[k] != b[k]
    decreases |a|
  {
    if a != [] && b != [] && a[0] == b[0] then 1 + CommonPrefix(a[1..], b[1..]) else 0
  }

  /** `LexLe` is Python's rule: compare at the first position where the two
    * strings differ; if there is none, the shorter one (a prefix) comes first. */
  lemma {:induction false} LexLeIff(a: string, b: string)
    ensures var k := CommonPrefix(a, b);
            LexLe(a, b) <==> k == |a| || (k < |b| && a[k] < b[k])
    decreases |a|
  {
    if a != [] && b != [] && a[0] == b[0] {
      LexLeIff(a[1..], b[1..]);
    }
  }
}
