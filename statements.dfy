/**
 * From rendered SQL to the statements sent to the warehouse, and the
 * preview line logged before each one (`execute_sql`, lines 39 and 45).
 */
module Sql {
  import opened Text

  const Separator: char := ';'
  const PreviewLimit: nat := 100
  const Ellipsis: string := "..."

  /** `[s.strip() for s in fragments]` */
  function StripAll(fragments: seq<string>): (stripped: seq<string>)
    ensures |stripped| == |fragments|
    ensures forall i :: 0 <= i < |fragments| ==> Trimmed(stripped[i])
  {
    seq(|fragments|, i requires 0 <= i < |fragments| => Strip(fragments[i]))
  }

  /** `[s for s in xs if s]` */
  function DropEmpty(xs: seq<string>): (kept: seq<string>)
    ensures |kept| <= |xs|
    ensures forall i :: 0 <= i < |kept| ==> kept[i] != [] && kept[i] in xs
  {
    if xs == [] then []
    else (if xs[0] == [] then [] else [xs[0]]) + DropEmpty(xs[1..])
  }

  /** `[s.strip() for s in fragments if s.strip()]`: the stripped fragments
    * that are not empty, in order. */
  function Clean(fragments: seq<string>): (stmts: seq<string>)
    ensures |stmts| <= |fragments|
    ensures forall i :: 0 <= i < |stmts| ==> stmts[i] != [] && Trimmed(stmts[i])
  {
    DropEmpty(StripAll(fragments))
  }

  /** The statements of a rendered SQL text: `sql.split(';')`, each fragment
    * stripped, the empty ones dropped. */
  function Statements(sql: string): (stmts: seq<string>)
    ensures forall i :: 0 <= i < |stmts| ==> stmts[i] != [] && Separator !in stmts[i] && Trimmed(stmts[i])
  {
    var stmts := Clean(Split(sql, Separator));
    CleanSeparatorFree(Split(sql, Separator));
    stmts
  }

  lemma CleanSeparatorFree(fragments: seq<string>)
    requires forall j :: 0 <= j < |fragments| ==> Separator !in fragments[j]
    ensures forall i :: 0 <= i < |Clean(fragments)| ==> Separator !in Clean(fragments)[i]
  {
    var stripped := StripAll(fragments);
    forall j | 0 <= j < |fragments| ensures Separator !in stripped[j] {
      StripAddsNothing(fragments[j]);
    }
  }

  /** Every statement equals its own strip: the comprehension's own
    * `s.strip()` leaves nothing further to trim. */
  lemma StatementsAreStripped(sql: string)
    ensures forall i :: 0 <= i < |Statements(sql)| ==> Strip(Statements(sql)[i]) == Statements(sql)[i]
  {
    forall i | 0 <= i < |Statements(sql)| ensures Strip(Statements(sql)[i]) == Statements(sql)[i] {
      StripOfTrimmed(Statements(sql)[i]);
    }
  }

  /** Nothing non-empty is dropped. */
  lemma {:induction false} DropEmptyKeepsNonEmpty(xs: seq<string>)
    ensures forall j :: 0 <= j < |xs| && xs[j] != [] ==> xs[j] in DropEmpty(xs)
  {
    if xs != [] {
      DropEmptyKeepsNonEmpty(xs[1..]);
      forall j | 1 <= j < |xs| && xs[j] != [] ensures xs[j] in DropEmpty(xs) {
        assert xs[j] == xs[1..][j - 1];
      }
    }
  }

  lemma {:induction false} DropEmptyAppend(a: seq<string>, b: seq<string>)
    ensures DropEmpty(a + b) == DropEmpty(a) + DropEmpty(b)
    decreases |a|
  {
    if a == [] {
      assert a + b == b;
    } else {
      assert (a + b)[0] == a[0] && (a + b)[1..] == a[1..] + b;
      DropEmptyAppend(a[1..], b);
    }
  }

  lemma CleanAppend(a: seq<string>, b: seq<string>)
    ensures Clean(a + b) == Clean(a) + Clean(b)
  {
    assert StripAll(a + b) == StripAll(a) + StripAll(b);
    DropEmptyAppend(StripAll(a), StripAll(b));
  }

  /** Statements of `a;b` are those of `a` followed by those of `b`: the
    * split keeps source order and treats every `;` alike. */
  lemma StatementsAppend(a: string, b: string)
    ensures Statements(a + [Separator] + b) == Statements(a) + Statements(b)
  {
    SplitAppend(a, b, Separator);
    CleanAppend(Split(a, Separator), Split(b, Separator));
  }

  lemma {:induction false} SplitWithoutSeparator(s: string)
    requires Separator !in s
    ensures Split(s, Separator) == [s]
  {
    SplitFreePrefix(s, [], Separator);
    assert s + [] == s;
  }

  /** A text without `;` is at most one statement: its strip, unless it is
    * all whitespace. */
  lemma StatementsWithoutSeparator(sql: string)
    requires Separator !in sql
    ensures Statements(sql) == if AllSpace(sql) then [] else [Strip(sql)]
    ensures |Statements(sql)| <= 1
  {
    SplitWithoutSeparator(sql);
    assert Split(sql, Separator)[1..] == [];
  }

  /** Every fragment is whitespace only. */
  predicate AllBlank(fragments: seq<string>) {
    forall j :: 0 <= j < |fragments| ==> AllSpace(fragments[j])
  }

  predicate IsSpaceOrSeparator(c: char) {
    c == Separator || IsSpace(c)
  }

  /** The text holds nothing but whitespace and `;`. */
  predicate OnlySpaceAndSeparators(s: string) {
    forall i :: 0 <= i < |s| ==> IsSpaceOrSeparator(s[i])
  }

  lemma AllBlankCons(x: string, xs: seq<string>)
    ensures AllBlank([x] + xs) <==> AllSpace(x) && AllBlank(xs)
  {
    var ys := [x] + xs;
    if AllSpace(x) && AllBlank(xs) {
      forall j | 0 <= j < |ys| ensures AllSpace(ys[j]) {
        if j > 0 { assert ys[j] == xs[j - 1]; }
      }
    }
    if AllBlank(ys) {
      forall j | 0 <= j < |xs| ensures AllSpace(xs[j]) {
        assert ys[j + 1] == xs[j];
      }
      assert ys[0] == x;
    }
  }

  lemma AllSpaceCons(c: char, t: string)
    ensures AllSpace([c] + t) <==> IsSpace(c) && AllSpace(t)
  {
    var u := [c] + t;
    if IsSpace(c) && AllSpace(t) {
      forall k | 0 <= k < |u| ensures IsSpace(u[k]) {
        if k > 0 { assert u[k] == t[k - 1]; }
      }
    }
    if AllSpace(u) {
      forall k | 0 <= k < |t| ensures IsSpace(t[k]) {
        assert u[k + 1] == t[k];
      }
      assert u[0] == c;
    }
  }

  lemma OnlySpaceAndSeparatorsCons(s: string)
    requires s != []
    ensures OnlySpaceAndSeparators(s) <==> IsSpaceOrSeparator(s[0]) && OnlySpaceAndSeparators(s[1..])
  {
    assert forall i :: 1 <= i < |s| ==> s[i] == s[1..][i - 1];
  }

  lemma {:induction false} DropEmptyEmptyIff(xs: seq<string>)
    ensures DropEmpty(xs) == [] <==> forall j :: 0 <= j < |xs| ==> xs[j] == []
  {
    if xs != [] {
      DropEmptyEmptyIff(xs[1..]);
      assert forall j :: 1 <= j < |xs| ==> xs[j] == xs[1..][j - 1];
    }
  }

  lemma CleanEmptyIff(fragments: seq<string>)
    ensures Clean(fragments) == [] <==> AllBlank(fragments)
  {
    var stripped := StripAll(fragments);
    DropEmptyEmptyIff(stripped);
    assert forall j :: 0 <= j < |fragments| ==> (stripped[j] == [] <==> AllSpace(fragments[j]));
  }

  lemma {:induction false} SplitAllBlankIff(s: string)
    ensures AllBlank(Split(s, Separator)) <==> OnlySpaceAndSeparators(s)
    decreases |s|
  {
    if s != [] {
      SplitAllBlankIff(s[1..]);
      OnlySpaceAndSeparatorsCons(s);
      var rest := Split(s[1..], Separator);
      if s[0] == Separator {
        AllBlankCons([], rest);
      } else {
        AllBlankCons([s[0]] + rest[0], rest[1..]);
        AllSpaceCons(s[0], rest[0]);
        assert rest == [rest[0]] + rest[1..];
        AllBlankCons(rest[0], rest[1..]);
      }
    }
  }

  /** A rendered file yields no statement at all exactly when it is made of
    * whitespace and `;` only. */
  lemma StatementsEmptyIff(sql: string)
    ensures Statements(sql) == [] <==> OnlySpaceAndSeparators(sql)
  {
    CleanEmptyIff(Split(sql, Separator));
    SplitAllBlankIff(sql);
  }

  lemma SplitTail()
    ensures Split("; C", Separator) == ["", " C"]
  {
    assert "; C" == "" + [Separator] + " C";
    SplitAppend("", " C", Separator);
    SplitWithoutSeparator("");
    SplitWithoutSeparator(" C");
  }

  lemma SplitMiddle()
    ensures Split(" B ;; C", Separator) == [" B ", "", " C"]
  {
    assert " B ;; C" == " B " + [Separator] + "; C";
    SplitAppend(" B ", "; C", Separator);
    SplitWithoutSeparator(" B ");
    SplitTail();
  }

  lemma SplitExample()
    ensures Split("A; B ;; C", Separator) == ["A", " B ", "", " C"]
  {
    var a, rest := "A", " B ;; C";
    assert "A; B ;; C" == a + [Separator] + rest;
    SplitAppend(a, rest, Separator);
    SplitWithoutSeparator("A");
    SplitMiddle();
  }

  /** A file that renders to one statement followed by `;` (as in
    * `CREATE SCHEMA dev_schema;`) yields exactly that statement. */
  lemma StatementsOfTerminatedStatement(body: string)
    requires body != [] && Trimmed(body) && Separator !in body
    ensures Statements(body + [Separator]) == [body]
  {
    assert body + [Separator] == body + [Separator] + "";
    StatementsAppend(body, "");
    StatementsWithoutSeparator(body);
    StatementsWithoutSeparator("");
    StripOfTrimmed(body);
  }

  lemma StripExamples()
    ensures Strip("A") == "A" && Strip(" B ") == "B" && Strip("") == "" && Strip(" C") == "C"
  {
  }

  lemma CleanExample()
    ensures Clean(["A", " B ", "", " C"]) == ["A", "B", "C"]
  {
    StripExamples();
  }

  /** The worked example: `"A; B ;; C"` gives `["A", "B", "C"]`. */
  lemma StatementsExample()
    ensures Statements("A; B ;; C") == ["A", "B", "C"]
  {
    SplitExample();
    CleanExample();
  }

  /** The logged preview, `stmt[:100] + "..." if len(stmt) > 100 else stmt`:
    * the statement itself when short, otherwise exactly 103 characters, the
    * first 100 of the statement then `...`. */
  function Preview(stmt: string): (p: string)
    ensures |stmt| <= PreviewLimit ==> p == stmt
    ensures |stmt| > PreviewLimit ==> |p| == 103 && p[..100] == stmt[..100] && p[100..] == Ellipsis
  {
    if |stmt| > PreviewLimit then stmt[..PreviewLimit] + Ellipsis else stmt
  }

  /** Never longer than 103 characters, and always a prefix of the statement
    * (at most 100 characters of it) followed by nothing or by `...`. */
  lemma PreviewBounded(stmt: string)
    ensures |Preview(stmt)| <= PreviewLimit + |Ellipsis|
    ensures var n := if |stmt| <= PreviewLimit then |stmt| else PreviewLimit;
            n <= |Preview(stmt)| && Preview(stmt)[..n] == stmt[..n]
  {
  }

  /** Statements that agree on their first 100 characters and are both longer
    * than that have the same preview. */
  lemma PreviewOnlySeesPrefix(s: string, t: string)
    requires |s| > PreviewLimit && |t| > PreviewLimit && s[..PreviewLimit] == t[..PreviewLimit]
    ensures Preview(s) == Preview(t)
  {
  }
}
