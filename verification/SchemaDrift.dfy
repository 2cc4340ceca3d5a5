/** The schema drift check: the canonical form of a dump, and the comparison with the committed baseline. */
module SchemaDrift {
  import opened Basics
  import opened Text
  import opened Ordering

  /** The characters `trim()` removes: white space and line terminators. */
  predicate IsSpace(c: char) {
    c in {'\t', '\n', '\U{0B}', '\U{0C}', '\r', ' ', '\U{A0}', '\U{1680}', '\U{2028}', '\U{2029}', '\U{202F}',
          '\U{205F}', '\U{3000}', '\U{FEFF}'}
    || '\U{2000}' <= c <= '\U{200A}'
  }

  function TrimStart(s: string): string {
    if s != "" && IsSpace(s[0]) then TrimStart(s[1..]) else s
  }

  function TrimEnd(s: string): string {
    if s != "" && IsSpace(s[|s| - 1]) then TrimEnd(s[..|s| - 1]) else s
  }

  function Trim(s: string): string { TrimEnd(TrimStart(s)) }

  predicate IsNoise(line: string) {
    StartsWith(line, "--") || StartsWith(line, "SET ") || StartsWith(line, "SELECT pg_catalog.")
  }

  /** The lines that are compared: noise lines dropped, the others trimmed, blank ones dropped. */
  function KeptLines(lines: seq<string>): seq<string> {
    if lines == [] then []
    else
      var last := lines[|lines| - 1];
      KeptLines(lines[..|lines| - 1]) + if IsNoise(last) || Trim(last) == "" then [] else [Trim(last)]
  }

  function Kept(dump: string): seq<string> { KeptLines(Split(dump, '\n')) }

  function DumpSchema(dump: string): string {
    Join(Sort(Kept(dump), LEX_ORDER), '\n')
  }

  /** What `--update-baseline` writes. */
  function Baseline(dump: string): string { DumpSchema(dump) + "\n" }

  // ---------------------------------------------------------------------------
  // Trimming
  // ---------------------------------------------------------------------------

  predicate Solid(s: string) {
    s != "" && !IsSpace(s[0]) && !IsSpace(s[|s| - 1])
  }

  lemma {:induction false} TrimStartLeaves(s: string)
    ensures TrimStart(s) == "" || !IsSpace(TrimStart(s)[0])
    ensures forall c | c in TrimStart(s) :: c in s
  {
    if s != "" && IsSpace(s[0]) { TrimStartLeaves(s[1..]); }
  }

  lemma {:induction false} TrimEndLeaves(s: string)
    ensures TrimEnd(s) <= s
    ensures TrimEnd(s) == "" || !IsSpace(TrimEnd(s)[|TrimEnd(s)| - 1])
  {
    if s != "" && IsSpace(s[|s| - 1]) { TrimEndLeaves(s[..|s| - 1]); }
  }

  lemma TrimLeavesSolid(s: string)
    ensures Trim(s) == "" || Solid(Trim(s))
    ensures forall c | c in Trim(s) :: c in s
  {
    TrimStartLeaves(s);
    TrimEndLeaves(TrimStart(s));
  }

  lemma TrimOfSolid(s: string)
    requires s == "" || Solid(s)
    ensures Trim(s) == s && Trim(s + "\n") == s
  {
    if s == "" {
      assert s + "\n" == "\n" && "\n"[1..] == "";
    } else {
      assert (s + "\n")[..|s|] == s && TrimStart(s + "\n") == s + "\n";
    }
  }

  /** The white space and line terminators of ECMAScript, by code point. */
  lemma SpaceCodePoints(c: char)
    ensures IsSpace(c) <==>
            || 0x9 <= c as int <= 0xD || 0x2000 <= c as int <= 0x200A
            || c as int in {0x20, 0xA0, 0x1680, 0x2028, 0x2029, 0x202F, 0x205F, 0x3000, 0xFEFF}
  {
  }

  predicate AllSpace(s: string) { forall c | c in s :: IsSpace(c) }

  lemma {:induction false} TrimStartDrops(a: string, s: string)
    requires AllSpace(a)
    ensures TrimStart(a + s) == TrimStart(s)
  {
    if a == "" {
      assert a + s == s;
    } else {
      assert a[0] in a && (a + s)[1..] == a[1..] + s;
      TrimStartDrops(a[1..], s);
    }
  }

  lemma {:induction false} TrimEndDrops(s: string, b: string)
    requires AllSpace(b)
    ensures TrimEnd(s + b) == TrimEnd(s)
  {
    if b == "" {
      assert s + b == s;
    } else {
      var n := |b| - 1;
      assert b[n] in b && (s + b)[|s + b| - 1] == b[n] && (s + b)[..|s + b| - 1] == s + b[..n];
      TrimEndDrops(s, b[..n]);
    }
  }

  lemma {:induction false} StartAndRest(s: string) returns (a: string)
    ensures AllSpace(a) && s == a + TrimStart(s)
  {
    a := "";
    if s != "" && IsSpace(s[0]) {
      var rest := StartAndRest(s[1..]);
      a := [s[0]] + rest;
    }
  }

  lemma {:induction false} RestAndEnd(s: string) returns (b: string)
    ensures AllSpace(b) && s == TrimEnd(s) + b
  {
    b := "";
    if s != "" && IsSpace(s[|s| - 1]) {
      var rest := RestAndEnd(s[..|s| - 1]);
      b := rest + [s[|s| - 1]];
    }
  }

  lemma TrimIsUnique(a: string, t: string, b: string)
    requires AllSpace(a) && AllSpace(b) && (t == "" || Solid(t))
    ensures Trim(a + (t + b)) == t
  {
    TrimStartDrops(a, t + b);
    if t == "" {
      assert t + b == b && b + "" == b;
      TrimStartDrops(b, "");
    } else {
      assert TrimStart(t + b) == t + b;
      TrimEndDrops(t, b);
    }
  }

  /** Trimming removes white space from both ends, all of it, and nothing else. */
  lemma TrimIff(s: string, t: string)
    ensures Trim(s) == t <==>
            (t == "" || Solid(t)) && exists a, b :: s == a + (t + b) && AllSpace(a) && AllSpace(b)
  {
    if Trim(s) == t {
      TrimLeavesSolid(s);
      var a := StartAndRest(s);
      var b := RestAndEnd(TrimStart(s));
      assert s == a + (t + b);
    }
    hide *;
    if t == "" || Solid(t) {
      forall a, b | s == a + (t + b) && AllSpace(a) && AllSpace(b)
        ensures Trim(s) == t
      {
        TrimIsUnique(a, t, b);
      }
    }
  }

  // ---------------------------------------------------------------------------
  // Which lines are kept
  // ---------------------------------------------------------------------------

  /** The line trims to `l` and is no comment, setting or catalog call. */
  predicate Yields(line: string, l: string) {
    Trim(line) == l && !("--" <= line || "SET " <= line || "SELECT pg_catalog." <= line)
  }

  ghost function KeptAs(lines: seq<string>, l: string): set<int> {
    set k | 0 <= k < |lines| && Yields(lines[k], l)
  }

  lemma KeptAsGrows(lines: seq<string>, l: string)
    requires lines != []
    ensures var n := |lines| - 1;
            |KeptAs(lines, l)| == |KeptAs(lines[..n], l)| + if Yields(lines[n], l) then 1 else 0
  {
    hide Yields;
    var n := |lines| - 1;
    assert KeptAs(lines, l) == KeptAs(lines[..n], l) + if Yields(lines[n], l) then {n} else {};
  }

  lemma AddedLine(line: string, l: string)
    requires l != ""
    ensures var added := if IsNoise(line) || Trim(line) == "" then [] else [Trim(line)];
            multiset(added)[l] == if Yields(line, l) then 1 else 0
  {
    NoiseIff(line);
    hide IsNoise;
    hide Trim;
  }

  lemma KeptLinesGrow(lines: seq<string>, l: string)
    requires lines != [] && l != ""
    ensures var n := |lines| - 1;
            multiset(KeptLines(lines))[l]
            == multiset(KeptLines(lines[..n]))[l] + if Yields(lines[n], l) then 1 else 0
  {
    var n := |lines| - 1;
    var front, last := KeptLines(lines[..n]), lines[n];
    var added := if IsNoise(last) || Trim(last) == "" then [] else [Trim(last)];
    assert KeptLines(lines) == front + added;
    AddedLine(last, l);
    hide *;
    assert multiset(front + added) == multiset(front) + multiset(added);
  }

  lemma NoiseIff(line: string)
    ensures IsNoise(line) <==> "--" <= line || "SET " <= line || "SELECT pg_catalog." <= line
  {
  }

  lemma {:induction false} NoBlankLines(lines: seq<string>)
    ensures "" !in KeptLines(lines)
  {
    hide Trim;
    hide IsNoise;
    if lines != [] {
      NoBlankLines(lines[..|lines| - 1]);
    }
  }

  /** Each line but the blank one is kept as often as some line of the dump yields it. */
  lemma {:induction false} KeptCount(lines: seq<string>, l: string)
    ensures multiset(KeptLines(lines))[l] == if l == "" then 0 else |KeptAs(lines, l)|
  {
    NoBlankLines(lines);
    if lines == [] {
      assert KeptAs(lines, l) == {};
    } else if l != "" {
      KeptAsGrows(lines, l);
      KeptLinesGrow(lines, l);
      hide *;
      KeptCount(lines[..|lines| - 1], l);
    }
  }

  lemma SameCounts<T>(a: multiset<T>, b: multiset<T>)
    requires forall x :: a[x] == b[x]
    ensures a == b
  {
  }

  /** Every line but the blank one is yielded equally often. */
  ghost predicate SameYields(a: seq<string>, b: seq<string>) {
    forall l | l != "" :: |KeptAs(a, l)| == |KeptAs(b, l)|
  }

  lemma KeptLinesAgreeIff(a: seq<string>, b: seq<string>)
    ensures multiset(KeptLines(a)) == multiset(KeptLines(b)) <==> SameYields(a, b)
  {
    hide KeptLines;
    hide KeptAs;
    var m, n := multiset(KeptLines(a)), multiset(KeptLines(b));
    if m == n {
      forall l | l != "" ensures |KeptAs(a, l)| == |KeptAs(b, l)| {
        KeptCount(a, l);
        KeptCount(b, l);
      }
    }
    if SameYields(a, b) {
      forall l ensures m[l] == n[l] {
        KeptCount(a, l);
        KeptCount(b, l);
      }
      SameCounts(m, n);
    }
  }

  /** Two dumps keep the same lines exactly when every line is yielded equally often by the lines of both. */
  lemma KeptAgreeIff(d: string, e: string)
    ensures multiset(Kept(d)) == multiset(Kept(e)) <==> SameYields(Split(d, '\n'), Split(e, '\n'))
  {
    KeptLinesAgreeIff(Split(d, '\n'), Split(e, '\n'));
  }

  // ---------------------------------------------------------------------------
  // The canonical form
  // ---------------------------------------------------------------------------

  ghost predicate CleanLines(lines: seq<string>) {
    forall l | l in lines :: Solid(l) && '\n' !in l
  }

  lemma {:induction false} KeptLinesAreClean(lines: seq<string>)
    requires forall l | l in lines :: '\n' !in l
    ensures CleanLines(KeptLines(lines))
  {
    if lines != [] {
      TrimLeavesSolid(lines[|lines| - 1]);
      KeptLinesAreClean(lines[..|lines| - 1]);
    }
  }

  lemma {:induction false} JoinIsSolid(lines: seq<string>)
    requires lines != [] && CleanLines(lines)
    ensures Solid(Join(lines, '\n'))
  {
    assert lines[0] in lines;
    if |lines| > 1 {
      JoinIsSolid(lines[1..]);
    }
  }

  lemma JoinIsInjective(a: seq<string>, b: seq<string>)
    requires CleanLines(a) && CleanLines(b)
    ensures Join(a, '\n') == Join(b, '\n') <==> a == b
  {
    if a != [] { SplitJoin(a, '\n'); JoinIsSolid(a); }
    if b != [] { SplitJoin(b, '\n'); JoinIsSolid(b); }
  }

  lemma SortedLinesAreClean(dump: string)
    ensures CleanLines(Sort(Kept(dump), LEX_ORDER))
  {
    KeptLinesAreClean(Split(dump, '\n'));
    LexIsAnOrder();
    SortSorts(Kept(dump), LEX_ORDER);
    forall l | l in Sort(Kept(dump), LEX_ORDER)
      ensures l in Kept(dump)
    {
      assert l in multiset(Sort(Kept(dump), LEX_ORDER));
    }
  }

  /** Two canonical forms are equal exactly when the kept lines are, order aside. */
  lemma CanonicalForm(d: string, e: string)
    ensures DumpSchema(d) == DumpSchema(e) <==> multiset(Kept(d)) == multiset(Kept(e))
    ensures DumpSchema(d) == "" || Solid(DumpSchema(d))
  {
    SortedLinesAreClean(d);
    SortedLinesAreClean(e);
    JoinIsInjective(Sort(Kept(d), LEX_ORDER), Sort(Kept(e), LEX_ORDER));
    AlphabeticalIsCanonical(Kept(d), Kept(e));
    if Sort(Kept(d), LEX_ORDER) != [] {
      JoinIsSolid(Sort(Kept(d), LEX_ORDER));
    }
  }

  /** What is compared and written: the kept lines in alphabetical order, one below the other. */
  lemma SchemaText(dump: string, lines: seq<string>)
    requires Sorted(lines, LEX_ORDER) && multiset(lines) == multiset(Kept(dump))
    ensures DumpSchema(dump) == Join(lines, '\n') && Baseline(dump) == Join(lines, '\n') + "\n"
  {
    AlphabeticalIff(Kept(dump), lines);
  }

  /** After the baseline was written from dump d, the equality test accepts dump e exactly when the kept lines agree. */
  lemma BaselineComparison(d: string, e: string)
    ensures Trim(DumpSchema(e)) == Trim(Baseline(d)) <==> multiset(Kept(d)) == multiset(Kept(e))
    ensures Trim(DumpSchema(e)) == Trim(Baseline(d)) <==> SameYields(Split(d, '\n'), Split(e, '\n'))
  {
    KeptAgreeIff(d, e);
    CanonicalForm(d, e);
    CanonicalForm(e, d);
    TrimOfSolid(DumpSchema(d));
    TrimOfSolid(DumpSchema(e));
  }

  // ---------------------------------------------------------------------------
  // The report
  // ---------------------------------------------------------------------------

  /** How the external diff ended; no status means it could not be started. */
  datatype DiffRun = DiffRun(status: Option<int>, output: string, error: string)

  /** The two outcomes the script turns into an issue. */
  predicate Reports(diff: DiffRun) {
    (diff.status == Some(1) && diff.output != "") || diff.status == Some(2)
  }

  datatype Issue = NoBaseline | CreateBaseline | Drifted | Blank | DiffText(text: string) | UpdateHint | DiffFailed

  method CompareSchema(current: string, baseline: Option<string>, diff: DiffRun) returns (issues: seq<Issue>)
    ensures baseline.None? ==> issues == [NoBaseline, CreateBaseline]
    ensures baseline.Some? ==>
              (issues == [] <==>
               Trim(current) == Trim(baseline.value) || !Reports(diff))
    ensures baseline.Some? && Trim(current) != Trim(baseline.value) && diff.status == Some(1) && diff.output != "" ==>
              issues == [Drifted, Blank, DiffText(TrimEnd(diff.output)), Blank, UpdateHint]
    ensures baseline.Some? && Trim(current) != Trim(baseline.value) && diff.status == Some(2) ==> issues == [DiffFailed]
  {
    issues := [];
    if baseline.None? {
      issues := issues + [NoBaseline];
      issues := issues + [CreateBaseline];
      return;
    }
    if Trim(current) == Trim(baseline.value) {
      return [];
    }
    if diff.status == Some(1) && diff.output != "" {
      issues := issues + [Drifted];
      issues := issues + [Blank];
      issues := issues + [DiffText(TrimEnd(diff.output))];
      issues := issues + [Blank];
      issues := issues + [UpdateHint];
    } else if diff.status == Some(2) {
      issues := issues + [DiffFailed];
    }
  }

  /**
   The check passes exactly when the kept lines agree, as long as the diff tool reports its own outcome;
   when it does not (it could not be started, say), every schema passes.
   */
  method CheckDrift(dump: string, baselineDump: string, diff: DiffRun) returns (passes: bool)
    ensures passes <==> multiset(Kept(dump)) == multiset(Kept(baselineDump)) || !Reports(diff)
    ensures passes <==> SameYields(Split(baselineDump, '\n'), Split(dump, '\n')) || !Reports(diff)
  {
    BaselineComparison(baselineDump, dump);
    var issues := CompareSchema(DumpSchema(dump), Some(Baseline(baselineDump)), diff);
    passes := |issues| == 0;
  }
}
