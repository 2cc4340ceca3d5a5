/** JavaScript's `sort`: a stable sort by a comparison, and the order of strings it uses by default. */
module Ordering {

  ghost predicate TotalPreorder<T(!new)>(le: (T, T) -> bool) {
    && (forall a, b :: le(a, b) || le(b, a))
    && (forall a, b, c :: le(a, b) && le(b, c) ==> le(a, c))
  }

  ghost predicate Antisymmetric<T(!new)>(le: (T, T) -> bool) {
    forall a, b :: le(a, b) && le(b, a) ==> a == b
  }

  ghost predicate Sorted<T>(s: seq<T>, le: (T, T) -> bool) {
    forall i, j | 0 <= i < j < |s| :: le(s[i], s[j])
  }

  function Insert<T>(x: T, s: seq<T>, le: (T, T) -> bool): seq<T> {
    if s == [] || le(x, s[0]) then [x] + s else [s[0]] + Insert(x, s[1..], le)
  }

  function Sort<T>(s: seq<T>, le: (T, T) -> bool): seq<T> {
    if s == [] then [] else Insert(s[0], Sort(s[1..], le), le)
  }

  lemma {:induction false} InsertSorts<T(!new)>(x: T, s: seq<T>, le: (T, T) -> bool)
    requires TotalPreorder(le) && Sorted(s, le)
    ensures Sorted(Insert(x, s, le), le)
    ensures multiset(Insert(x, s, le)) == multiset{x} + multiset(s)
  {
    if s == [] {
    } else if le(x, s[0]) {
      forall j | 0 < j < |s| ensures le(x, s[j]) {
        assert le(s[0], s[j]);
      }
    } else {
      InsertSorts(x, s[1..], le);
      var t := Insert(x, s[1..], le);
      assert s == [s[0]] + s[1..];
      forall j | 0 <= j < |t| ensures le(s[0], t[j]) {
        assert t[j] in multiset(t);
        if t[j] != x {
          assert t[j] in s[1..];
        }
      }
    }
  }

  lemma {:induction false} SortSorts<T(!new)>(s: seq<T>, le: (T, T) -> bool)
    requires TotalPreorder(le)
    ensures Sorted(Sort(s, le), le)
    ensures multiset(Sort(s, le)) == multiset(s) && |Sort(s, le)| == |s|
  {
    if s != [] {
      SortSorts(s[1..], le);
      InsertSorts(s[0], Sort(s[1..], le), le);
      assert s == [s[0]] + s[1..];
      assert |Sort(s, le)| == |multiset(Sort(s, le))|;
    }
  }

  function Filter<T>(s: seq<T>, keep: T -> bool): seq<T> {
    if s == [] then [] else (if keep(s[0]) then [s[0]] else []) + Filter(s[1..], keep)
  }

  lemma FilterCons<T>(x: T, s: seq<T>, keep: T -> bool)
    ensures Filter([x] + s, keep) == (if keep(x) then [x] else []) + Filter(s, keep)
  {
    assert ([x] + s)[0] == x && ([x] + s)[1..] == s;
  }

  lemma {:induction false} InsertFilter<T(!new)>(x: T, s: seq<T>, le: (T, T) -> bool, keep: T -> bool)
    requires forall a, b | keep(a) && keep(b) :: le(a, b)
    ensures Filter(Insert(x, s, le), keep) == (if keep(x) then [x] else []) + Filter(s, keep)
  {
    if s == [] || le(x, s[0]) {
      FilterCons(x, s, keep);
    } else {
      assert !keep(x) || !keep(s[0]);
      assert Filter(s, keep) == (if keep(s[0]) then [s[0]] else []) + Filter(s[1..], keep);
      InsertFilter(x, s[1..], le, keep);
      FilterCons(s[0], Insert(x, s[1..], le), keep);
      hide Filter;
    }
  }

  /** Elements that the comparison does not tell apart stay in their order. */
  lemma {:induction false} SortIsStable<T(!new)>(s: seq<T>, le: (T, T) -> bool, keep: T -> bool)
    requires forall a, b | keep(a) && keep(b) :: le(a, b)
    ensures Filter(Sort(s, le), keep) == Filter(s, keep)
  {
    if s != [] {
      SortIsStable(s[1..], le, keep);
      InsertFilter(s[0], Sort(s[1..], le), le, keep);
    }
  }

  function Map<A, B>(s: seq<A>, f: A -> B): (r: seq<B>)
    ensures |r| == |s| && forall i | 0 <= i < |s| :: r[i] == f(s[i])
  {
    if s == [] then [] else [f(s[0])] + Map(s[1..], f)
  }

  lemma {:induction false} InsertMap<A, B>(x: A, s: seq<A>, le: (A, A) -> bool, f: A -> B)
    ensures multiset(Map(Insert(x, s, le), f)) == multiset{f(x)} + multiset(Map(s, f))
  {
    if s == [] || le(x, s[0]) {
      assert ([x] + s)[1..] == s;
    } else {
      InsertMap(x, s[1..], le, f);
      assert ([s[0]] + Insert(x, s[1..], le))[1..] == Insert(x, s[1..], le);
    }
  }

  /** Sorting permutes whatever is read off the elements. */
  lemma {:induction false} SortMap<A, B>(s: seq<A>, le: (A, A) -> bool, f: A -> B)
    ensures multiset(Map(Sort(s, le), f)) == multiset(Map(s, f))
  {
    if s != [] {
      SortMap(s[1..], le, f);
      InsertMap(s[0], Sort(s[1..], le), le, f);
    }
  }

  lemma SortedHead<T(!new)>(a: seq<T>, x: T, le: (T, T) -> bool)
    requires TotalPreorder(le) && Sorted(a, le) && x in multiset(a)
    ensures a != [] && le(a[0], x)
  {
    var i :| 0 <= i < |a| && a[i] == x;
    assert le(a[0], a[0]);
  }

  lemma TailMultiset<T>(a: seq<T>)
    requires a != []
    ensures multiset(a[1..]) == multiset(a) - multiset{a[0]}
  {
    assert a == [a[0]] + a[1..];
  }

  /** Under an antisymmetric order, a multiset has one sorted listing. */
  lemma {:induction false} SortedIsUnique<T(!new)>(a: seq<T>, b: seq<T>, le: (T, T) -> bool)
    requires Antisymmetric(le) && TotalPreorder(le)
    requires Sorted(a, le) && Sorted(b, le) && multiset(a) == multiset(b)
    ensures a == b
  {
    assert |a| == |multiset(a)| == |multiset(b)| == |b|;
    if a != [] {
      assert a[0] in multiset(b) && b[0] in multiset(a);
      SortedHead(a, b[0], le);
      SortedHead(b, a[0], le);
      TailMultiset(a);
      TailMultiset(b);
      SortedIsUnique(a[1..], b[1..], le);
      assert a == [a[0]] + a[1..] && b == [b[0]] + b[1..];
    }
  }

  // ---------------------------------------------------------------------------
  // Alphabetical order
  // ---------------------------------------------------------------------------

  predicate LexLe(a: string, b: string) {
    a == "" || (b != "" && (a[0] < b[0] || (a[0] == b[0] && LexLe(a[1..], b[1..]))))
  }

  const LEX_ORDER := (a: string, b: string) => LexLe(a, b)

  lemma {:induction false} LexTotal(a: string, b: string)
    ensures LexLe(a, b) || LexLe(b, a)
    ensures LexLe(a, b) && LexLe(b, a) ==> a == b
  {
    if a != "" && b != "" && a[0] == b[0] {
      LexTotal(a[1..], b[1..]);
      assert a == [a[0]] + a[1..] && b == [b[0]] + b[1..];
    }
  }

  lemma {:induction false} LexTransitive(a: string, b: string, c: string)
    requires LexLe(a, b) && LexLe(b, c)
    ensures LexLe(a, c)
  {
    if a != "" && a[0] == b[0] == c[0] {
      LexTransitive(a[1..], b[1..], c[1..]);
    }
  }

  lemma LexIsAnOrder()
    ensures TotalPreorder(LEX_ORDER) && Antisymmetric(LEX_ORDER)
  {
    forall a, b ensures LEX_ORDER(a, b) || LEX_ORDER(b, a) { LexTotal(a, b); }
    forall a, b | LEX_ORDER(a, b) && LEX_ORDER(b, a) ensures a == b { LexTotal(a, b); }
    forall a, b, c | LEX_ORDER(a, b) && LEX_ORDER(b, c) ensures LEX_ORDER(a, c) { LexTransitive(a, b, c); }
  }

  /** The first differing character decides. */
  lemma {:induction false} LexFirstDifference(a: string, b: string, k: nat)
    requires k < |a| && k < |b| && a[..k] == b[..k] && a[k] < b[k]
    ensures LexLe(a, b) && !LexLe(b, a)
  {
    if k > 0 {
      assert a[0] == a[..k][0] == b[..k][0] == b[0];
      assert a[1..][..k - 1] == a[..k][1..] && b[1..][..k - 1] == b[..k][1..];
      LexFirstDifference(a[1..], b[1..], k - 1);
    }
  }

  /** Alphabetical order: a prefix comes first, otherwise the first differing character decides. */
  lemma LexLeIff(a: string, b: string)
    ensures LexLe(a, b) <==> a <= b || exists k | 0 <= k < |a| && k < |b| :: a[..k] == b[..k] && a[k] < b[k]
  {
    if LexLe(a, b) && !(a <= b) {
      var k := LexDiffers(a, b);
    }
    if a <= b { LexPrefix(a, b); }
    if k :| 0 <= k < |a| && k < |b| && a[..k] == b[..k] && a[k] < b[k] {
      LexFirstDifference(a, b, k);
    }
  }

  lemma {:induction false} LexPrefix(a: string, b: string)
    requires a <= b
    ensures LexLe(a, b)
  {
    if a != "" {
      LexPrefix(a[1..], b[1..]);
    }
  }

  lemma {:induction false} LexDiffers(a: string, b: string) returns (k: nat)
    requires LexLe(a, b) && !(a <= b)
    ensures k < |a| && k < |b| && a[..k] == b[..k] && a[k] < b[k]
  {
    if a[0] < b[0] {
      k := 0;
    } else {
      assert a == [a[0]] + a[1..] && b == [b[0]] + b[1..];
      var j := LexDiffers(a[1..], b[1..]);
      k := j + 1;
      assert a[..k] == [a[0]] + a[1..][..j] && b[..k] == [b[0]] + b[1..][..j];
    }
  }

  // ---------------------------------------------------------------------------
  // Sorting strings
  // ---------------------------------------------------------------------------

  /** `lines.sort()` depends on nothing but how often each string occurs. */
  lemma AlphabeticalIsCanonical(a: seq<string>, b: seq<string>)
    ensures Sort(a, LEX_ORDER) == Sort(b, LEX_ORDER) <==> multiset(a) == multiset(b)
  {
    LexIsAnOrder();
    SortSorts(a, LEX_ORDER);
    SortSorts(b, LEX_ORDER);
    if multiset(a) == multiset(b) {
      SortedIsUnique(Sort(a, LEX_ORDER), Sort(b, LEX_ORDER), LEX_ORDER);
    }
  }

  /** A listing is what `sort()` returns exactly when it is in alphabetical order and a permutation. */
  lemma AlphabeticalIff(a: seq<string>, sorted: seq<string>)
    ensures Sort(a, LEX_ORDER) == sorted <==> Sorted(sorted, LEX_ORDER) && multiset(sorted) == multiset(a)
  {
    LexIsAnOrder();
    SortSorts(a, LEX_ORDER);
    if Sorted(sorted, LEX_ORDER) && multiset(sorted) == multiset(a) {
      SortedIsUnique(Sort(a, LEX_ORDER), sorted, LEX_ORDER);
    }
  }
}
