/** The locale completeness check: comparing the flattened namespaces of a locale with the reference. */
module CheckLocales {
  import opened Basics
  import opened LocaleTree

  datatype EntryKind = ObjectKind | LeafKind

  datatype FindingKind = Missing | Extra | Mismatch(refType: EntryKind, otherType: EntryKind)

  datatype Finding = Finding(ns: string, kind: FindingKind, key: string)

  type Reference = map<string, KeyMap>

  type Locale = map<string, Json>

  const ENTIRE := "<entire-namespace>"

  function KindOf(i: Info): EntryKind { if i.ObjectInfo? then ObjectKind else LeafKind }

  /** The reference locale, flattened up front. */
  function Flattened(l: Locale): Reference { map ns | ns in l :: FlattenSpec(l[ns], "") }

  /** A leaf that is the empty string where the reference leaf is not. */
  predicate Emptied(ref: Info, other: Info) {
    ref.Leaf? && other == Leaf(Str("")) && ref != Leaf(Str(""))
  }

  // ---------------------------------------------------------------------------
  // What counts as a finding
  // ---------------------------------------------------------------------------

  /** The finding, if any, about one key that either map holds. */
  function KeyFinding(ref: KeyMap, other: KeyMap, key: string): Option<FindingKind> {
    if key in ref && key !in other then Some(Missing)
    else if key !in ref && key in other then Some(Extra)
    else if key !in ref then None
    else if KindOf(ref[key]) != KindOf(other[key]) then Some(Mismatch(KindOf(ref[key]), KindOf(other[key])))
    else if Emptied(ref[key], other[key]) then Some(Missing)
    else None
  }

  predicate IsFinding(ref: Reference, other: Locale, f: Finding) {
    if f.ns in ref && f.ns in other then
      KeyFinding(ref[f.ns], FlattenSpec(other[f.ns], ""), f.key) == Some(f.kind)
    else if f.ns in ref then f.key == ENTIRE && f.kind == Missing
    else f.ns in other && f.key == ENTIRE && f.kind == Extra
  }

  /** A namespace of only one locale is reported once, as a whole. */
  lemma EntireNamespace(ref: Reference, other: Locale, f: Finding)
    requires f.ns !in ref || f.ns !in other
    ensures IsFinding(ref, other, f) <==>
            || (f.ns in ref && f == Finding(f.ns, Missing, "<entire-namespace>"))
            || (f.ns in other && f == Finding(f.ns, Extra, "<entire-namespace>"))
  {
  }

  /** No (namespace, key) pair is reported twice. */
  ghost predicate OneFindingPerKey(fs: seq<Finding>) {
    forall i, j | 0 <= i < j < |fs| :: fs[i].ns != fs[j].ns || fs[i].key != fs[j].key
  }

  // ---------------------------------------------------------------------------
  // The comparison
  // ---------------------------------------------------------------------------

  /** The findings are exactly those about the given keys of one namespace, one for each. */
  ghost predicate Covers(findings: seq<Finding>, ns: string, ref: KeyMap, other: KeyMap, keys: set<string>) {
    && OneFindingPerKey(findings)
    && forall f :: f in findings <==> f.ns == ns && f.key in keys && KeyFinding(ref, other, f.key) == Some(f.kind)
  }

  lemma CoversOneMore(findings: seq<Finding>, ns: string, ref: KeyMap, other: KeyMap, keys: set<string>, key: string)
    requires Covers(findings, ns, ref, other, keys)
    ensures key in keys ==> Covers(findings, ns, ref, other, keys + {key})
    ensures key !in keys ==>
              match KeyFinding(ref, other, key)
              case Some(kind) => Covers(findings + [Finding(ns, kind, key)], ns, ref, other, keys + {key})
              case None => Covers(findings, ns, ref, other, keys + {key})
  {
    hide KeyFinding;
    if key in keys {
      assert keys + {key} == keys;
    }
  }

  lemma CoversAll(findings: seq<Finding>, ns: string, ref: KeyMap, other: KeyMap)
    ensures Covers([], ns, ref, other, {})
    ensures Covers(findings, ns, ref, other, ref.Keys + other.Keys) ==>
              && OneFindingPerKey(findings)
              && forall f :: f in findings <==> f.ns == ns && KeyFinding(ref, other, f.key) == Some(f.kind)
  {
  }

  /** Findings about one namespace: the reference keys first, then the keys only the other locale has. */
  method DiffNamespace(ns: string, ref: KeyMap, other: KeyMap) returns (findings: seq<Finding>)
    ensures forall f :: f in findings <==> f.ns == ns && KeyFinding(ref, other, f.key) == Some(f.kind)
    ensures OneFindingPerKey(findings)
  {
    findings := [];
    CoversAll([], ns, ref, other);
    hide Covers;
    hide OneFindingPerKey;
    var keys := ref.Keys;
    ghost var done: set<string> := {};
    while keys != {}
      invariant keys <= ref.Keys && done == ref.Keys - keys
      invariant Covers(findings, ns, ref, other, done)
      decreases |keys|
    {
      var key, rest := Take(keys);
      keys := rest;
      CoversOneMore(findings, ns, ref, other, done, key);
      done := done + {key};
      if key !in other {
        findings := findings + [Finding(ns, Missing, key)];
        continue;
      }
      if KindOf(ref[key]) != KindOf(other[key]) {
        findings := findings + [Finding(ns, Mismatch(KindOf(ref[key]), KindOf(other[key])), key)];
      } else if ref[key].Leaf? && other[key].Leaf? {
        var refIsEmpty := ref[key].value == Str("");
        var otherIsEmpty := other[key].value == Str("");
        if !refIsEmpty && otherIsEmpty {
          findings := findings + [Finding(ns, Missing, key)];
        }
      }
    }
    keys := other.Keys;
    while keys != {}
      invariant keys <= other.Keys && done == ref.Keys + (other.Keys - keys)
      invariant Covers(findings, ns, ref, other, done)
      decreases |keys|
    {
      var key, rest := Take(keys);
      keys := rest;
      CoversOneMore(findings, ns, ref, other, done, key);
      done := done + {key};
      if key !in ref {
        findings := findings + [Finding(ns, Extra, key)];
      }
    }
    assert done == ref.Keys + other.Keys;
    CoversAll(findings, ns, ref, other);
  }

  /** The findings are exactly those about the given namespaces, one for each key. */
  ghost predicate CoversNamespaces(findings: seq<Finding>, ref: Reference, other: Locale, seen: set<string>) {
    && OneFindingPerKey(findings)
    && forall f :: f in findings <==> f.ns in seen && IsFinding(ref, other, f)
  }

  lemma CoversOneMoreNamespace(findings: seq<Finding>, more: seq<Finding>, ref: Reference, other: Locale,
                               seen: set<string>, ns: string)
    requires CoversNamespaces(findings, ref, other, seen) && ns !in seen && OneFindingPerKey(more)
    requires forall f :: f in more <==> f.ns == ns && IsFinding(ref, other, f)
    ensures CoversNamespaces(findings + more, ref, other, seen + {ns})
  {
    hide IsFinding;
    hide OneFindingPerKey;
    AppendKeepsOnePerKey(findings, more);
  }

  lemma AppendKeepsOnePerKey(findings: seq<Finding>, more: seq<Finding>)
    requires OneFindingPerKey(findings) && OneFindingPerKey(more)
    requires forall f, g | f in findings && g in more :: f.ns != g.ns
    ensures OneFindingPerKey(findings + more)
  {
  }

  /** A namespace that only one of the two locales has. */
  lemma CoversEntire(findings: seq<Finding>, ref: Reference, other: Locale, seen: set<string>, ns: string)
    requires CoversNamespaces(findings, ref, other, seen) && ns !in seen && (ns in ref) != (ns in other)
    ensures CoversNamespaces(
              findings + [Finding(ns, if ns in ref then Missing else Extra, ENTIRE)], ref, other, seen + {ns})
  {
    CoversOneMoreNamespace(
      findings, [Finding(ns, if ns in ref then Missing else Extra, ENTIRE)], ref, other, seen, ns);
  }

  lemma CoversAllNamespaces(findings: seq<Finding>, ref: Reference, other: Locale)
    ensures CoversNamespaces([], ref, other, {})
    ensures CoversNamespaces(findings, ref, other, ref.Keys + other.Keys) ==>
              OneFindingPerKey(findings) && forall f :: f in findings <==> IsFinding(ref, other, f)
  {
  }

  method Diff(ref: Reference, other: Locale) returns (findings: seq<Finding>)
    ensures forall f :: f in findings <==> IsFinding(ref, other, f)
    ensures OneFindingPerKey(findings)
  {
    findings := [];
    CoversAllNamespaces([], ref, other);
    hide CoversNamespaces;
    hide KeyFinding;
    hide OneFindingPerKey;
    var seen: set<string> := {};
    var todo := ref.Keys;
    while todo != {}
      invariant seen == ref.Keys - todo && todo <= ref.Keys
      invariant CoversNamespaces(findings, ref, other, seen)
      decreases |todo|
    {
      var ns, rest := Take(todo);
      todo := rest;
      if ns !in other {
        CoversEntire(findings, ref, other, seen, ns);
        findings := findings + [Finding(ns, Missing, ENTIRE)];
      } else {
        var flat := Flatten(other[ns], "");
        var more := DiffNamespace(ns, ref[ns], flat);
        CoversOneMoreNamespace(findings, more, ref, other, seen, ns);
        findings := findings + more;
      }
      seen := seen + {ns};
    }
    todo := other.Keys;
    ghost var done := seen;
    while todo != {}
      invariant todo <= other.Keys && done == seen + (other.Keys - todo)
      invariant CoversNamespaces(findings, ref, other, done)
      decreases |todo|
    {
      var ns, rest := Take(todo);
      todo := rest;
      if ns !in seen {
        CoversEntire(findings, ref, other, done, ns);
        findings := findings + [Finding(ns, Extra, ENTIRE)];
      } else {
        assert done + {ns} == done;
      }
      done := done + {ns};
    }
    assert done == ref.Keys + other.Keys;
    CoversAllNamespaces(findings, ref, other);
  }

  // ---------------------------------------------------------------------------
  // When nothing is found
  // ---------------------------------------------------------------------------

  predicate CleanLocale(l: Locale) { forall ns | ns in l :: Clean(l[ns]) }

  /** Both trees hold the same kind of node at every path, and no leaf has been emptied. */
  ghost predicate SameKeyTree(a: Json, b: Json) {
    forall p | CleanPath(p) ::
      if View(a, p).None? || View(b, p).None? then View(a, p) == View(b, p)
      else
        var v, w := View(a, p).value, View(b, p).value;
        (v == ObjectInfo <==> w == ObjectInfo) && (w == Leaf(Str("")) ==> v == Leaf(Str("")))
  }

  /** Which finding there is about a key, in terms of the two trees. */
  lemma FindingIs(a: Json, b: Json, p: Path)
    requires Clean(a) && Clean(b) && CleanPath(p)
    ensures var v, w, finding := View(a, p), View(b, p), KeyFinding(FlattenSpec(a, ""), FlattenSpec(b, ""), Dotted(p));
            && (finding == Some(Missing) <==>
                  && v.Some?
                  && (w.None? || (v.value !in {ObjectInfo, Leaf(Str(""))} && w.value == Leaf(Str("")))))
            && (finding == Some(Extra) <==> v.None? && w.Some?)
            && (finding == Some(Mismatch(ObjectKind, LeafKind)) <==>
                  v == Some(ObjectInfo) && w.Some? && w.value != ObjectInfo)
            && (finding == Some(Mismatch(LeafKind, ObjectKind)) <==>
                  v.Some? && v.value != ObjectInfo && w == Some(ObjectInfo))
            && finding != Some(Mismatch(ObjectKind, ObjectKind)) && finding != Some(Mismatch(LeafKind, LeafKind))
  {
    FlattenIsView(a, p);
    FlattenIsView(b, p);
    hide View;
    hide FlattenSpec;
    hide Dotted;
  }

  lemma NamespaceIsCompleteIff(a: Json, b: Json)
    requires Clean(a) && Clean(b)
    ensures (forall k :: KeyFinding(FlattenSpec(a, ""), FlattenSpec(b, ""), k) == None) <==> SameKeyTree(a, b)
  {
    var m, n := FlattenSpec(a, ""), FlattenSpec(b, "");
    if forall k :: KeyFinding(m, n, k) == None {
      forall p | CleanPath(p)
        ensures KeyFinding(m, n, Dotted(p)) == None
        ensures View(a, p) == if Dotted(p) in m then Some(m[Dotted(p)]) else None
        ensures View(b, p) == if Dotted(p) in n then Some(n[Dotted(p)]) else None
      {
        FlattenIsView(a, p);
        FlattenIsView(b, p);
      }
    }
    if SameKeyTree(a, b) {
      forall k
        ensures KeyFinding(m, n, k) == None
      {
        if k in m {
          var p := KeyHasPath(a, k);
          FlattenIsView(b, p);
        } else if k in n {
          var p := KeyHasPath(b, k);
          FlattenIsView(a, p);
        }
      }
    }
  }

  /** Nothing is found exactly when the locales have the same namespaces and, in each, the same key tree. */
  lemma NoFindingsIff(a: Locale, b: Locale)
    requires CleanLocale(a) && CleanLocale(b)
    ensures (forall f :: !IsFinding(Flattened(a), b, f)) <==>
            a.Keys == b.Keys && forall ns | ns in a && ns in b :: SameKeyTree(a[ns], b[ns])
  {
    if forall f :: !IsFinding(Flattened(a), b, f) {
      forall ns ensures ns in a <==> ns in b {
        assert !IsFinding(Flattened(a), b, Finding(ns, Missing, ENTIRE));
        assert !IsFinding(Flattened(a), b, Finding(ns, Extra, ENTIRE));
      }
      forall ns | ns in a && ns in b ensures SameKeyTree(a[ns], b[ns]) {
        var m, n := FlattenSpec(a[ns], ""), FlattenSpec(b[ns], "");
        forall k ensures KeyFinding(m, n, k) == None {
          var found := KeyFinding(m, n, k);
          assert found.Some? ==> IsFinding(Flattened(a), b, Finding(ns, found.value, k));
        }
        NamespaceIsCompleteIff(a[ns], b[ns]);
      }
    }
    if a.Keys == b.Keys && forall ns | ns in a && ns in b :: SameKeyTree(a[ns], b[ns]) {
      forall ns | ns in a ensures forall k :: KeyFinding(FlattenSpec(a[ns], ""), FlattenSpec(b[ns], ""), k) == None {
        NamespaceIsCompleteIff(a[ns], b[ns]);
      }
    }
  }

  /** One locale of the main loop: it passes when nothing is found. */
  method CheckLocale(reference: Locale, other: Locale) returns (ok: bool)
    ensures ok <==> forall f :: !IsFinding(Flattened(reference), other, f)
    ensures CleanLocale(reference) && CleanLocale(other) ==>
              (ok <==> reference.Keys == other.Keys
                       && forall ns | ns in reference && ns in other :: SameKeyTree(reference[ns], other[ns]))
  {
    var findings := Diff(Flattened(reference), other);
    ok := |findings| == 0;
    if CleanLocale(reference) && CleanLocale(other) {
      NoFindingsIff(reference, other);
    }
    assert findings != [] ==> findings[0] in findings;
  }

  // ---------------------------------------------------------------------------
  // Swapping the two locales
  // ---------------------------------------------------------------------------

  /** The key, or its whole namespace, is not in the locale at all. */
  predicate AbsentFrom(l: Locale, ns: string, key: string) {
    ns !in l || key !in FlattenSpec(l[ns], "")
  }

  function Swapped(k: FindingKind): FindingKind {
    match k
    case Missing => Extra
    case Extra => Missing
    case Mismatch(r, o) => Mismatch(o, r)
  }

  /**
   Swapping the locales turns keys missing by absence into extra keys and back, whole namespaces
   included, and keeps the mismatches; only emptied leaves have no counterpart.
   */
  lemma SwapSymmetry(a: Locale, b: Locale, f: Finding)
    requires f.kind == Missing ==> AbsentFrom(b, f.ns, f.key)
    ensures IsFinding(Flattened(a), b, f) <==>
            IsFinding(Flattened(b), a, f.(kind := Swapped(f.kind)))
            && (f.kind == Extra ==> AbsentFrom(a, f.ns, f.key))
  {
    if f.ns in a && f.ns in b {
      var m, n := FlattenSpec(a[f.ns], ""), FlattenSpec(b[f.ns], "");
      if f.key in m && f.key in n {
        assert Emptied(m[f.key], n[f.key]) ==> !Emptied(n[f.key], m[f.key]);
      }
    }
  }

  /** The exception: a finding for a key that the other locale holds, as an empty string. */
  lemma EmptiedIsNotSymmetric(a: Locale, b: Locale, ns: string, key: string)
    requires IsFinding(Flattened(a), b, Finding(ns, Missing, key)) && !AbsentFrom(b, ns, key)
    ensures forall kind :: !IsFinding(Flattened(b), a, Finding(ns, kind, key))
  {
    var m, n := FlattenSpec(a[ns], ""), FlattenSpec(b[ns], "");
    assert Emptied(m[key], n[key]);
  }
}
