/** Locale files as trees, and the map of dotted keys they are flattened to. */
module LocaleTree {
  import opened Basics
  import opened Text

  datatype Json =
    | Null | Bool(b: bool) | Number(n: real) | Str(s: string) | Arr(items: seq<Json>)
    | Obj(fields: seq<(string, Json)>)

  datatype Info = ObjectInfo | Leaf(value: Json)

  type KeyMap = map<string, Info>

  function Under(prefix: string, key: string): string {
    if prefix == "" then key else prefix + "." + key
  }

  function FlattenField(field: (string, Json), prefix: string): KeyMap
    decreases field, 0
  {
    var next := Under(prefix, field.0);
    if field.1.Obj? then map[next := ObjectInfo] + FlattenFields(field.1.fields, next) else map[next := Leaf(field.1)]
  }

  function FlattenFields(fields: seq<(string, Json)>, prefix: string): KeyMap
    decreases fields, 1
  {
    if fields == [] then map[]
    else FlattenFields(fields[..|fields| - 1], prefix) + FlattenField(fields[|fields| - 1], prefix)
  }

  /** Arrays and primitives are leaves, also at the root. */
  function FlattenSpec(obj: Json, prefix: string): KeyMap {
    if obj.Obj? then FlattenFields(obj.fields, prefix) else map[prefix := Leaf(obj)]
  }

  method MergeInto(out: KeyMap, more: KeyMap) returns (r: KeyMap)
    ensures r == out + more
  {
    r := out;
    var keys := more.Keys;
    while keys != {}
      invariant keys <= more.Keys
      invariant r.Keys == out.Keys + (more.Keys - keys)
      invariant forall k | k in r :: r[k] == if k in more && k !in keys then more[k] else out[k]
      decreases |keys|
    {
      var k, rest := Take(keys);
      r := r[k := more[k]];
      keys := rest;
    }
  }

  lemma FlattenSnoc(fields: seq<(string, Json)>, i: nat, prefix: string)
    requires i < |fields|
    ensures FlattenFields(fields[..i + 1], prefix) ==
            FlattenFields(fields[..i], prefix) + FlattenField(fields[i], prefix)
  {
    assert fields[..i + 1][..i] == fields[..i];
  }

  lemma UpdateThenMerge(out: KeyMap, k: string, v: Info, more: KeyMap)
    ensures out[k := v] + more == out + (map[k := v] + more)
    ensures out[k := v] == out + map[k := v]
  {
  }

  method Flatten(obj: Json, prefix: string) returns (out: KeyMap)
    ensures out == FlattenSpec(obj, prefix)
    decreases obj
  {
    out := map[];
    if !obj.Obj? {
      return out[prefix := Leaf(obj)];
    }
    var fields := obj.fields;
    for i := 0 to |fields|
      invariant out == FlattenFields(fields[..i], prefix)
    {
      FlattenSnoc(fields, i, prefix);
      var (key, value) := fields[i];
      var next := Under(prefix, key);
      if value.Obj? {
        var nested := Flatten(value, next);
        UpdateThenMerge(out, next, ObjectInfo, nested);
        out := MergeInto(out[next := ObjectInfo], nested);
      } else {
        UpdateThenMerge(out, next, Leaf(value), map[]);
        out := out[next := Leaf(value)];
      }
    }
    assert fields[..|fields|] == fields;
  }

  // ---------------------------------------------------------------------------
  // Trees by path
  // ---------------------------------------------------------------------------

  predicate CleanKey(k: string) { k != "" && '.' !in k }

  /** Keys are non-empty, dot-free and distinct in every object. */
  predicate Clean(j: Json)
    decreases j, 0
  {
    j.Obj? ==> CleanFields(j.fields)
  }

  predicate CleanField(field: (string, Json))
    decreases field, 1
  {
    CleanKey(field.0) && Clean(field.1)
  }

  predicate CleanFields(fields: seq<(string, Json)>)
    decreases fields, 0
  {
    && (forall i | 0 <= i < |fields| :: CleanField(fields[i]))
    && (forall i, k | 0 <= i < k < |fields| :: fields[i].0 != fields[k].0)
  }

  type Path = seq<string>

  predicate CleanPath(p: Path) { forall k | k in p :: CleanKey(k) }

  function Dotted(p: Path): string { Join(p, '.') }

  function Lookup(fields: seq<(string, Json)>, key: string): (r: Option<Json>)
    ensures r.Some? ==> exists i | 0 <= i < |fields| :: fields[i] == (key, r.value)
    ensures r.None? ==> forall i | 0 <= i < |fields| :: fields[i].0 != key
  {
    if fields == [] then None
    else if fields[0].0 == key then Some(fields[0].1)
    else Lookup(fields[1..], key)
  }

  /** The subtree a path leads to. */
  function At(j: Json, p: Path): Option<Json>
    decreases |p|
  {
    if p == [] then Some(j)
    else if !j.Obj? || Lookup(j.fields, p[0]).None? then None
    else At(Lookup(j.fields, p[0]).value, p[1..])
  }

  function InfoOf(j: Json): Info { if j.Obj? then ObjectInfo else Leaf(j) }

  /** What a tree holds at a path; a root object is not an entry, a root leaf is. */
  function View(j: Json, p: Path): Option<Info> {
    if At(j, p).None? || (p == [] && j.Obj?) then None else Some(InfoOf(At(j, p).value))
  }

  // ---------------------------------------------------------------------------
  // Dotted keys are faithful
  // ---------------------------------------------------------------------------

  lemma DottedStep(key: string, rest: Path)
    ensures rest != [] ==> Dotted([key] + rest) == key + "." + Dotted(rest)
    ensures Dotted([key]) == key
    ensures rest != [] ==> [key] + rest != [] && ([key] + rest)[1..] == rest
  {
  }

  lemma DottedIsInjective(p: Path, q: Path)
    requires CleanPath(p) && CleanPath(q) && Dotted(p) == Dotted(q)
    ensures p == q
  {
    if p != [] { SplitJoin(p, '.'); assert CleanKey(p[0]); }
    if q != [] { SplitJoin(q, '.'); assert CleanKey(q[0]); }
  }

  lemma UnderCancels(prefix: string, a: string, b: string)
    ensures Under(prefix, a) == Under(prefix, b) <==> a == b
  {
    if prefix != "" {
      assert (prefix + "." + a)[|prefix| + 1..] == a && (prefix + "." + b)[|prefix| + 1..] == b;
    }
  }

  lemma UnderStep(prefix: string, key: string, rest: Path)
    requires key != "" && rest != []
    ensures Under(Under(prefix, key), Dotted(rest)) == Under(prefix, Dotted([key] + rest))
  {
    DottedStep(key, rest);
    if prefix != "" {
      assert prefix + "." + key + "." + Dotted(rest) == prefix + "." + (key + "." + Dotted(rest));
    }
  }

  lemma LookupAt(fields: seq<(string, Json)>, i: nat)
    requires CleanFields(fields) && i < |fields|
    ensures Lookup(fields, fields[i].0) == Some(fields[i].1)
  {
  }

  lemma AtStep(fields: seq<(string, Json)>, i: nat, rest: Path)
    requires CleanFields(fields) && i < |fields|
    ensures At(Obj(fields), [fields[i].0] + rest) == At(fields[i].1, rest)
  {
    LookupAt(fields, i);
    assert ([fields[i].0] + rest)[1..] == rest;
  }

  lemma ViewStep(fields: seq<(string, Json)>, i: nat, rest: Path)
    requires CleanFields(fields) && i < |fields|
    ensures View(Obj(fields), [fields[i].0] + rest)
            == if rest == [] then Some(InfoOf(fields[i].1)) else View(fields[i].1, rest)
  {
    AtStep(fields, i, rest);
    hide CleanFields;
  }

  /** Every flattened key of the first n fields is the dotted form of a path, and holds what the tree holds there. */
  lemma {:induction false} FlattenIsSound(fields: seq<(string, Json)>, n: nat, prefix: string, k: string)
    returns (p: Path)
    requires CleanFields(fields) && n <= |fields| && k in FlattenFields(fields[..n], prefix)
    ensures p != [] && CleanPath(p) && k == Under(prefix, Dotted(p))
    ensures View(Obj(fields), p) == Some(FlattenFields(fields[..n], prefix)[k])
    ensures exists i | 0 <= i < n :: fields[i].0 == p[0]
    decreases fields, n
  {
    var last := n - 1;
    assert fields[..n][..last] == fields[..last];
    if k in FlattenField(fields[last], prefix) {
      var rest := FieldIsSound(fields[last], prefix, k);
      p := [fields[last].0] + rest;
      ViewStep(fields, last, rest);
      DottedStep(fields[last].0, rest);
    } else {
      p := FlattenIsSound(fields, last, prefix, k);
    }
  }

  lemma {:induction false} FieldIsSound(field: (string, Json), prefix: string, k: string) returns (rest: Path)
    requires CleanField(field) && k in FlattenField(field, prefix)
    ensures CleanPath(rest) && k == Under(prefix, Dotted([field.0] + rest))
    ensures Some(FlattenField(field, prefix)[k])
            == if rest == [] then Some(InfoOf(field.1)) else View(field.1, rest)
    decreases field, 0
  {
    var next := Under(prefix, field.0);
    if field.1.Obj? && k in FlattenFields(field.1.fields, next) {
      var fields := field.1.fields;
      assert fields[..|fields|] == fields;
      rest := FlattenIsSound(fields, |fields|, next, k);
      UnderStep(prefix, field.0, rest);
    } else {
      rest := [];
      DottedStep(field.0, rest);
      assert [field.0] + rest == [field.0];
    }
  }

  lemma {:induction false} FieldKeysAreKept(fields: seq<(string, Json)>, i: nat, prefix: string)
    requires i < |fields|
    ensures FlattenField(fields[i], prefix).Keys <= FlattenFields(fields, prefix).Keys
  {
    if i < |fields| - 1 {
      FieldKeysAreKept(fields[..|fields| - 1], i, prefix);
    }
  }

  /** Every path at which the tree holds something is flattened to its dotted key. */
  lemma {:induction false} FlattenHasPath(fields: seq<(string, Json)>, prefix: string, p: Path)
    requires CleanFields(fields) && p != [] && View(Obj(fields), p).Some?
    ensures CleanPath(p) && Under(prefix, Dotted(p)) in FlattenFields(fields, prefix)
    decreases |p|
  {
    var i :| 0 <= i < |fields| && fields[i] == (p[0], Lookup(fields, p[0]).value);
    var child, rest := fields[i].1, p[1..];
    assert CleanField(fields[i]) && p == [p[0]] + rest;
    FieldKeysAreKept(fields, i, prefix);
    ViewStep(fields, i, rest);
    if rest == [] {
      DottedStep(p[0], rest);
    } else {
      assert Clean(child) && child == Obj(child.fields);
      FlattenHasPath(child.fields, Under(prefix, p[0]), rest);
      UnderStep(prefix, p[0], rest);
    }
  }

  /** The flattened map and the tree say the same thing about every path. */
  lemma FlattenIsView(j: Json, p: Path)
    requires Clean(j) && CleanPath(p)
    ensures var m := FlattenSpec(j, "");
            View(j, p) == if Dotted(p) in m then Some(m[Dotted(p)]) else None
  {
    var m, k := FlattenSpec(j, ""), Dotted(p);
    if j.Obj? {
      if View(j, p).Some? {
        FlattenHasPath(j.fields, "", p);
      }
      if k in m {
        assert j.fields[..|j.fields|] == j.fields;
        var q := FlattenIsSound(j.fields, |j.fields|, "", k);
        DottedIsInjective(p, q);
      }
    } else {
      DottedIsEmptyOnly(p);
    }
  }

  lemma DottedIsEmptyOnly(p: Path)
    requires CleanPath(p)
    ensures Dotted(p) == "" <==> p == []
  {
    if Dotted(p) == "" {
      DottedIsInjective(p, []);
    }
  }

  /** Every flattened key comes from a path. */
  lemma KeyHasPath(j: Json, k: string) returns (p: Path)
    requires Clean(j) && k in FlattenSpec(j, "")
    ensures CleanPath(p) && Dotted(p) == k && View(j, p) == Some(FlattenSpec(j, "")[k])
  {
    if j.Obj? {
      assert j.fields[..|j.fields|] == j.fields;
      p := FlattenIsSound(j.fields, |j.fields|, "", k);
    } else {
      p := [];
    }
  }

  // ---------------------------------------------------------------------------
  // Flattening is injective
  // ---------------------------------------------------------------------------

  /** Equal up to the order of fields. */
  ghost predicate Equivalent(a: Json, b: Json) {
    if a.Obj? && b.Obj? then
      && (forall i | 0 <= i < |a.fields| :: Lookup(b.fields, a.fields[i].0).Some?
            && Equivalent(a.fields[i].1, Lookup(b.fields, a.fields[i].0).value))
      && (forall i | 0 <= i < |b.fields| :: Lookup(a.fields, b.fields[i].0).Some?)
    else a == b
  }

  lemma EquivalentChildren(a: Json, b: Json, key: string)
    requires a.Obj? && b.Obj? && Clean(a) && Clean(b) && Equivalent(a, b)
    ensures Lookup(a.fields, key).Some? <==> Lookup(b.fields, key).Some?
    ensures Lookup(a.fields, key).Some? ==>
              var x, y := Lookup(a.fields, key).value, Lookup(b.fields, key).value;
              Clean(x) && Clean(y) && Equivalent(x, y)
  {
    var x, y := Lookup(a.fields, key), Lookup(b.fields, key);
    if y.Some? {
      var k :| 0 <= k < |b.fields| && b.fields[k] == (key, y.value);
      assert CleanField(b.fields[k]);
    }
    if x.Some? {
      var i :| 0 <= i < |a.fields| && a.fields[i] == (key, x.value);
      assert CleanField(a.fields[i]);
    }
  }

  lemma {:induction false} EquivalentViews(a: Json, b: Json, p: Path)
    requires Clean(a) && Clean(b) && Equivalent(a, b)
    ensures View(a, p) == View(b, p)
    ensures At(a, p).Some? ==> At(b, p).Some? && InfoOf(At(a, p).value) == InfoOf(At(b, p).value)
    decreases |p|
  {
    if p != [] && a.Obj? && b.Obj? {
      EquivalentChildren(a, b, p[0]);
      if Lookup(a.fields, p[0]).Some? {
        EquivalentViews(Lookup(a.fields, p[0]).value, Lookup(b.fields, p[0]).value, p[1..]);
      }
    }
  }

  lemma {:induction false} SameViewsAreEquivalent(a: Json, b: Json)
    requires Clean(a) && Clean(b)
    requires forall p | CleanPath(p) :: View(a, p) == View(b, p)
    ensures Equivalent(a, b)
  {
    assert View(a, []) == View(b, []);
    if a.Obj? && b.Obj? {
      forall i | 0 <= i < |a.fields|
        ensures Lookup(b.fields, a.fields[i].0).Some?
        ensures Equivalent(a.fields[i].1, Lookup(b.fields, a.fields[i].0).value)
      {
        var k := SharedKey(a, b, i);
        ChildViewsAgree(a, b, i, k);
        assert CleanField(a.fields[i]) && CleanField(b.fields[k]);
        SameViewsAreEquivalent(a.fields[i].1, b.fields[k].1);
        LookupAt(b.fields, k);
      }
      forall i | 0 <= i < |b.fields|
        ensures Lookup(a.fields, b.fields[i].0).Some?
      {
        var k := SharedKey(b, a, i);
      }
    }
  }

  lemma SharedKey(a: Json, b: Json, i: nat) returns (k: nat)
    requires a.Obj? && b.Obj? && CleanFields(a.fields) && CleanFields(b.fields) && i < |a.fields|
    requires forall p | CleanPath(p) :: View(a, p) == View(b, p)
    ensures k < |b.fields| && b.fields[k].0 == a.fields[i].0
  {
    var p := [a.fields[i].0];
    ViewStep(a.fields, i, []);
    assert p + [] == p && CleanPath(p);
    assert View(b, p).Some?;
    var child := Lookup(b.fields, p[0]).value;
    k :| k < |b.fields| && b.fields[k] == (p[0], child);
  }

  lemma ChildViewsAgree(a: Json, b: Json, i: nat, k: nat)
    requires a.Obj? && b.Obj? && CleanFields(a.fields) && CleanFields(b.fields)
    requires i < |a.fields| && k < |b.fields| && b.fields[k].0 == a.fields[i].0
    requires forall p | CleanPath(p) :: View(a, p) == View(b, p)
    ensures forall p | CleanPath(p) :: View(a.fields[i].1, p) == View(b.fields[k].1, p)
  {
    forall p | CleanPath(p)
      ensures View(a.fields[i].1, p) == View(b.fields[k].1, p)
    {
      ViewStep(a.fields, i, p);
      ViewStep(b.fields, k, p);
      assert CleanPath([a.fields[i].0] + p);
    }
  }

  /** Two clean trees flatten alike exactly when they are the same tree up to field order. */
  lemma FlattenIsInjective(a: Json, b: Json)
    requires Clean(a) && Clean(b)
    ensures FlattenSpec(a, "") == FlattenSpec(b, "") <==> Equivalent(a, b)
  {
    var m, n := FlattenSpec(a, ""), FlattenSpec(b, "");
    if m == n {
      forall p | CleanPath(p) ensures View(a, p) == View(b, p) {
        FlattenIsView(a, p);
        FlattenIsView(b, p);
      }
      SameViewsAreEquivalent(a, b);
    }
    if Equivalent(a, b) {
      forall k ensures (k in m ==> k in n && m[k] == n[k]) && (k in n ==> k in m) {
        if k in m {
          var p := KeyHasPath(a, k);
          EquivalentViews(a, b, p);
          FlattenIsView(b, p);
        }
        if k in n {
          var p := KeyHasPath(b, k);
          EquivalentViews(a, b, p);
          FlattenIsView(a, p);
        }
      }
    }
  }

  /** With a dot inside a key, different trees flatten to the same map, whatever the two keys and the leaf are. */
  lemma DottedKeysCollide(a: string, b: string, v: Json)
    requires CleanKey(a) && CleanKey(b) && !v.Obj?
    ensures var nested := Obj([(a, Obj([(b, v)]))]);
            var flat := Obj([(a, Obj([])), (a + "." + b, v)]);
            Clean(nested) && !Clean(flat) && !Equivalent(nested, flat)
            && FlattenSpec(nested, "") == FlattenSpec(flat, "")
  {
    var key := a + "." + b;
    var inner := [(b, v)];
    var nested := Obj([(a, Obj(inner))]);
    var flat := Obj([(a, Obj([])), (key, v)]);
    assert FlattenField(inner[0], a) == map[key := Leaf(v)];
    assert inner[..0] == [] && FlattenFields(inner, a) == map[key := Leaf(v)];
    assert FlattenField(nested.fields[0], "") == map[a := ObjectInfo] + FlattenFields(inner, a);
    assert nested.fields[..0] == [] && FlattenFields(nested.fields, "") == map[a := ObjectInfo, key := Leaf(v)];
    assert flat.fields[..1] == [(a, Obj([]))] && flat.fields[..1][..0] == [];
    assert FlattenField((a, Obj([])), "") == map[a := ObjectInfo];
    assert FlattenFields(flat.fields[..1], "") == map[a := ObjectInfo];
    assert FlattenFields(flat.fields, "") == map[a := ObjectInfo, key := Leaf(v)];
    assert key[|a|] == '.' && key != a && !CleanField(flat.fields[1]);
    assert flat.fields[1].0 == key && Lookup(nested.fields, key).None?;
    assert !Equivalent(nested, flat);
    assert CleanField(inner[0]) && CleanField(nested.fields[0]);
  }

  // ---------------------------------------------------------------------------
  // No entry is overwritten
  // ---------------------------------------------------------------------------

  /** The nodes below a node, itself excluded. */
  function NodeCount(fields: seq<(string, Json)>): nat
    decreases fields, 1
  {
    if fields == [] then 0 else NodeCount(fields[..|fields| - 1]) + FieldNodes(fields[|fields| - 1])
  }

  function FieldNodes(field: (string, Json)): nat
    decreases field, 0
  {
    1 + if field.1.Obj? then NodeCount(field.1.fields) else 0
  }

  lemma DisjointUnionSize(a: KeyMap, b: KeyMap)
    requires a.Keys !! b.Keys
    ensures |a + b| == |a| + |b|
  {
    assert (a + b).Keys == a.Keys + b.Keys;
    assert |(a + b).Keys| == |a.Keys| + |b.Keys|;
  }

  /** The map has one entry for each node below the root. */
  lemma {:induction false} FlattenSize(fields: seq<(string, Json)>, n: nat, prefix: string)
    requires CleanFields(fields) && n <= |fields|
    ensures |FlattenFields(fields[..n], prefix)| == NodeCount(fields[..n])
    decreases fields, n
  {
    if n > 0 {
      var last := fields[n - 1];
      assert fields[..n][..n - 1] == fields[..n - 1];
      FlattenSize(fields, n - 1, prefix);
      var before, mine := FlattenFields(fields[..n - 1], prefix), FlattenField(last, prefix);
      forall k, l | k in before && l in mine ensures k != l {
        var p := FlattenIsSound(fields, n - 1, prefix, k);
        var rest := FieldIsSound(last, prefix, l);
        assert p[0] != ([last.0] + rest)[0];
        UnderCancels(prefix, Dotted(p), Dotted([last.0] + rest));
        if k == l { DottedIsInjective(p, [last.0] + rest); }
      }
      DisjointUnionSize(before, mine);
      if last.1.Obj? {
        FieldSize(last, prefix);
      }
    }
  }

  lemma {:induction false} FieldSize(field: (string, Json), prefix: string)
    requires CleanField(field) && field.1.Obj?
    ensures |FlattenField(field, prefix)| == FieldNodes(field)
    decreases field, 0
  {
    var sub, next := field.1.fields, Under(prefix, field.0);
    assert sub[..|sub|] == sub;
    FlattenSize(sub, |sub|, next);
    var nested := FlattenFields(sub, next);
    forall k | k in nested ensures |k| > |next| {
      var p := FlattenIsSound(sub, |sub|, next, k);
    }
    DisjointUnionSize(map[next := ObjectInfo], nested);
  }

  lemma OneEntryPerNode(j: Json)
    requires Clean(j) && j.Obj?
    ensures |FlattenSpec(j, "")| == NodeCount(j.fields)
  {
    assert j.fields[..|j.fields|] == j.fields;
    FlattenSize(j.fields, |j.fields|, "");
  }
}
