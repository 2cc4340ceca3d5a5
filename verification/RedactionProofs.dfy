/** What the redactions guarantee, and how they relate. */
module RedactionProofs {
  import opened WalletAddresses
  import opened Redaction

  // ---------------------------------------------------------------------------
  // Sensitive names in any letter case
  // ---------------------------------------------------------------------------

  predicate SameLetter(c: char, lower: char) {
    c == lower || ('a' <= lower <= 'z' && c as int == lower as int - 32) || (lower == 'k' && c == '\U{212A}')
  }

  predicate NoUpperCase(s: string) { forall c | c in s :: !('A' <= c <= 'Z') && c != '\U{212A}' }

  lemma LowerIsLower(key: string)
    ensures NoUpperCase(Lower(key))
  {
  }

  /**
   A key is sensitive exactly when it spells a listed name, each letter in either case; a listed name that
   is not all lower case matches nothing.
   */
  lemma SensitiveIff(key: string, names: seq<string>)
    ensures Sensitive(key, names) <==>
            exists f | f in names ::
              NoUpperCase(f) && |f| == |key| && forall i | 0 <= i < |f| :: SameLetter(key[i], f[i])
  {
    var low := Lower(key);
    LowerIsLower(key);
    if Sensitive(key, names) {
      assert forall i | 0 <= i < |low| :: SameLetter(key[i], low[i]);
    }
    forall f | f in names && NoUpperCase(f) && |f| == |key| && forall i | 0 <= i < |f| :: SameLetter(key[i], f[i])
      ensures low == f
    {
      forall i | 0 <= i < |f| ensures low[i] == f[i] {
        assert f[i] in f && SameLetter(key[i], f[i]);
      }
    }
  }

  lemma FieldNamesAreLowerCase()
    ensures forall f | f in REDACTED_FIELDS :: NoUpperCase(f)
  {
  }

  /** All names of the list that both redactions use are lower case. */
  lemma RedactedNamesIff(key: string)
    ensures Sensitive(key, REDACTED_FIELDS) <==>
            exists f | f in REDACTED_FIELDS :: |f| == |key| && forall i | 0 <= i < |f| :: SameLetter(key[i], f[i])
  {
    FieldNamesAreLowerCase();
    SensitiveIff(key, REDACTED_FIELDS);
  }

  // ---------------------------------------------------------------------------
  // scrubPii is redactSensitive followed by address redaction in every string
  // ---------------------------------------------------------------------------

  /** Redacts wallet addresses in every string leaf and changes nothing else. */
  function HashStrings(v: Value, h: Hasher): Value
    decreases v, 0
  {
    match v
    case Str(s) => Str(Redacted(s, h))
    case Arr(items) => Arr(HashItems(items, h))
    case Obj(fields) => Obj(HashFields(fields, h))
    case _ => v
  }

  function HashItems(items: seq<Value>, h: Hasher): seq<Value>
    decreases items, 0
  {
    if items == [] then [] else HashItems(items[..|items| - 1], h) + [HashStrings(items[|items| - 1], h)]
  }

  function HashField(field: (string, Value), h: Hasher): (string, Value)
    decreases field, 0
  {
    (field.0, HashStrings(field.1, h))
  }

  function HashFields(fields: seq<(string, Value)>, h: Hasher): seq<(string, Value)>
    decreases fields, 0
  {
    if fields == [] then [] else HashFields(fields[..|fields| - 1], h) + [HashField(fields[|fields| - 1], h)]
  }

  lemma MarksHoldNoAddress(h: Hasher)
    ensures HashStrings(LIMIT_MARK, h) == LIMIT_MARK && HashStrings(REDACTED_MARK, h) == REDACTED_MARK
    ensures !HasMatch(LIMIT_MARK.s) && !HasMatch(REDACTED_MARK.s)
  {
    ShortStringsAreKept(LIMIT_MARK.s, h);
    ShortStringsAreKept(REDACTED_MARK.s, h);
  }

  lemma {:induction false} ScrubIsRedactThenHash(v: Value, depth: nat, h: Hasher)
    ensures ScrubSpec(v, depth, h) == HashStrings(RedactSpec(v, depth), h)
    decreases v, 0
  {
    hide HasMatch;
    hide Redacted;
    MarksHoldNoAddress(h);
    if depth < DEPTH_LIMIT {
      match v
      case Str(s) => RedactedFixes(s, h);
      case Arr(items) => ScrubItemsCompose(items, depth, h);
      case Obj(fields) => ScrubFieldsCompose(fields, depth, h);
      case _ =>
    }
  }

  lemma {:induction false} ScrubItemsCompose(items: seq<Value>, depth: nat, h: Hasher)
    ensures ScrubItems(items, depth, h) == HashItems(RedactItems(items, depth), h)
    decreases items, 0
  {
    if items != [] {
      var front, last := items[..|items| - 1], items[|items| - 1];
      ScrubItemsCompose(front, depth, h);
      ScrubIsRedactThenHash(last, depth + 1, h);
      var r := RedactItems(items, depth);
      assert r[..|r| - 1] == RedactItems(front, depth);
    }
  }

  lemma {:induction false} ScrubFieldsCompose(fields: seq<(string, Value)>, depth: nat, h: Hasher)
    ensures ScrubFields(fields, depth, h) == HashFields(RedactFields(fields, depth), h)
    decreases fields, 0
  {
    if fields != [] {
      var front, last := fields[..|fields| - 1], fields[|fields| - 1];
      ScrubFieldsCompose(front, depth, h);
      ScrubFieldComposes(last, depth, h);
      var r := RedactFields(fields, depth);
      assert r[..|r| - 1] == RedactFields(front, depth);
    }
  }

  lemma {:induction false} ScrubFieldComposes(field: (string, Value), depth: nat, h: Hasher)
    ensures ScrubField(field, depth, h) == HashField(RedactField(field, depth), h)
    decreases field, 0
  {
    hide Sensitive;
    MarksHoldNoAddress(h);
    ScrubIsRedactThenHash(field.1, depth + 1, h);
  }

  // ---------------------------------------------------------------------------
  // What a scrubbed value looks like
  // ---------------------------------------------------------------------------

  /**
   Nothing left to redact: no string leaf holds a word-bounded key, every sensitive field holds the
   marker, and whatever stands at the depth limit is the limit marker.
   */
  predicate Clean(v: Value, depth: nat)
    decreases v, 0
  {
    if depth >= DEPTH_LIMIT then v == LIMIT_MARK
    else
      match v
      case Str(s) => !HasMatch(s)
      case Arr(items) => forall i | 0 <= i < |items| :: Clean(items[i], depth + 1)
      case Obj(fields) => forall i | 0 <= i < |fields| :: CleanField(fields[i], depth)
      case _ => true
  }

  predicate CleanField(field: (string, Value), depth: nat)
    decreases field, 0
  {
    if Sensitive(field.0, REDACTED_FIELDS) then field.1 == REDACTED_MARK else Clean(field.1, depth + 1)
  }

  lemma {:induction false} ItemsPointwise(items: seq<Value>, depth: nat, h: Hasher)
    ensures |ScrubItems(items, depth, h)| == |items|
    ensures forall i | 0 <= i < |items| :: ScrubItems(items, depth, h)[i] == ScrubSpec(items[i], depth + 1, h)
  {
    hide ScrubSpec;
    if items != [] { ItemsPointwise(items[..|items| - 1], depth, h); }
  }

  lemma {:induction false} FieldsPointwise(fields: seq<(string, Value)>, depth: nat, h: Hasher)
    ensures |ScrubFields(fields, depth, h)| == |fields|
    ensures forall i | 0 <= i < |fields| :: ScrubFields(fields, depth, h)[i] == ScrubField(fields[i], depth, h)
  {
    hide ScrubField;
    if fields != [] { FieldsPointwise(fields[..|fields| - 1], depth, h); }
  }

  lemma {:induction false} ScrubbedIsClean(v: Value, depth: nat, h: Hasher)
    ensures Clean(ScrubSpec(v, depth, h), depth)
    decreases v, 0
  {
    hide HasMatch;
    hide Redacted;
    if depth < DEPTH_LIMIT {
      match v
      case Str(s) => RedactedHasNoMatch(s, h);
      case Arr(items) =>
        ItemsPointwise(items, depth, h);
        forall i | 0 <= i < |items| ensures Clean(ScrubSpec(items[i], depth + 1, h), depth + 1) {
          ScrubbedIsClean(items[i], depth + 1, h);
        }
      case Obj(fields) =>
        FieldsPointwise(fields, depth, h);
        forall i | 0 <= i < |fields| ensures CleanField(ScrubField(fields[i], depth, h), depth) {
          ScrubbedFieldIsClean(fields[i], depth, h);
        }
      case _ =>
    }
  }

  lemma {:induction false} ScrubbedFieldIsClean(field: (string, Value), depth: nat, h: Hasher)
    ensures CleanField(ScrubField(field, depth, h), depth)
    decreases field, 0
  {
    hide Sensitive;
    ScrubbedIsClean(field.1, depth + 1, h);
  }

  /** Scrubbing leaves a value alone exactly when there is nothing left to redact in it. */
  lemma {:induction false} ScrubFixesIff(v: Value, depth: nat, h: Hasher)
    ensures ScrubSpec(v, depth, h) == v <==> Clean(v, depth)
    decreases v, 0
  {
    hide HasMatch;
    hide Redacted;
    if depth < DEPTH_LIMIT {
      match v
      case Str(s) => RedactedFixes(s, h);
      case Arr(items) =>
        ItemsPointwise(items, depth, h);
        forall i | 0 <= i < |items|
          ensures ScrubSpec(items[i], depth + 1, h) == items[i] <==> Clean(items[i], depth + 1)
        {
          ScrubFixesIff(items[i], depth + 1, h);
        }
        assert ScrubItems(items, depth, h) == items <==>
               forall i | 0 <= i < |items| :: ScrubItems(items, depth, h)[i] == items[i];
      case Obj(fields) =>
        FieldsPointwise(fields, depth, h);
        forall i | 0 <= i < |fields|
          ensures ScrubField(fields[i], depth, h) == fields[i] <==> CleanField(fields[i], depth)
        {
          ScrubFixesFieldIff(fields[i], depth, h);
        }
        assert ScrubFields(fields, depth, h) == fields <==>
               forall i | 0 <= i < |fields| :: ScrubFields(fields, depth, h)[i] == fields[i];
      case _ =>
    }
  }

  lemma {:induction false} ScrubFixesFieldIff(field: (string, Value), depth: nat, h: Hasher)
    ensures ScrubField(field, depth, h) == field <==> CleanField(field, depth)
    decreases field, 0
  {
    hide Sensitive;
    ScrubFixesIff(field.1, depth + 1, h);
  }

  /** Scrubbing twice is scrubbing once. */
  lemma ScrubIsIdempotent(v: Value, h: Hasher)
    ensures ScrubSpec(ScrubSpec(v, 0, h), 0, h) == ScrubSpec(v, 0, h)
  {
    ScrubbedIsClean(v, 0, h);
    ScrubFixesIff(ScrubSpec(v, 0, h), 0, h);
  }

  // ---------------------------------------------------------------------------
  // The same, for every node of the result
  // ---------------------------------------------------------------------------

  function Children(v: Value): seq<Value> {
    match v
    case Arr(items) => items
    case Obj(fields) => seq(|fields|, i requires 0 <= i < |fields| => fields[i].1)
    case _ => []
  }

  predicate IsNode(v: Value, path: seq<nat>)
    decreases |path|
  {
    path == [] || (path[0] < |Children(v)| && IsNode(Children(v)[path[0]], path[1..]))
  }

  /** The node reached by following child positions. */
  function NodeAt(v: Value, path: seq<nat>): Value
    requires IsNode(v, path)
    decreases |path|
  {
    if path == [] then v else NodeAt(Children(v)[path[0]], path[1..])
  }

  predicate CleanHere(v: Value) {
    && (v.Str? ==> !HasMatch(v.s))
    && (v.Obj? ==> forall f | f in v.fields && Sensitive(f.0, REDACTED_FIELDS) :: f.1 == Str("[REDACTED]"))
  }

  lemma MarkersAreCleanLeaves(m: Value)
    requires m == LIMIT_MARK || m == REDACTED_MARK
    ensures CleanHere(m) && Children(m) == []
  {
    MarksHoldNoAddress(_ => seq(16, _ => '0'));
  }

  lemma LeafNode(m: Value, path: seq<nat>)
    requires Children(m) == [] && IsNode(m, path)
    ensures path == [] && NodeAt(m, path) == m
  {
  }

  lemma FieldsCleanHere(fields: seq<(string, Value)>, depth: nat)
    requires forall i | 0 <= i < |fields| :: CleanField(fields[i], depth)
    ensures CleanHere(Obj(fields))
    ensures forall k | 0 <= k < |fields| :: Clean(fields[k].1, depth + 1) || fields[k].1 == REDACTED_MARK
  {
    hide Sensitive;
    hide HasMatch;
    hide Clean;
    forall f | f in fields && Sensitive(f.0, REDACTED_FIELDS) ensures f.1 == REDACTED_MARK {
      var i :| 0 <= i < |fields| && fields[i] == f;
      assert CleanField(fields[i], depth);
    }
    forall k | 0 <= k < |fields| ensures Clean(fields[k].1, depth + 1) || fields[k].1 == REDACTED_MARK {
      assert CleanField(fields[k], depth);
    }
  }

  lemma CleanMeansCleanHere(v: Value, depth: nat)
    requires depth < DEPTH_LIMIT && Clean(v, depth)
    ensures CleanHere(v)
    ensures forall k | 0 <= k < |Children(v)| :: Clean(Children(v)[k], depth + 1) || Children(v)[k] == REDACTED_MARK
  {
    hide HasMatch;
    hide Sensitive;
    if v.Obj? {
      FieldsCleanHere(v.fields, depth);
    }
  }

  lemma {:induction false} CleanNode(v: Value, depth: nat, path: seq<nat>)
    requires depth <= DEPTH_LIMIT && IsNode(v, path)
    requires Clean(v, depth) || v == REDACTED_MARK
    ensures depth + |path| <= DEPTH_LIMIT && CleanHere(NodeAt(v, path))
    decreases |path|
  {
    if v == REDACTED_MARK || depth == DEPTH_LIMIT {
      MarkersAreCleanLeaves(v);
      LeafNode(v, path);
    } else {
      CleanMeansCleanHere(v, depth);
      hide CleanHere;
      hide Clean;
      if path != [] {
        CleanNode(Children(v)[path[0]], depth + 1, path[1..]);
      }
    }
  }

  /**
   For every value, every node of the scrubbed result: none is deeper than 10, no string holds a
   word-bounded Stellar key, and every sensitive field holds the marker.
   */
  lemma ScrubbedNodes(v: Value, h: Hasher, path: seq<nat>)
    requires IsNode(ScrubSpec(v, 0, h), path)
    ensures |path| <= 10 && CleanHere(NodeAt(ScrubSpec(v, 0, h), path))
  {
    ScrubbedIsClean(v, 0, h);
    CleanNode(ScrubSpec(v, 0, h), 0, path);
  }

  // ---------------------------------------------------------------------------
  // Nothing else is lost
  // ---------------------------------------------------------------------------

  /** Following the path never enters a field with a sensitive name. */
  predicate OutsideSensitive(v: Value, path: seq<nat>, names: seq<string>)
    requires IsNode(v, path)
    decreases |path|
  {
    path == [] ||
    (!(v.Obj? && Sensitive(v.fields[path[0]].0, names)) && OutsideSensitive(Children(v)[path[0]], path[1..], names))
  }

  /**
   Arrays of the same length, objects with the same keys and the marker under every sensitive one, and
   anything else as it is, strings through `s`.
   */
  predicate Corresponds(before: Value, after: Value, names: seq<string>, s: string -> string) {
    match before
    case Str(text) => after == Str(s(text))
    case Arr(items) => after.Arr? && |after.items| == |items|
    case Obj(fields) =>
      && after.Obj? && |after.fields| == |fields|
      && forall i | 0 <= i < |fields| ::
           && after.fields[i].0 == fields[i].0
           && (Sensitive(fields[i].0, names) ==> after.fields[i].1 == Str("[REDACTED]"))
    case _ => after == before
  }

  function Hashed(h: Hasher): string -> string { (text: string) => Redacted(text, h) }

  const AS_IS := (text: string) => text

  lemma ScrubbedTop(v: Value, depth: nat, h: Hasher)
    requires depth < 10
    ensures Corresponds(v, ScrubSpec(v, depth, h), REDACTED_FIELDS, Hashed(h))
    ensures |Children(ScrubSpec(v, depth, h))| == |Children(v)|
    ensures forall k | 0 <= k < |Children(v)| && !(v.Obj? && Sensitive(v.fields[k].0, REDACTED_FIELDS)) ::
              Children(ScrubSpec(v, depth, h))[k] == ScrubSpec(Children(v)[k], depth + 1, h)
  {
    hide Sensitive;
    hide HasMatch;
    hide Redacted;
    match v
    case Str(s) => RedactedFixes(s, h);
    case Arr(items) => ItemsPointwise(items, depth, h);
    case Obj(fields) => FieldsPointwise(fields, depth, h);
    case _ =>
  }

  /**
   What stands in a scrubbed value for each node of the input that no sensitive field holds: its counterpart
   above depth 10, the limit marker at depth 10.
   */
  lemma {:induction false} ScrubKeepsTheRest(v: Value, depth: nat, h: Hasher, path: seq<nat>)
    requires depth + |path| <= 10 && IsNode(v, path) && OutsideSensitive(v, path, REDACTED_FIELDS)
    ensures var r := ScrubSpec(v, depth, h);
            && IsNode(r, path)
            && (depth + |path| == 10 ==> NodeAt(r, path) == Str("[DEPTH_LIMIT]"))
            && (depth + |path| < 10 ==>
                  Corresponds(NodeAt(v, path), NodeAt(r, path), REDACTED_FIELDS, Hashed(h)))
    decreases |path|
  {
    if depth < 10 {
      ScrubbedTop(v, depth, h);
      hide ScrubSpec;
      hide Corresponds;
      hide Sensitive;
      hide Children;
      hide Redacted;
      if path != [] {
        var k, rest := path[0], path[1..];
        assert Children(ScrubSpec(v, depth, h))[k] == ScrubSpec(Children(v)[k], depth + 1, h);
        ScrubKeepsTheRest(Children(v)[k], depth + 1, h, rest);
      }
    }
  }

  lemma RedactedTop(v: Value, depth: nat)
    requires depth < 10
    ensures Corresponds(v, RedactSpec(v, depth), REDACTED_FIELDS, AS_IS)
    ensures |Children(RedactSpec(v, depth))| == |Children(v)|
    ensures forall k | 0 <= k < |Children(v)| && !(v.Obj? && Sensitive(v.fields[k].0, REDACTED_FIELDS)) ::
              Children(RedactSpec(v, depth))[k] == RedactSpec(Children(v)[k], depth + 1)
  {
    hide Sensitive;
    RedactPointwise(v, depth, REDACTED_FIELDS);
  }

  /** The same for the telemetry redaction that keeps addresses. */
  lemma {:induction false} RedactKeepsTheRest(v: Value, depth: nat, path: seq<nat>)
    requires depth + |path| <= 10 && IsNode(v, path) && OutsideSensitive(v, path, REDACTED_FIELDS)
    ensures var r := RedactSpec(v, depth);
            && IsNode(r, path)
            && (depth + |path| == 10 ==> NodeAt(r, path) == Str("[DEPTH_LIMIT]"))
            && (depth + |path| < 10 ==> Corresponds(NodeAt(v, path), NodeAt(r, path), REDACTED_FIELDS, AS_IS))
    decreases |path|
  {
    if depth < 10 {
      RedactedTop(v, depth);
      hide RedactSpec;
      hide Corresponds;
      hide Sensitive;
      hide Children;
      if path != [] {
        var k, rest := path[0], path[1..];
        assert Children(RedactSpec(v, depth))[k] == RedactSpec(Children(v)[k], depth + 1);
        RedactKeepsTheRest(Children(v)[k], depth + 1, rest);
      }
    }
  }

  lemma PlainTop(v: Value, names: seq<string>)
    ensures Corresponds(v, PlainSpec(v, names), names, AS_IS)
    ensures |Children(PlainSpec(v, names))| == |Children(v)|
    ensures forall k | 0 <= k < |Children(v)| && !(v.Obj? && Sensitive(v.fields[k].0, names)) ::
              Children(PlainSpec(v, names))[k] == PlainSpec(Children(v)[k], names)
  {
    hide Sensitive;
    RedactPointwise(v, 0, names);
  }

  /** The log redaction, for any list of names: every node that no sensitive field holds has its counterpart. */
  lemma {:induction false} LogKeepsTheRest(v: Value, names: seq<string>, path: seq<nat>)
    requires IsNode(v, path) && OutsideSensitive(v, path, names)
    ensures IsNode(PlainSpec(v, names), path)
    ensures Corresponds(NodeAt(v, path), NodeAt(PlainSpec(v, names), path), names, AS_IS)
    decreases |path|
  {
    PlainTop(v, names);
    hide PlainSpec;
    hide Corresponds;
    hide Sensitive;
    hide Children;
    if path != [] {
      var k, rest := path[0], path[1..];
      assert Children(PlainSpec(v, names))[k] == PlainSpec(Children(v)[k], names);
      LogKeepsTheRest(Children(v)[k], names, rest);
    }
  }

  // ---------------------------------------------------------------------------
  // The depth-limited and the unlimited redaction
  // ---------------------------------------------------------------------------

  /** Outside sensitive fields, every node at depth 10 already is the limit marker. */
  predicate MarkedAtLimit(v: Value, depth: nat)
    decreases v, 0
  {
    if depth >= DEPTH_LIMIT then v == LIMIT_MARK
    else
      match v
      case Arr(items) => forall i | 0 <= i < |items| :: MarkedAtLimit(items[i], depth + 1)
      case Obj(fields) => forall i | 0 <= i < |fields| :: FieldMarkedAtLimit(fields[i], depth)
      case _ => true
  }

  predicate FieldMarkedAtLimit(field: (string, Value), depth: nat)
    decreases field, 0
  {
    Sensitive(field.0, REDACTED_FIELDS) || MarkedAtLimit(field.1, depth + 1)
  }

  lemma {:induction false} RedactPointwise(v: Value, depth: nat, names: seq<string>)
    ensures v.Arr? ==>
              var r, p := RedactItems(v.items, depth), PlainItems(v.items, names);
              |r| == |p| == |v.items| && forall i | 0 <= i < |v.items| ::
                r[i] == RedactSpec(v.items[i], depth + 1) && p[i] == PlainSpec(v.items[i], names)
    ensures v.Obj? ==>
              var r, p := RedactFields(v.fields, depth), PlainFields(v.fields, names);
              |r| == |p| == |v.fields| && forall i | 0 <= i < |v.fields| ::
                r[i] == RedactField(v.fields[i], depth) && p[i] == PlainField(v.fields[i], names)
    decreases if v.Arr? then |v.items| else if v.Obj? then |v.fields| else 0
  {
    hide RedactSpec;
    hide PlainSpec;
    hide RedactField;
    hide PlainField;
    if v.Arr? && v.items != [] {
      RedactPointwise(Arr(v.items[..|v.items| - 1]), depth, names);
    }
    if v.Obj? && v.fields != [] {
      RedactPointwise(Obj(v.fields[..|v.fields| - 1]), depth, names);
    }
  }

  /** The two redactions agree exactly when the limit would replace nothing but its own marker. */
  lemma {:induction false} RedactionsAgreeIff(v: Value, depth: nat)
    ensures RedactSpec(v, depth) == PlainSpec(v, REDACTED_FIELDS) <==> MarkedAtLimit(v, depth)
    decreases v, 0
  {
    if depth < DEPTH_LIMIT {
      RedactPointwise(v, depth, REDACTED_FIELDS);
      match v
      case Arr(items) =>
        forall i | 0 <= i < |items|
          ensures RedactSpec(items[i], depth + 1) == PlainSpec(items[i], REDACTED_FIELDS)
                  <==> MarkedAtLimit(items[i], depth + 1)
        {
          RedactionsAgreeIff(items[i], depth + 1);
        }
        var r, p := RedactItems(items, depth), PlainItems(items, REDACTED_FIELDS);
        assert r == p <==> forall i | 0 <= i < |items| :: r[i] == p[i];
      case Obj(fields) =>
        forall i | 0 <= i < |fields|
          ensures RedactField(fields[i], depth) == PlainField(fields[i], REDACTED_FIELDS)
                  <==> FieldMarkedAtLimit(fields[i], depth)
        {
          FieldRedactionsAgreeIff(fields[i], depth);
        }
        var r, p := RedactFields(fields, depth), PlainFields(fields, REDACTED_FIELDS);
        assert r == p <==> forall i | 0 <= i < |fields| :: r[i] == p[i];
      case _ =>
    }
  }

  lemma {:induction false} FieldRedactionsAgreeIff(field: (string, Value), depth: nat)
    ensures RedactField(field, depth) == PlainField(field, REDACTED_FIELDS) <==> FieldMarkedAtLimit(field, depth)
    decreases field, 0
  {
    hide Sensitive;
    RedactionsAgreeIff(field.1, depth + 1);
  }

  /** No node outside sensitive fields is deeper than n. */
  predicate ShallowOutsideSensitive(v: Value, n: int)
    decreases v, 0
  {
    n >= 0 &&
    match v
    case Arr(items) => forall i | 0 <= i < |items| :: ShallowOutsideSensitive(items[i], n - 1)
    case Obj(fields) => forall i | 0 <= i < |fields| :: ShallowField(fields[i], n)
    case _ => true
  }

  predicate ShallowField(field: (string, Value), n: int)
    decreases field, 0
  {
    Sensitive(field.0, REDACTED_FIELDS) || ShallowOutsideSensitive(field.1, n - 1)
  }

  lemma {:induction false} ShallowIsMarked(v: Value, depth: nat)
    requires depth < DEPTH_LIMIT && ShallowOutsideSensitive(v, DEPTH_LIMIT - 1 - depth)
    ensures MarkedAtLimit(v, depth)
    decreases v, 0
  {
    match v
    case Arr(items) =>
      forall i | 0 <= i < |items| ensures MarkedAtLimit(items[i], depth + 1) {
        assert ShallowOutsideSensitive(items[i], DEPTH_LIMIT - 2 - depth);
        ShallowIsMarked(items[i], depth + 1);
      }
    case Obj(fields) =>
      forall i | 0 <= i < |fields| ensures FieldMarkedAtLimit(fields[i], depth) {
        assert ShallowField(fields[i], DEPTH_LIMIT - 1 - depth);
        ShallowFieldIsMarked(fields[i], depth);
      }
    case _ =>
  }

  lemma {:induction false} ShallowFieldIsMarked(field: (string, Value), depth: nat)
    requires depth < DEPTH_LIMIT && ShallowField(field, DEPTH_LIMIT - 1 - depth)
    ensures FieldMarkedAtLimit(field, depth)
    decreases field, 0
  {
    hide Sensitive;
    if ShallowOutsideSensitive(field.1, DEPTH_LIMIT - 2 - depth) {
      ShallowIsMarked(field.1, depth + 1);
    }
  }

  /** On values no deeper than 9 outside sensitive fields, the request log and the telemetry agree. */
  lemma ShallowRedactionsAgree(v: Value)
    requires ShallowOutsideSensitive(v, DEPTH_LIMIT - 1)
    ensures RedactSpec(v, 0) == PlainSpec(v, REDACTED_FIELDS)
  {
    ShallowIsMarked(v, 0);
    RedactionsAgreeIff(v, 0);
  }
}
