/** The three recursive redactions of telemetry and log values. */
module Redaction {
  import opened WalletAddresses

  /** A JavaScript value without cycles; field names are distinct and keep their order. */
  datatype Value =
    | Null | Undefined | Bool(b: bool) | Number(n: real) | Str(s: string)
    | Arr(items: seq<Value>) | Obj(fields: seq<(string, Value)>)

  const DEPTH_LIMIT := 10

  const LIMIT_MARK := Str("[DEPTH_LIMIT]")

  const REDACTED_MARK := Str("[REDACTED]")

  const REDACTED_FIELDS: seq<string> := [
    "authorization", "token", "signature", "mnemonic", "seed", "password", "privatekey", "secret", "x-api-key",
    "cookie", "session", "jwt", "bearer", "email", "emailaddress", "user_email", "useremail"
  ]

  /** `toLowerCase` on the letters whose lower case is ASCII: A to Z and the Kelvin sign. */
  function LowerChar(c: char): char {
    if 'A' <= c <= 'Z' then (c as int + 32) as char
    else if c == '\U{212A}' then 'k'
    else c
  }

  function Lower(s: string): (r: string)
    ensures |r| == |s| && forall i | 0 <= i < |s| :: r[i] == LowerChar(s[i])
  {
    if s == "" then "" else [LowerChar(s[0])] + Lower(s[1..])
  }

  predicate Sensitive(key: string, fields: seq<string>) { Lower(key) in fields }

  // ---------------------------------------------------------------------------
  // What each redaction returns
  // ---------------------------------------------------------------------------

  /** `redactSensitive(v, depth)`. */
  function RedactSpec(v: Value, depth: nat): Value
    decreases v, 0
  {
    if depth >= DEPTH_LIMIT then LIMIT_MARK
    else
      match v
      case Arr(items) => Arr(RedactItems(items, depth))
      case Obj(fields) => Obj(RedactFields(fields, depth))
      case _ => v
  }

  function RedactItems(items: seq<Value>, depth: nat): seq<Value>
    decreases items, 0
  {
    if items == [] then [] else RedactItems(items[..|items| - 1], depth) + [RedactSpec(items[|items| - 1], depth + 1)]
  }

  function RedactField(field: (string, Value), depth: nat): (string, Value)
    decreases field, 0
  {
    (field.0, if Sensitive(field.0, REDACTED_FIELDS) then REDACTED_MARK else RedactSpec(field.1, depth + 1))
  }

  function RedactFields(fields: seq<(string, Value)>, depth: nat): seq<(string, Value)>
    decreases fields, 0
  {
    if fields == [] then []
    else RedactFields(fields[..|fields| - 1], depth) + [RedactField(fields[|fields| - 1], depth)]
  }

  /** `scrubPii(v, depth)`. */
  function ScrubSpec(v: Value, depth: nat, h: Hasher): Value
    decreases v, 0
  {
    if depth >= DEPTH_LIMIT then LIMIT_MARK
    else
      match v
      case Str(s) => if HasMatch(s) then Str(Redacted(s, h)) else v
      case Arr(items) => Arr(ScrubItems(items, depth, h))
      case Obj(fields) => Obj(ScrubFields(fields, depth, h))
      case _ => v
  }

  function ScrubItems(items: seq<Value>, depth: nat, h: Hasher): seq<Value>
    decreases items, 0
  {
    if items == [] then []
    else ScrubItems(items[..|items| - 1], depth, h) + [ScrubSpec(items[|items| - 1], depth + 1, h)]
  }

  function ScrubField(field: (string, Value), depth: nat, h: Hasher): (string, Value)
    decreases field, 0
  {
    (field.0, if Sensitive(field.0, REDACTED_FIELDS) then REDACTED_MARK else ScrubSpec(field.1, depth + 1, h))
  }

  function ScrubFields(fields: seq<(string, Value)>, depth: nat, h: Hasher): seq<(string, Value)>
    decreases fields, 0
  {
    if fields == [] then []
    else ScrubFields(fields[..|fields| - 1], depth, h) + [ScrubField(fields[|fields| - 1], depth, h)]
  }

  /** `redact(v, sensitive)`: no depth limit. */
  function PlainSpec(v: Value, sensitive: seq<string>): Value
    decreases v, 0
  {
    match v
    case Arr(items) => Arr(PlainItems(items, sensitive))
    case Obj(fields) => Obj(PlainFields(fields, sensitive))
    case _ => v
  }

  function PlainItems(items: seq<Value>, sensitive: seq<string>): seq<Value>
    decreases items, 0
  {
    if items == [] then []
    else PlainItems(items[..|items| - 1], sensitive) + [PlainSpec(items[|items| - 1], sensitive)]
  }

  function PlainField(field: (string, Value), sensitive: seq<string>): (string, Value)
    decreases field, 0
  {
    (field.0, if Sensitive(field.0, sensitive) then REDACTED_MARK else PlainSpec(field.1, sensitive))
  }

  function PlainFields(fields: seq<(string, Value)>, sensitive: seq<string>): seq<(string, Value)>
    decreases fields, 0
  {
    if fields == [] then []
    else PlainFields(fields[..|fields| - 1], sensitive) + [PlainField(fields[|fields| - 1], sensitive)]
  }

  // ---------------------------------------------------------------------------
  // The redactions themselves
  // ---------------------------------------------------------------------------

  method RedactSensitive(input: Value, depth: nat) returns (r: Value)
    ensures r == RedactSpec(input, depth)
    decreases input
  {
    if depth >= DEPTH_LIMIT {
      return LIMIT_MARK;
    }
    match input
    case Arr(items) =>
      var out: seq<Value> := [];
      for i := 0 to |items|
        invariant out == RedactItems(items[..i], depth)
      {
        assert items[..i + 1][..i] == items[..i];
        var item := RedactSensitive(items[i], depth + 1);
        out := out + [item];
      }
      assert items[..|items|] == items;
      return Arr(out);
    case Obj(fields) =>
      var result: seq<(string, Value)> := [];
      for i := 0 to |fields|
        invariant result == RedactFields(fields[..i], depth)
      {
        assert fields[..i + 1][..i] == fields[..i];
        var (key, value) := fields[i];
        if Sensitive(key, REDACTED_FIELDS) {
          result := result + [(key, REDACTED_MARK)];
        } else {
          var inner := RedactSensitive(value, depth + 1);
          result := result + [(key, inner)];
        }
      }
      assert fields[..|fields|] == fields;
      return Obj(result);
    case _ =>
      return input;
  }

  method ScrubPii(input: Value, depth: nat, h: Hasher) returns (r: Value)
    ensures r == ScrubSpec(input, depth, h)
    decreases input
  {
    if depth >= DEPTH_LIMIT {
      return LIMIT_MARK;
    }
    match input
    case Str(s) =>
      if HasMatch(s) {
        var redacted := RedactWalletAddresses(s, h);
        return Str(redacted);
      }
      return input;
    case Arr(items) =>
      var out: seq<Value> := [];
      for i := 0 to |items|
        invariant out == ScrubItems(items[..i], depth, h)
      {
        assert items[..i + 1][..i] == items[..i];
        var item := ScrubPii(items[i], depth + 1, h);
        out := out + [item];
      }
      assert items[..|items|] == items;
      return Arr(out);
    case Obj(fields) =>
      var result: seq<(string, Value)> := [];
      for i := 0 to |fields|
        invariant result == ScrubFields(fields[..i], depth, h)
      {
        assert fields[..i + 1][..i] == fields[..i];
        var (key, value) := fields[i];
        if Sensitive(key, REDACTED_FIELDS) {
          result := result + [(key, REDACTED_MARK)];
        } else {
          var inner := ScrubPii(value, depth + 1, h);
          result := result + [(key, inner)];
        }
      }
      assert fields[..|fields|] == fields;
      return Obj(result);
    case _ =>
      return input;
  }

  method Redact(obj: Value, sensitive: seq<string>) returns (r: Value)
    ensures r == PlainSpec(obj, sensitive)
    decreases obj
  {
    match obj
    case Arr(items) =>
      var out: seq<Value> := [];
      for i := 0 to |items|
        invariant out == PlainItems(items[..i], sensitive)
      {
        assert items[..i + 1][..i] == items[..i];
        var item := Redact(items[i], sensitive);
        out := out + [item];
      }
      assert items[..|items|] == items;
      return Arr(out);
    case Obj(fields) =>
      var result: seq<(string, Value)> := [];
      for i := 0 to |fields|
        invariant result == PlainFields(fields[..i], sensitive)
      {
        assert fields[..i + 1][..i] == fields[..i];
        var (key, value) := fields[i];
        if Sensitive(key, sensitive) {
          result := result + [(key, REDACTED_MARK)];
        } else {
          var inner := Redact(value, sensitive);
          result := result + [(key, inner)];
        }
      }
      assert fields[..|fields|] == fields;
      return Obj(result);
    case _ =>
      return obj;
  }
}
