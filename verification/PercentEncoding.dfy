/** `decodeURIComponent`, against the percent-encodings of section 2.1 of RFC 3986 over UTF-8. */
module PercentEncoding {
  import opened Basics

  type Byte = b: int | 0 <= b < 256

  function HexValue(c: char): (r: Option<int>)
    ensures r.Some? ==> 0 <= r.value < 16
  {
    if '0' <= c <= '9' then Some(c as int - '0' as int)
    else if 'A' <= c <= 'F' then Some(c as int - 'A' as int + 10)
    else if 'a' <= c <= 'f' then Some(c as int - 'a' as int + 10)
    else None
  }

  /** The byte spelled `%XX` at position i. */
  function ByteAt(e: string, i: nat): (r: Option<int>)
    ensures r.Some? ==> 0 <= r.value < 256 && i + 3 <= |e|
  {
    if i + 3 <= |e| && e[i] == '%' && HexValue(e[i + 1]).Some? && HexValue(e[i + 2]).Some?
    then Some(16 * HexValue(e[i + 1]).value + HexValue(e[i + 2]).value)
    else None
  }

  function Utf8(c: char): (b: seq<Byte>)
    ensures 1 <= |b| <= 4
  {
    var v := c as int;
    if v < 0x80 then [v]
    else if v < 0x800 then [0xC0 + v / 64, 0x80 + v % 64]
    else if v < 0x10000 then [0xE0 + v / 4096, 0x80 + (v / 64) % 64, 0x80 + v % 64]
    else [0xF0 + v / 262144, 0x80 + (v / 4096) % 64, 0x80 + (v / 64) % 64, 0x80 + v % 64]
  }

  /** How many bytes the first byte announces; 0 when it cannot start a character. */
  function SequenceLength(b: int): (n: nat)
    ensures n <= 4
  {
    if 0 <= b < 0x80 then 1
    else if 0xC0 <= b < 0xE0 then 2
    else if 0xE0 <= b < 0xF0 then 3
    else if 0xF0 <= b < 0xF8 then 4
    else 0
  }

  predicate Continues(b: int) { 0x80 <= b < 0xC0 }

  /** The scalar value of one UTF-8 sequence; overlong forms, surrogates and values past U+10FFFF are invalid. */
  function ScalarOf(b: seq<int>): Option<char>
    requires |b| > 0
  {
    if |b| == 1 && 0 <= b[0] < 0x80 then Some(b[0] as char)
    else if |b| == 2 && 0xC2 <= b[0] < 0xE0 && Continues(b[1]) then
      Some(((b[0] - 0xC0) * 64 + (b[1] - 0x80)) as char)
    else if |b| == 3 && 0xE0 <= b[0] < 0xF0 && Continues(b[1]) && Continues(b[2]) then
      var v := (b[0] - 0xE0) * 4096 + (b[1] - 0x80) * 64 + (b[2] - 0x80);
      if v < 0x800 || 0xD800 <= v < 0xE000 then None else Some(v as char)
    else if |b| == 4 && 0xF0 <= b[0] < 0xF8 && Continues(b[1]) && Continues(b[2]) && Continues(b[3]) then
      var v := (b[0] - 0xF0) * 262144 + (b[1] - 0x80) * 4096 + (b[2] - 0x80) * 64 + (b[3] - 0x80);
      if v < 0x10000 || v > 0x10FFFF then None else Some(v as char)
    else None
  }

  /** The first n escaped bytes. */
  function Bytes(e: string, n: nat): (r: Option<seq<int>>)
    ensures r.Some? ==> |r.value| == n && 3 * n <= |e| && forall i | 0 <= i < n :: ByteAt(e, 3 * i) == Some(r.value[i])
    ensures r.None? ==> exists i | 0 <= i < n :: ByteAt(e, 3 * i).None?
  {
    if n == 0 then Some([])
    else
      var front := Bytes(e, n - 1);
      if front.None? || ByteAt(e, 3 * (n - 1)).None? then None
      else Some(front.value + [ByteAt(e, 3 * (n - 1)).value])
  }

  /** The character whose escape starts the string, and the length of that escape. */
  function EscapedChar(e: string): (r: Option<(char, nat)>)
    ensures r.Some? ==> 3 <= r.value.1 <= |e|
  {
    var b0 := ByteAt(e, 0);
    if b0.None? then None
    else
      var n := SequenceLength(b0.value);
      if n == 0 then None
      else
        var bytes := Bytes(e, n);
        if bytes.None? || ScalarOf(bytes.value).None? then None else Some((ScalarOf(bytes.value).value, 3 * n))
  }

  /** `decodeURIComponent`; None stands for the URIError it throws. */
  function Decode(e: string): Option<string>
    decreases |e|
  {
    if e == "" then Some("")
    else if e[0] != '%' then
      var rest := Decode(e[1..]);
      if rest.None? then None else Some([e[0]] + rest.value)
    else
      var first := EscapedChar(e);
      if first.None? then None
      else
        var rest := Decode(e[first.value.1..]);
        if rest.None? then None else Some([first.value.0] + rest.value)
  }

  // ---------------------------------------------------------------------------
  // Every encoding of a string decodes to that string
  // ---------------------------------------------------------------------------

  /** `e` starts with the escaped bytes of `c`, in hex digits of either case. */
  predicate StartsWithEscape(e: string, c: char) {
    var b := Utf8(c);
    3 * |b| <= |e| && forall i | 0 <= i < |b| :: ByteAt(e, 3 * i) == Some(b[i])
  }

  /** `e` spells `p`: each character is escaped, or kept as it is unless it is a percent sign. */
  predicate Spells(e: string, p: string)
    decreases |p|
  {
    if p == "" then e == ""
    else if e != "" && e[0] != '%' then e[0] == p[0] && Spells(e[1..], p[1..])
    else StartsWithEscape(e, p[0]) && Spells(e[3 * |Utf8(p[0])|..], p[1..])
  }

  /**
   `e` is an encoding of `p`: it spells `p` and holds none of the characters that end the path of a URL.
   Which of the other characters are escaped is the encoder's choice.
   */
  predicate Encodes(e: string, p: string) { '?' !in e && '#' !in e && Spells(e, p) }

  lemma ScalarOfUtf8(c: char)
    ensures ScalarOf(Utf8(c)) == Some(c)
    ensures SequenceLength(Utf8(c)[0]) == |Utf8(c)|
  {
    var v := c as int;
    var d0, d1, d2, d3 := v % 64, (v / 64) % 64, (v / 4096) % 64, v / 262144;
    if v < 0x800 {
      assert v == v / 64 * 64 + d0;
    } else if v < 0x10000 {
      Digits(v);
      assert d2 == v / 4096;
    } else {
      Digits(v);
      assert 0 <= d3 <= 4;
    }
  }

  lemma Digits(v: int)
    requires v >= 0
    ensures v == v / 262144 * 262144 + (v / 4096) % 64 * 4096 + (v / 64) % 64 * 64 + v % 64
    ensures v < 0x40000 ==> v / 262144 == 0
  {
    assert v / 4096 == v / 64 / 64 && v / 262144 == v / 4096 / 64;
  }

  lemma EscapeIsRead(e: string, c: char)
    requires StartsWithEscape(e, c)
    ensures EscapedChar(e) == Some((c, 3 * |Utf8(c)|))
  {
    ScalarOfUtf8(c);
    var b := Utf8(c);
    assert ByteAt(e, 3 * 0) == Some(b[0]);
    assert Bytes(e, |b|).value == b;
  }

  lemma {:induction false} SpelledIsDecoded(e: string, p: string)
    requires Spells(e, p)
    ensures Decode(e) == Some(p)
    decreases |p|
  {
    if p != "" {
      assert [p[0]] + p[1..] == p;
      if e != "" && e[0] != '%' {
        SpelledIsDecoded(e[1..], p[1..]);
      } else {
        EscapeIsRead(e, p[0]);
        SpelledIsDecoded(e[3 * |Utf8(p[0])|..], p[1..]);
      }
    }
  }

  /** Decoding recovers a string from every encoding of it. */
  lemma DecodeInvertsEncode(e: string, p: string)
    requires Encodes(e, p)
    ensures Decode(e) == Some(p)
  {
    SpelledIsDecoded(e, p);
  }

  lemma TwoBytes(b: seq<int>, c: char)
    requires |b| == 2 && ScalarOf(b) == Some(c)
    ensures Utf8(c) == b
  {
    assert c as int == (b[0] - 0xC0) * 64 + (b[1] - 0x80);
  }

  lemma ThreeBytes(b: seq<int>, c: char)
    requires |b| == 3 && ScalarOf(b) == Some(c)
    ensures Utf8(c) == b
  {
    var v, x, y, z := c as int, b[0] - 0xE0, b[1] - 0x80, b[2] - 0x80;
    assert v == x * 4096 + y * 64 + z;
    assert v % 64 == z && v / 64 == x * 64 + y;
    assert v / 4096 == x;
  }

  lemma FourBytes(b: seq<int>, c: char)
    requires |b| == 4 && ScalarOf(b) == Some(c)
    ensures Utf8(c) == b
  {
    var v, x, y, z, w := c as int, b[0] - 0xF0, b[1] - 0x80, b[2] - 0x80, b[3] - 0x80;
    assert v == x * 262144 + y * 4096 + z * 64 + w && 0 <= y < 64 && 0 <= z < 64 && 0 <= w < 64;
    hide *;
    FourDigits(v, x, y, z, w);
  }

  lemma FourDigits(v: int, x: int, y: int, z: int, w: int)
    requires v == x * 262144 + y * 4096 + z * 64 + w && 0 <= y < 64 && 0 <= z < 64 && 0 <= w < 64 && x >= 0
    ensures v % 64 == w && (v / 64) % 64 == z && (v / 4096) % 64 == y && v / 262144 == x
  {
    var q := x * 4096 + y * 64 + z;
    assert v == q * 64 + w && v / 64 == q;
    var r := x * 64 + y;
    assert q == r * 64 + z && q / 64 == r;
    assert v / 4096 == r && v / 262144 == x;
  }

  /** Only the UTF-8 form of a character is read as that character. */
  lemma ScalarIsUtf8(b: seq<int>, c: char)
    requires |b| > 0 && ScalarOf(b) == Some(c)
    ensures Utf8(c) == b
  {
    match |b|
    case 2 => TwoBytes(b, c);
    case 3 => ThreeBytes(b, c);
    case 4 => FourBytes(b, c);
    case _ =>
  }

  /** What decodes, and to what: `decodeURIComponent` accepts exactly the spellings, each as what it spells. */
  lemma {:induction false} DecodeIff(e: string, p: string)
    ensures Decode(e) == Some(p) <==> Spells(e, p)
    decreases |e|
  {
    if Spells(e, p) {
      SpelledIsDecoded(e, p);
    } else if Decode(e) == Some(p) && e != "" {
      if e[0] != '%' {
        DecodeIff(e[1..], p[1..]);
      } else {
        var (c, n) := EscapedChar(e).value;
        EscapeIsUtf8(e);
        DecodeIff(e[n..], p[1..]);
      }
    }
  }

  lemma EscapeIsUtf8(e: string)
    requires EscapedChar(e).Some?
    ensures var (c, n) := EscapedChar(e).value; StartsWithEscape(e, c) && n == 3 * |Utf8(c)|
  {
    var n := SequenceLength(ByteAt(e, 0).value);
    var bytes := Bytes(e, n).value;
    ScalarIsUtf8(bytes, ScalarOf(bytes).value);
  }

  /** Hex digits in either case, nothing else. */
  lemma HexValueIff(c: char, v: int)
    ensures HexValue(c) == Some(v) <==> 0 <= v < 16 && c in {"0123456789ABCDEF"[v], "0123456789abcdef"[v]}
  {
  }

  /** Decoding never lengthens, and changes nothing exactly when there is no percent sign. */
  lemma {:induction false} DecodeFixes(e: string)
    ensures Decode(e).Some? ==> |Decode(e).value| <= |e|
    ensures Decode(e) == Some(e) <==> '%' !in e
    decreases |e|
  {
    if e != "" {
      if e[0] != '%' {
        DecodeFixes(e[1..]);
        assert [e[0]] + e[1..] == e;
      } else if EscapedChar(e).Some? {
        DecodeFixes(e[EscapedChar(e).value.1..]);
      }
    }
  }

  // ---------------------------------------------------------------------------
  // Every string has an encoding
  // ---------------------------------------------------------------------------

  function HexDigit(d: int): (c: char)
    requires 0 <= d < 16
    ensures HexValue(c) == Some(d) && c !in {'?', '#'}
  {
    if d < 10 then ('0' as int + d) as char else ('A' as int + d - 10) as char
  }

  function Escape(bytes: seq<Byte>): (e: string)
    ensures |e| == 3 * |bytes| && '?' !in e && '#' !in e
  {
    if bytes == [] then ""
    else
      var b := bytes[|bytes| - 1];
      Escape(bytes[..|bytes| - 1]) + ['%', HexDigit(b / 16), HexDigit(b % 16)]
  }

  /** Escapes every byte. */
  function EncodeAll(p: string): string {
    if p == "" then "" else Escape(Utf8(p[0])) + EncodeAll(p[1..])
  }

  lemma {:induction false} EscapeIsReadBack(bytes: seq<Byte>, rest: string)
    ensures forall i | 0 <= i < |bytes| :: ByteAt(Escape(bytes) + rest, 3 * i) == Some(bytes[i])
  {
    if bytes != [] {
      var n := |bytes| - 1;
      var front, b := bytes[..n], bytes[n];
      var last := ['%', HexDigit(b / 16), HexDigit(b % 16)];
      EscapeIsReadBack(front, last + rest);
      assert Escape(bytes) + rest == Escape(front) + (last + rest);
      assert ByteAt(Escape(front) + (last + rest), 3 * n) == Some(b);
    }
  }

  lemma {:induction false} EveryStringHasAnEncoding(p: string)
    ensures Encodes(EncodeAll(p), p)
  {
    if p != "" {
      var b, rest := Utf8(p[0]), EncodeAll(p[1..]);
      EscapeIsReadBack(b, rest);
      EveryStringHasAnEncoding(p[1..]);
      var e := Escape(b) + rest;
      assert ByteAt(e, 3 * 0) == Some(b[0]) && e[0] == '%';
      assert e[3 * |b|..] == rest;
    }
  }
}
