/** Replacing Stellar keys inside strings: the regular expression /\b[GS][A-Z2-7]{55}\b/g. */
module WalletAddresses {

  const KEY_LENGTH := 56

  predicate IsWord(c: char) {
    'A' <= c <= 'Z' || 'a' <= c <= 'z' || '0' <= c <= '9' || c == '_'
  }

  predicate IsBase32(c: char) { 'A' <= c <= 'Z' || '2' <= c <= '7' }

  predicate IsKey(w: string) {
    |w| == KEY_LENGTH && w[0] in {'G', 'S'} && forall i | 1 <= i < |w| :: IsBase32(w[i])
  }

  /** `\b` at position i: exactly one side is a word character. */
  predicate Boundary(s: string, i: nat)
    requires i <= |s|
  {
    (i > 0 && IsWord(s[i - 1])) != (i < |s| && IsWord(s[i]))
  }

  predicate MatchAt(s: string, i: nat): (m: bool)
    ensures m ==> i + KEY_LENGTH <= |s|
  {
    i + KEY_LENGTH <= |s| && Boundary(s, i) && IsKey(s[i..i + KEY_LENGTH]) && Boundary(s, i + KEY_LENGTH)
  }

  /** `STELLAR_ADDRESS_TEST.test(s)`. */
  predicate HasMatch(s: string) { exists i | 0 <= i <= |s| :: MatchAt(s, i) }

  predicate IsHex(c: char) { '0' <= c <= '9' || 'a' <= c <= 'f' }

  /** The first 16 hex digits of a hash. */
  type Digest = d: string | |d| == 16 && forall c | c in d :: IsHex(c) witness seq(16, _ => '0')

  /** `hashWallet` on a match, which is never blank. */
  type Hasher = string -> Digest

  /** The global replacement, scanning from position i. */
  function ReplaceFrom(s: string, i: nat, h: Hasher): string
    requires i <= |s|
    decreases |s| - i
  {
    if i == |s| then ""
    else if MatchAt(s, i) then h(s[i..i + KEY_LENGTH]) + ReplaceFrom(s, i + KEY_LENGTH, h)
    else [s[i]] + ReplaceFrom(s, i + 1, h)
  }

  function Redacted(s: string, h: Hasher): string { ReplaceFrom(s, 0, h) }

  lemma Associate(a: string, b: string, c: string)
    ensures a + (b + c) == (a + b) + c
  {
  }

  method RedactWalletAddresses(value: string, h: Hasher) returns (r: string)
    ensures r == Redacted(value, h)
  {
    hide MatchAt;
    r := "";
    var i := 0;
    while i < |value|
      invariant i <= |value| && r + ReplaceFrom(value, i, h) == Redacted(value, h)
    {
      if MatchAt(value, i) {
        var digest := h(value[i..i + KEY_LENGTH]);
        Associate(r, digest, ReplaceFrom(value, i + KEY_LENGTH, h));
        r := r + digest;
        i := i + KEY_LENGTH;
      } else {
        Associate(r, [value[i]], ReplaceFrom(value, i + 1, h));
        r := r + [value[i]];
        i := i + 1;
      }
    }
  }

  // ---------------------------------------------------------------------------
  // The same replacement, word by word
  // ---------------------------------------------------------------------------

  /** The longest leading run of word characters. */
  function WordRun(s: string): (w: string)
    ensures w <= s && (forall c | c in w :: IsWord(c)) && (|w| < |s| ==> !IsWord(s[|w|]))
    ensures s != "" && IsWord(s[0]) ==> w != ""
  {
    if s == "" || !IsWord(s[0]) then "" else [s[0]] + WordRun(s[1..])
  }

  function ReplaceWords(s: string, h: Hasher): string
    decreases |s|
  {
    if s == "" then ""
    else if !IsWord(s[0]) then [s[0]] + ReplaceWords(s[1..], h)
    else
      var w := WordRun(s);
      (if IsKey(w) then h(w) else w) + ReplaceWords(s[|w|..], h)
  }

  predicate NoKeyWords(s: string)
    decreases |s|
  {
    if s == "" then true
    else if !IsWord(s[0]) then NoKeyWords(s[1..])
    else
      var w := WordRun(s);
      !IsKey(w) && NoKeyWords(s[|w|..])
  }

  /** A word run that is followed by nothing or by a non-word character is found whole. */
  lemma {:induction false} WordRunOf(w: string, rest: string)
    requires (forall c | c in w :: IsWord(c)) && (rest != "" ==> !IsWord(rest[0]))
    ensures WordRun(w + rest) == w
  {
    if w == "" {
      assert w + rest == rest;
    } else {
      assert w[0] in w && (w + rest)[1..] == w[1..] + rest;
      WordRunOf(w[1..], rest);
    }
  }

  /** Position i is not inside a word. */
  predicate BetweenWords(s: string, i: nat)
    requires i <= |s|
  {
    i == 0 || !IsWord(s[i - 1]) || i == |s| || !IsWord(s[i])
  }

  lemma KeyIsWord(m: string)
    requires IsKey(m)
    ensures forall c | c in m :: IsWord(c)
  {
    forall c | c in m ensures IsWord(c) {
      var k :| 0 <= k < |m| && m[k] == c;
    }
  }

  lemma RunInPlace(s: string, i: nat, w: string)
    requires i < |s| && w == WordRun(s[i..])
    ensures i + |w| <= |s| && s[i..i + |w|] == w
    ensures i + |w| < |s| ==> !IsWord(s[i + |w|])
    ensures forall j | i <= j < i + |w| :: IsWord(s[j])
  {
    assert i + |w| < |s| ==> s[i + |w|] == s[i..][|w|];
    forall j | i <= j < i + |w| ensures IsWord(s[j]) {
      assert s[j] == w[j - i] && w[j - i] in w;
    }
  }

  /** A match lies inside the run of word characters it starts. */
  lemma MatchFillsRun(s: string, i: nat, w: string)
    requires i < |s| && w == WordRun(s[i..]) && MatchAt(s, i)
    ensures |w| == KEY_LENGTH
  {
    RunInPlace(s, i, w);
    var m := s[i..i + KEY_LENGTH];
    KeyIsWord(m);
    hide IsKey;
    forall j | i <= j < i + KEY_LENGTH ensures IsWord(s[j]) {
      assert s[j] == m[j - i] && m[j - i] in m;
    }
  }

  /** A match starts a word and covers all of it: a match is always a maximal word. */
  lemma MatchIsWord(s: string, i: nat, w: string)
    requires i < |s| && IsWord(s[i]) && BetweenWords(s, i) && w == WordRun(s[i..])
    ensures MatchAt(s, i) <==> IsKey(w)
    ensures forall j | i < j < i + |w| :: !MatchAt(s, j)
    ensures i + |w| <= |s| && s[i..i + |w|] == w && BetweenWords(s, i + |w|)
  {
    RunInPlace(s, i, w);
    if MatchAt(s, i) {
      MatchFillsRun(s, i, w);
    }
    hide IsKey;
    hide IsWord;
    forall j | i < j < i + |w|
      ensures !MatchAt(s, j)
    {
      assert !Boundary(s, j);
    }
  }

  lemma {:induction false} CopyWord(s: string, i: nat, end: nat, h: Hasher)
    requires i <= end <= |s| && forall j | i <= j < end :: !MatchAt(s, j)
    ensures ReplaceFrom(s, i, h) == s[i..end] + ReplaceFrom(s, end, h)
    decreases end - i
  {
    hide MatchAt;
    if i < end {
      CopyWord(s, i + 1, end, h);
      var tail := ReplaceFrom(s, end, h);
      assert s[i..end] + tail == [s[i]] + (s[i + 1..end] + tail) by {
        assert s[i..end] == [s[i]] + s[i + 1..end];
      }
    }
  }

  lemma NoMatchOutsideWords(s: string, i: nat)
    requires i < |s| && !IsWord(s[i])
    ensures !MatchAt(s, i)
  {
    assert i + KEY_LENGTH <= |s| ==> s[i..i + KEY_LENGTH][0] == s[i];
  }

  /** What replaces one word. */
  function Piece(w: string, h: Hasher): string { if IsKey(w) then h(w) else w }

  lemma WordIsReplaced(s: string, i: nat, w: string, h: Hasher)
    requires i < |s| && IsWord(s[i]) && w == WordRun(s[i..])
    ensures w != "" && i + |w| <= |s|
    ensures ReplaceWords(s[i..], h) == Piece(w, h) + ReplaceWords(s[i + |w|..], h)
  {
    assert s[i..][0] == s[i];
    assert s[i..][|w|..] == s[i + |w|..];
  }

  lemma WordIsScanned(s: string, i: nat, w: string, h: Hasher)
    requires i < |s| && IsWord(s[i]) && BetweenWords(s, i) && w == WordRun(s[i..])
    ensures i + |w| <= |s| && BetweenWords(s, i + |w|)
    ensures ReplaceFrom(s, i, h) == Piece(w, h) + ReplaceFrom(s, i + |w|, h)
  {
    MatchIsWord(s, i, w);
    hide MatchAt;
    if IsKey(w) {
      assert |w| == KEY_LENGTH;
    } else {
      CopyWord(s, i, i + |w|, h);
    }
  }

  lemma OtherIsCopied(s: string, i: nat, h: Hasher)
    requires i < |s| && !IsWord(s[i])
    ensures BetweenWords(s, i + 1)
    ensures ReplaceFrom(s, i, h) == [s[i]] + ReplaceFrom(s, i + 1, h)
    ensures ReplaceWords(s[i..], h) == [s[i]] + ReplaceWords(s[i + 1..], h)
  {
    NoMatchOutsideWords(s, i);
    hide MatchAt;
    assert s[i..][1..] == s[i + 1..];
  }

  /** Both replacements emit the same piece for one word or one other character. */
  lemma ScanStep(s: string, i: nat, h: Hasher) returns (piece: string, next: nat)
    requires i < |s| && BetweenWords(s, i)
    ensures i < next <= |s| && BetweenWords(s, next)
    ensures ReplaceFrom(s, i, h) == piece + ReplaceFrom(s, next, h)
    ensures ReplaceWords(s[i..], h) == piece + ReplaceWords(s[next..], h)
  {
    if IsWord(s[i]) {
      var w := WordRun(s[i..]);
      hide *;
      WordIsReplaced(s, i, w, h);
      WordIsScanned(s, i, w, h);
      piece, next := Piece(w, h), i + |w|;
    } else {
      hide *;
      OtherIsCopied(s, i, h);
      piece, next := [s[i]], i + 1;
    }
  }

  /** Scanning for the expression replaces exactly the words that are keys. */
  lemma {:induction false} ScanIsWordByWord(s: string, i: nat, h: Hasher)
    requires i <= |s| && BetweenWords(s, i)
    ensures ReplaceFrom(s, i, h) == ReplaceWords(s[i..], h)
    decreases |s| - i
  {
    if i == |s| {
      assert s[i..] == "";
    } else {
      var piece, next := ScanStep(s, i, h);
      ScanIsWordByWord(s, next, h);
    }
  }

  lemma {:induction false} NeverLonger(s: string, i: nat, h: Hasher)
    requires i <= |s|
    ensures |ReplaceFrom(s, i, h)| <= |s| - i
    decreases |s| - i
  {
    hide MatchAt;
    if i < |s| {
      NeverLonger(s, if MatchAt(s, i) then i + KEY_LENGTH else i + 1, h);
    }
  }

  /** Replacing never makes a longer string, and shortens it when anything matches. */
  lemma {:induction false} MatchShortens(s: string, i: nat, j: nat, h: Hasher)
    requires i <= j <= |s| && MatchAt(s, j)
    ensures |ReplaceFrom(s, i, h)| < |s| - i
    decreases |s| - i
  {
    hide MatchAt;
    if MatchAt(s, i) {
      NeverLonger(s, i + KEY_LENGTH, h);
    } else {
      MatchShortens(s, i + 1, j, h);
    }
  }

  /** Nothing is changed exactly when nothing matches. */
  lemma RedactedFixes(s: string, h: Hasher)
    ensures Redacted(s, h) == s <==> !HasMatch(s)
  {
    if HasMatch(s) {
      var j :| 0 <= j <= |s| && MatchAt(s, j);
      MatchShortens(s, 0, j, h);
    } else {
      CopyWord(s, 0, |s|, h);
      assert s[0..|s|] + "" == s;
    }
  }

  /** One word or one other character of a string without keys is copied. */
  lemma CopyStep(s: string, h: Hasher) returns (head: string, rest: string)
    requires s != "" && NoKeyWords(s)
    ensures s == head + rest && |rest| < |s| && NoKeyWords(rest)
    ensures ReplaceWords(s, h) == head + ReplaceWords(rest, h)
  {
    hide IsKey;
    if IsWord(s[0]) {
      head := WordRun(s);
      rest := s[|head|..];
      assert !IsKey(head) && NoKeyWords(rest) && ReplaceWords(s, h) == head + ReplaceWords(rest, h);
    } else {
      head, rest := [s[0]], s[1..];
      assert NoKeyWords(rest) && ReplaceWords(s, h) == head + ReplaceWords(rest, h);
    }
    hide *;
  }

  lemma {:induction false} NoKeyWordsFixes(s: string, h: Hasher)
    requires NoKeyWords(s)
    ensures ReplaceWords(s, h) == s
    decreases |s|
  {
    if s != "" {
      var head, rest := CopyStep(s, h);
      NoKeyWordsFixes(rest, h);
    }
  }

  lemma HexIsWord(d: Digest)
    ensures forall c | c in d :: IsWord(c)
    ensures !IsKey(d)
  {
  }

  lemma NoKeyWordsStep(w: string, rest: string)
    requires w != "" && (forall c | c in w :: IsWord(c)) && !IsKey(w)
    requires (rest != "" ==> !IsWord(rest[0])) && NoKeyWords(rest)
    ensures NoKeyWords(w + rest)
  {
    WordRunOf(w, rest);
    assert w[0] in w && (w + rest)[0] == w[0] && (w + rest)[|w|..] == rest;
  }

  /** A digest is a shorter word between the same boundaries, so replacing creates no new match. */
  lemma {:induction false} ReplacedHasNoKeyWords(s: string, h: Hasher)
    ensures NoKeyWords(ReplaceWords(s, h))
    ensures s != "" && !IsWord(s[0]) ==> ReplaceWords(s, h) != "" && ReplaceWords(s, h)[0] == s[0]
    decreases |s|
  {
    if s != "" {
      if IsWord(s[0]) {
        var w := WordRun(s);
        var rest := s[|w|..];
        ReplacedHasNoKeyWords(rest, h);
        assert rest != "" ==> !IsWord(rest[0]);
        assert rest == "" ==> ReplaceWords(rest, h) == "";
        HexIsWord(h(w));
        NoKeyWordsStep(if IsKey(w) then h(w) else w, ReplaceWords(rest, h));
      } else {
        ReplacedHasNoKeyWords(s[1..], h);
        assert ([s[0]] + ReplaceWords(s[1..], h))[1..] == ReplaceWords(s[1..], h);
      }
    }
  }

  /** After redaction no word-bounded key is left, so redacting again changes nothing. */
  lemma RedactedHasNoMatch(s: string, h: Hasher)
    ensures !HasMatch(Redacted(s, h))
    ensures Redacted(Redacted(s, h), h) == Redacted(s, h)
  {
    ScanIsWordByWord(s, 0, h);
    assert s[0..] == s;
    var r := Redacted(s, h);
    ReplacedHasNoKeyWords(s, h);
    NoKeyWordsFixes(r, h);
    ScanIsWordByWord(r, 0, h);
    assert r[0..] == r;
    RedactedFixes(r, h);
  }

  lemma ShortStringsAreKept(s: string, h: Hasher)
    requires |s| < KEY_LENGTH
    ensures !HasMatch(s) && Redacted(s, h) == s
  {
    RedactedFixes(s, h);
  }

  // ---------------------------------------------------------------------------
  // In terms of characters
  // ---------------------------------------------------------------------------

  /** A word character: a letter, a digit or the underscore. */
  predicate WordCharAt(s: string, i: int) {
    0 <= i < |s| && ('A' <= s[i] <= 'Z' || 'a' <= s[i] <= 'z' || '0' <= s[i] <= '9' || s[i] == '_')
  }

  /** G or S, then 55 characters of A-Z and 2-7, with no word character on either side. */
  predicate KeyOccurs(s: string, i: int) {
    && 0 <= i && i + 56 <= |s| && s[i] in {'G', 'S'}
    && (forall j | i < j < i + 56 :: 'A' <= s[j] <= 'Z' || '2' <= s[j] <= '7')
    && !WordCharAt(s, i - 1) && !WordCharAt(s, i + 56)
  }

  lemma MatchIsOccurrence(s: string, i: nat)
    requires i <= |s|
    ensures MatchAt(s, i) <==> KeyOccurs(s, i)
  {
    if i + KEY_LENGTH <= |s| {
      var m := s[i..i + KEY_LENGTH];
      assert forall j | i < j < i + KEY_LENGTH :: m[j - i] == s[j];
      assert IsKey(m) <==> s[i] in {'G', 'S'} && forall j | i < j < i + 56 :: IsBase32(s[j]) by {
        assert forall k | 1 <= k < |m| :: m[k] == s[i + k];
      }
    }
  }

  /** A string is changed exactly when a key occurs in it. */
  lemma ChangedIffKeyOccurs(s: string, h: Hasher)
    ensures Redacted(s, h) != s <==> exists i :: KeyOccurs(s, i)
  {
    RedactedFixes(s, h);
    forall i: nat | i <= |s| ensures MatchAt(s, i) <==> KeyOccurs(s, i) {
      MatchIsOccurrence(s, i);
    }
    hide MatchAt;
    hide KeyOccurs;
    if i: int :| KeyOccurs(s, i) {
      OccurrenceInside(s, i);
      assert MatchAt(s, i);
    }
  }

  lemma OccurrenceInside(s: string, i: int)
    requires KeyOccurs(s, i)
    ensures 0 <= i <= |s|
  {
  }

  /** After replacing, no key occurs. */
  lemma NoKeyOccursAfter(s: string, h: Hasher, i: int)
    ensures !KeyOccurs(Redacted(s, h), i)
  {
    RedactedHasNoMatch(s, h);
    ChangedIffKeyOccurs(Redacted(s, h), h);
  }

  /** No word runs across the seam. */
  predicate Seam(a: string, b: string) {
    a == "" || b == "" || !IsWord(a[|a| - 1]) || !IsWord(b[0])
  }

  lemma WordFirst(w: string, rest: string, h: Hasher)
    requires w != "" && (forall c | c in w :: IsWord(c)) && (rest == "" || !IsWord(rest[0]))
    ensures ReplaceWords(w + rest, h) == Piece(w, h) + ReplaceWords(rest, h)
  {
    WordRunOf(w, rest);
    assert (w + rest)[0] == w[0] && w[0] in w && (w + rest)[|w|..] == rest;
  }

  lemma OtherFirst(c: char, rest: string, h: Hasher)
    requires !IsWord(c)
    ensures ReplaceWords([c] + rest, h) == [c] + ReplaceWords(rest, h)
  {
    assert ([c] + rest)[0] == c && ([c] + rest)[1..] == rest;
  }

  lemma WordOfSeam(a: string, b: string, w: string, rest: string)
    requires a != "" && IsWord(a[0]) && Seam(a, b) && w == WordRun(a) && rest == a[|w|..]
    ensures w != "" && (forall c | c in w :: IsWord(c)) && a == w + rest && Seam(rest, b)
    ensures (rest == "" || !IsWord(rest[0])) && (rest + b == "" || !IsWord((rest + b)[0]))
  {
    if rest == "" {
      assert rest + b == b && a == w && a[|a| - 1] in w;
    } else {
      assert rest[0] == a[|w|] && (rest + b)[0] == rest[0] && a[|a| - 1] == rest[|rest| - 1];
    }
  }

  lemma SplitStep(a: string, b: string, h: Hasher) returns (piece: string, rest: string)
    requires a != "" && Seam(a, b)
    ensures |rest| < |a| && Seam(rest, b)
    ensures ReplaceWords(a, h) == piece + ReplaceWords(rest, h)
    ensures ReplaceWords(a + b, h) == piece + ReplaceWords(rest + b, h)
  {
    if IsWord(a[0]) {
      var w := WordRun(a);
      rest, piece := a[|w|..], Piece(w, h);
      WordOfSeam(a, b, w, rest);
      hide *;
      WordFirst(w, rest, h);
      WordFirst(w, rest + b, h);
      Associate(w, rest, b);
    } else {
      piece, rest := [a[0]], a[1..];
      assert rest != "" ==> rest[|rest| - 1] == a[|a| - 1];
      OtherFirst(a[0], rest, h);
      OtherFirst(a[0], rest + b, h);
      assert a == piece + rest;
      Associate(piece, rest, b);
      hide *;
    }
  }

  lemma {:induction false} ReplaceWordsSplits(a: string, b: string, h: Hasher)
    requires Seam(a, b)
    ensures ReplaceWords(a + b, h) == ReplaceWords(a, h) + ReplaceWords(b, h)
    decreases |a|
  {
    if a == "" {
      assert a + b == b;
    } else {
      var piece, rest := SplitStep(a, b, h);
      ReplaceWordsSplits(rest, b, h);
      Associate(piece, ReplaceWords(rest, h), ReplaceWords(b, h));
    }
  }

  lemma RedactedIsWordByWord(s: string, h: Hasher)
    ensures Redacted(s, h) == ReplaceWords(s, h)
  {
    ScanIsWordByWord(s, 0, h);
    assert s[0..] == s;
  }

  lemma OccurrenceIsKey(a: string, key: string, b: string)
    requires |key| == 56 && KeyOccurs(a + (key + b), |a|)
    ensures IsKey(key) && (forall c | c in key :: IsWord(c))
    ensures (a == "" || !IsWord(a[|a| - 1])) && (b == "" || !IsWord(b[0]))
  {
    var s := a + (key + b);
    assert forall k | 0 <= k < 56 :: key[k] == s[|a| + k];
    assert a != "" ==> s[|a| - 1] == a[|a| - 1];
    assert b != "" ==> s[|a| + 56] == b[0];
  }

  /** A key that occurs is replaced by its hash; what stands before and after it is treated on its own. */
  lemma KeyIsReplaced(a: string, key: string, b: string, h: Hasher)
    requires |key| == 56 && KeyOccurs(a + (key + b), |a|)
    ensures Redacted(a + (key + b), h) == Redacted(a, h) + (h(key) + Redacted(b, h))
  {
    OccurrenceIsKey(a, key, b);
    RedactedIsWordByWord(a + (key + b), h);
    RedactedIsWordByWord(a, h);
    RedactedIsWordByWord(b, h);
    assert Piece(key, h) == h(key) && (key + b)[0] == key[0];
    assert Seam(a, key + b);
    hide *;
    ReplaceWordsSplits(a, key + b, h);
    WordFirst(key, b, h);
  }
}
