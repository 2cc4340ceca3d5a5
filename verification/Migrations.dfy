/** The migration validator, and the order in which the drift checker applies the files it validates. */
module Migrations {
  import opened Basics
  import opened Text
  import opened Ordering
  import opened Decimal

  datatype Migration = Migration(filename: string, sequence: nat, name: string)

  datatype ValidationError =
    | DirectoryUnreadable
    | DuplicateSequence(sequence: nat, filenames: seq<string>)
    | IncorrectPadding(filename: string, start: string)
    | GapDetected(expected: nat, found: nat)
    | InvalidNaming(filename: string)

  datatype Warning = SkippedFilename(filename: string) | NoMigrations

  datatype Validation =
    Validation(valid: bool, errors: seq<ValidationError>, warnings: seq<Warning>, migrations: seq<Migration>)

  // ---------------------------------------------------------------------------
  // Filenames
  // ---------------------------------------------------------------------------

  /** The longest leading run of digits. */
  function DigitPrefix(s: string): (r: string)
    ensures r <= s && (forall c | c in r :: IsDigit(c)) && (|r| < |s| ==> !IsDigit(s[|r|]))
  {
    if s == "" || !IsDigit(s[0]) then "" else [s[0]] + DigitPrefix(s[1..])
  }

  predicate SnakeCase(name: string) {
    name != "" && forall c | c in name :: 'a' <= c <= 'z' || IsDigit(c) || c == '_'
  }

  const EXTENSION := ".sql"

  predicate IsSql(filename: string) { EndsWith(filename, EXTENSION) }

  /** Digits, an underscore, a snake-case name and the extension; None when the filename has another form. */
  function ParseMigrationFile(filename: string): (r: Option<Migration>)
    ensures r.Some? ==> r.value.filename == filename
  {
    var digits := DigitPrefix(filename);
    if digits == "" || |filename| < |digits| + 1 + |EXTENSION| || filename[|digits|] != '_' || !IsSql(filename)
    then None
    else
      var name := filename[|digits| + 1..|filename| - |EXTENSION|];
      if SnakeCase(name) then Some(Migration(filename, Value(digits), name)) else None
  }

  lemma {:induction false} DigitPrefixStops(digits: string, rest: string)
    requires AllDigits(digits) && (rest == "" || !IsDigit(rest[0]))
    ensures DigitPrefix(digits + rest) == digits
  {
    if digits == "" {
      assert digits + rest == rest;
    } else {
      assert (digits + rest)[0] == digits[0] && (digits + rest)[1..] == digits[1..] + rest;
      assert digits[0] in digits && forall c | c in digits[1..] :: c in digits;
      DigitPrefixStops(digits[1..], rest);
    }
  }

  lemma BuiltSlices(digits: string, name: string)
    ensures var filename := digits + ("_" + name + EXTENSION);
            && filename[|digits|] == '_' && filename[|filename| - |EXTENSION|..] == EXTENSION
            && |digits| + 1 <= |filename| - |EXTENSION|
            && filename[|digits| + 1..|filename| - |EXTENSION|] == name
  {
  }

  lemma ParseOfBuilt(digits: string, name: string)
    requires digits != "" && AllDigits(digits) && SnakeCase(name)
    ensures var filename := digits + ("_" + name + EXTENSION);
            ParseMigrationFile(filename) == Some(Migration(filename, Value(digits), name))
  {
    hide SnakeCase;
    hide AllDigits;
    DigitPrefixStops(digits, "_" + name + EXTENSION);
    BuiltSlices(digits, name);
  }

  /** A filename parses exactly when it is built from a numeral and a snake-case name. */
  lemma ParsesIff(filename: string, m: Migration)
    ensures ParseMigrationFile(filename) == Some(m) <==>
            && m.filename == filename && m.name != ""
            && (forall c | c in m.name :: 'a' <= c <= 'z' || '0' <= c <= '9' || c == '_')
            && exists digits: string :: digits != "" && AllDigits(digits)
                 && filename == digits + ("_" + m.name + ".sql") && m.sequence == Value(digits)
  {
    if ParseMigrationFile(filename) == Some(m) {
      var p := DigitPrefix(filename);
      assert filename == p + ("_" + m.name + EXTENSION);
    }
    if SnakeCase(m.name) {
      forall digits: string | digits != "" && AllDigits(digits)
                              && filename == digits + ("_" + m.name + EXTENSION)
        ensures ParseMigrationFile(filename) == Some(Migration(filename, Value(digits), m.name))
      {
        ParseOfBuilt(digits, m.name);
      }
    }
  }

  predicate WellPadded(m: Migration) { StartsWith(m.filename, Prefix(m.sequence) + "_") }

  /** The padding test compares the whole digit prefix. */
  lemma PaddingIff(m: Migration)
    requires ParseMigrationFile(m.filename) == Some(m)
    ensures WellPadded(m) <==> DigitPrefix(m.filename) == Prefix(m.sequence)
  {
    var p, q := DigitPrefix(m.filename), Prefix(m.sequence);
    PrefixIsNumeral(m.sequence);
    if WellPadded(m) {
      var rest := m.filename[|q|..];
      assert m.filename[..|q| + 1] == q + "_";
      assert rest[0] == m.filename[|q|] == '_' && m.filename == q + rest;
      DigitPrefixStops(q, rest);
    }
    if p == q {
      assert m.filename[..|q| + 1] == q + "_";
    }
  }

  // ---------------------------------------------------------------------------
  // What the validator reports
  // ---------------------------------------------------------------------------

  function SqlFiles(files: seq<string>): seq<string> {
    if files == [] then [] else (if IsSql(files[0]) then [files[0]] else []) + SqlFiles(files[1..])
  }

  function Parsed(files: seq<string>): seq<Migration> {
    if files == [] then []
    else
      var m := ParseMigrationFile(files[|files| - 1]);
      Parsed(files[..|files| - 1]) + if m.Some? then [m.value] else []
  }

  const BY_SEQUENCE := (a: Migration, b: Migration) => a.sequence <= b.sequence

  const SEQUENCE_OF := (m: Migration) => m.sequence

  const FILENAME_OF := (m: Migration) => m.filename

  /** The filenames that use one number, in order. */
  function Users(ms: seq<Migration>, q: nat): seq<string> {
    if ms == [] then []
    else Users(ms[..|ms| - 1], q) + if ms[|ms| - 1].sequence == q then [ms[|ms| - 1].filename] else []
  }

  /** The numbers in use, in order of first use. */
  function Keys(ms: seq<Migration>): seq<nat> {
    if ms == [] then []
    else
      var rest := Keys(ms[..|ms| - 1]);
      if ms[|ms| - 1].sequence in rest then rest else rest + [ms[|ms| - 1].sequence]
  }

  function DuplicateErrors(ms: seq<Migration>, keys: seq<nat>): seq<ValidationError> {
    if keys == [] then []
    else
      var q := keys[|keys| - 1];
      DuplicateErrors(ms, keys[..|keys| - 1])
      + if |Users(ms, q)| > 1 then [DuplicateSequence(q, Users(ms, q))] else []
  }

  function PaddingErrors(ms: seq<Migration>): seq<ValidationError> {
    if ms == [] then []
    else
      var m := ms[|ms| - 1];
      PaddingErrors(ms[..|ms| - 1])
      + if WellPadded(m) then [] else [IncorrectPadding(m.filename, Prefix(m.sequence) + "_")]
  }

  /** Only the first gap is reported. */
  function GapErrors(ms: seq<Migration>, from: nat): seq<ValidationError>
    requires from <= |ms|
    decreases |ms| - from
  {
    if from == |ms| then []
    else if ms[from].sequence != from + 1 then [GapDetected(from + 1, ms[from].sequence)]
    else GapErrors(ms, from + 1)
  }

  function NamingErrors(ms: seq<Migration>): seq<ValidationError> {
    if ms == [] then []
    else
      var m := ms[|ms| - 1];
      NamingErrors(ms[..|ms| - 1]) + if SnakeCase(m.name) then [] else [InvalidNaming(m.filename)]
  }

  function Errors(ms: seq<Migration>): seq<ValidationError> {
    DuplicateErrors(ms, Keys(ms)) + PaddingErrors(ms) + GapErrors(ms, 0) + NamingErrors(ms)
  }

  // ---------------------------------------------------------------------------
  // The validator
  // ---------------------------------------------------------------------------

  method CollectMigrations(files: seq<string>) returns (migrations: seq<Migration>, warnings: seq<Warning>)
    ensures migrations == Parsed(files)
    ensures warnings == [] <==> |migrations| == |files|
    ensures forall f :: SkippedFilename(f) in warnings <==> f in files && ParseMigrationFile(f).None?
  {
    migrations, warnings := [], [];
    for i := 0 to |files|
      invariant migrations == Parsed(files[..i])
      invariant |migrations| + |warnings| == i
      invariant forall f :: SkippedFilename(f) in warnings <==> f in files[..i] && ParseMigrationFile(f).None?
    {
      assert files[..i + 1][..i] == files[..i] && files[..i + 1] == files[..i] + [files[i]];
      var m := ParseMigrationFile(files[i]);
      if m.None? {
        warnings := warnings + [SkippedFilename(files[i])];
        continue;
      }
      migrations := migrations + [m.value];
    }
    assert files[..|files|] == files;
  }

  /** Groups the filenames by number; `keys` is the insertion order of the map. */
  method GroupBySequence(ms: seq<Migration>) returns (keys: seq<nat>, groups: map<nat, seq<string>>)
    ensures keys == Keys(ms)
    ensures forall q :: q in groups <==> q in keys
    ensures forall q | q in groups :: groups[q] == Users(ms, q)
  {
    keys, groups := [], map[];
    for i := 0 to |ms|
      invariant keys == Keys(ms[..i])
      invariant forall q :: q in groups <==> q in keys
      invariant forall q :: q in groups ==> groups[q] == Users(ms[..i], q)
      invariant forall q :: q !in groups ==> Users(ms[..i], q) == []
    {
      assert ms[..i + 1][..i] == ms[..i];
      var m := ms[i];
      if m.sequence !in groups {
        keys := keys + [m.sequence];
        groups := groups[m.sequence := []];
      }
      groups := groups[m.sequence := groups[m.sequence] + [m.filename]];
    }
    assert ms[..|ms|] == ms;
  }

  method ValidateMigrations(listing: Option<seq<string>>) returns (r: Validation)
    ensures listing.None? ==> r == Validation(false, [DirectoryUnreadable], [], [])
    ensures listing.Some? ==> r.migrations == Sort(Parsed(SqlFiles(listing.value)), BY_SEQUENCE)
    ensures listing.Some? ==> r.errors == Errors(r.migrations)
    ensures r.valid <==> r.errors == []
    ensures forall f :: SkippedFilename(f) in r.warnings <==>
                        listing.Some? && f in SqlFiles(listing.value) && ParseMigrationFile(f).None?
  {
    hide SnakeCase;
    hide WellPadded;
    hide Prefix;
    hide ParseMigrationFile;
    if listing.None? {
      return Validation(false, [DirectoryUnreadable], [], []);
    }
    var collected, warnings := CollectMigrations(SqlFiles(listing.value));
    var ms := Sort(collected, BY_SEQUENCE);
    if |ms| == 0 {
      return Validation(true, [], warnings + [NoMigrations], ms);
    }
    var keys, groups := GroupBySequence(ms);
    var errors: seq<ValidationError> := [];
    for i := 0 to |keys|
      invariant errors == DuplicateErrors(ms, keys[..i])
    {
      assert keys[..i + 1][..i] == keys[..i];
      var filenames := groups[keys[i]];
      if |filenames| > 1 {
        errors := errors + [DuplicateSequence(keys[i], filenames)];
      }
    }
    assert keys[..|keys|] == keys;
    errors := CheckPadding(ms, errors);
    errors := CheckGaps(ms, errors);
    errors := CheckNaming(ms, errors);
    return Validation(|errors| == 0, errors, warnings, ms);
  }

  method CheckPadding(ms: seq<Migration>, before: seq<ValidationError>) returns (errors: seq<ValidationError>)
    ensures errors == before + PaddingErrors(ms)
  {
    errors := before;
    for i := 0 to |ms|
      invariant errors == before + PaddingErrors(ms[..i])
    {
      assert ms[..i + 1][..i] == ms[..i];
      var expected := Prefix(ms[i].sequence) + "_";
      if !StartsWith(ms[i].filename, expected) {
        errors := errors + [IncorrectPadding(ms[i].filename, expected)];
      }
    }
    assert ms[..|ms|] == ms;
  }

  method CheckGaps(ms: seq<Migration>, before: seq<ValidationError>) returns (errors: seq<ValidationError>)
    ensures errors == before + GapErrors(ms, 0)
  {
    errors := before;
    for i := 0 to |ms|
      invariant errors == before && GapErrors(ms, 0) == GapErrors(ms, i)
    {
      var expected := i + 1;
      if ms[i].sequence != expected {
        errors := errors + [GapDetected(expected, ms[i].sequence)];
        break;
      }
    }
  }

  method CheckNaming(ms: seq<Migration>, before: seq<ValidationError>) returns (errors: seq<ValidationError>)
    ensures errors == before + NamingErrors(ms)
  {
    errors := before;
    for i := 0 to |ms|
      invariant errors == before + NamingErrors(ms[..i])
    {
      assert ms[..i + 1][..i] == ms[..i];
      if !SnakeCase(ms[i].name) {
        errors := errors + [InvalidNaming(ms[i].filename)];
      }
    }
    assert ms[..|ms|] == ms;
  }

  // ---------------------------------------------------------------------------
  // What the validator accepts
  // ---------------------------------------------------------------------------

  function OneTo(n: nat): seq<nat> { seq(n, i => i + 1) }

  const NAT_ORDER := (a: nat, b: nat) => a <= b

  /** Number i + 1 stands at position i. */
  ghost predicate Numbered(ms: seq<Migration>) {
    forall i | 0 <= i < |ms| :: ms[i].sequence == i + 1
  }

  lemma {:induction false} GapErrorsIff(ms: seq<Migration>, from: nat)
    requires from <= |ms|
    ensures GapErrors(ms, from) == [] <==> forall i | from <= i < |ms| :: ms[i].sequence == i + 1
    decreases |ms| - from
  {
    if from < |ms| {
      GapErrorsIff(ms, from + 1);
    }
  }

  lemma {:induction false} PaddingErrorsIff(ms: seq<Migration>)
    ensures PaddingErrors(ms) == [] <==> forall m | m in ms :: WellPadded(m)
  {
    if ms != [] {
      PaddingErrorsIff(ms[..|ms| - 1]);
      assert ms == ms[..|ms| - 1] + [ms[|ms| - 1]];
    }
  }

  lemma {:induction false} NoNamingErrors(ms: seq<Migration>)
    requires forall m | m in ms :: SnakeCase(m.name)
    ensures NamingErrors(ms) == []
  {
    if ms != [] {
      NoNamingErrors(ms[..|ms| - 1]);
    }
  }

  lemma {:induction false} OneUserEach(ms: seq<Migration>, q: nat)
    requires Numbered(ms)
    ensures |Users(ms, q)| == if 1 <= q <= |ms| then 1 else 0
  {
    if ms != [] {
      OneUserEach(ms[..|ms| - 1], q);
    }
  }

  /** Gap-free numbering leaves no duplicates: the gap check subsumes the duplicate check. */
  lemma {:induction false} NoDuplicateErrors(ms: seq<Migration>, keys: seq<nat>)
    requires Numbered(ms)
    ensures DuplicateErrors(ms, keys) == []
  {
    if keys != [] {
      NoDuplicateErrors(ms, keys[..|keys| - 1]);
      OneUserEach(ms, keys[|keys| - 1]);
    }
  }

  lemma NumbersInOrder(a: seq<nat>)
    requires Sorted(a, NAT_ORDER)
    ensures a == OneTo(|a|) <==> multiset(a) == multiset(OneTo(|a|))
  {
    if multiset(a) == multiset(OneTo(|a|)) {
      assert TotalPreorder(NAT_ORDER) && Antisymmetric(NAT_ORDER);
      SortedIsUnique(a, OneTo(|a|), NAT_ORDER);
    }
  }

  lemma SequencesSorted(ms: seq<Migration>)
    requires Sorted(ms, BY_SEQUENCE)
    ensures Sorted(Map(ms, SEQUENCE_OF), NAT_ORDER)
  {
    forall i, j | 0 <= i < j < |ms| ensures NAT_ORDER(SEQUENCE_OF(ms[i]), SEQUENCE_OF(ms[j])) {
      assert BY_SEQUENCE(ms[i], ms[j]);
    }
  }

  lemma NumberedSequences(ms: seq<Migration>)
    ensures Numbered(ms) <==> Map(ms, SEQUENCE_OF) == OneTo(|ms|)
  {
    var a, b := Map(ms, SEQUENCE_OF), OneTo(|ms|);
    forall i | 0 <= i < |ms| ensures a[i] == ms[i].sequence && b[i] == i + 1 {
      assert a[i] == SEQUENCE_OF(ms[i]);
    }
    if Numbered(ms) {
      assert a == b;
    }
    if a == b {
      forall i | 0 <= i < |ms| ensures ms[i].sequence == i + 1 {
        assert a[i] == b[i];
      }
    }
  }

  lemma NumberedIff(ms: seq<Migration>)
    requires Sorted(ms, BY_SEQUENCE)
    ensures Numbered(ms) <==> multiset(Map(ms, SEQUENCE_OF)) == multiset(OneTo(|ms|))
  {
    SequencesSorted(ms);
    NumberedSequences(ms);
    NumbersInOrder(Map(ms, SEQUENCE_OF));
  }

  lemma {:induction false} ParsedSound(files: seq<string>)
    ensures |Parsed(files)| <= |files|
    ensures forall m | m in Parsed(files) :: ParseMigrationFile(m.filename) == Some(m)
    ensures (forall f | f in files :: ParseMigrationFile(f).Some?) ==> Map(Parsed(files), FILENAME_OF) == files
    ensures (exists f | f in files :: ParseMigrationFile(f).None?) ==> |Parsed(files)| < |files|
  {
    if files != [] {
      var front := files[..|files| - 1];
      assert files == front + [files[|files| - 1]];
      ParsedSound(front);
    }
  }

  function HasSequence(q: nat): Migration -> bool { (m: Migration) => m.sequence == q }

  lemma {:induction false} FilterSnoc(ms: seq<Migration>, m: Migration, q: nat)
    ensures Filter(ms + [m], HasSequence(q))
            == Filter(ms, HasSequence(q)) + if m.sequence == q then [m] else []
  {
    if ms == [] {
      assert ms + [m] == [m] && [m][1..] == [];
    } else {
      assert (ms + [m])[0] == ms[0] && (ms + [m])[1..] == ms[1..] + [m];
      FilterSnoc(ms[1..], m, q);
    }
  }

  lemma {:induction false} UsersAreFiltered(ms: seq<Migration>, q: nat)
    ensures |Users(ms, q)| == |Filter(ms, HasSequence(q))|
    ensures forall i | 0 <= i < |Users(ms, q)| :: Users(ms, q)[i] == Filter(ms, HasSequence(q))[i].filename
  {
    if ms != [] {
      var n := |ms| - 1;
      UsersAreFiltered(ms[..n], q);
      FilterSnoc(ms[..n], ms[n], q);
      assert ms == ms[..n] + [ms[n]];
    }
  }

  /** Files that share a number are reported in the order of the directory listing. */
  lemma DuplicatesKeepOrder(ms: seq<Migration>, q: nat)
    ensures Users(Sort(ms, BY_SEQUENCE), q) == Users(ms, q)
  {
    UsersAreFiltered(ms, q);
    UsersAreFiltered(Sort(ms, BY_SEQUENCE), q);
    SortIsStable(ms, BY_SEQUENCE, HasSequence(q));
  }

  /** Which names the scripts consider at all, in their order. */
  lemma {:induction false} SqlFilesAre(a: seq<string>, b: seq<string>, f: string)
    ensures f in SqlFiles(a) <==> f in a && exists stem :: f == stem + ".sql"
    ensures SqlFiles(a + b) == SqlFiles(a) + SqlFiles(b)
  {
    if a == [] {
      assert a + b == b;
    } else {
      assert (a + b)[0] == a[0] && (a + b)[1..] == a[1..] + b && a == [a[0]] + a[1..];
      SqlFilesAre(a[1..], b, f);
      assert IsSql(f) <==> exists stem :: f == stem + ".sql" by { SqlNameIff(f); }
    }
  }

  lemma SqlNameIff(f: string)
    ensures IsSql(f) <==> exists stem :: f == stem + ".sql"
  {
    if IsSql(f) { assert f == f[..|f| - 4] + ".sql"; }
  }

  lemma SortedMigrations(files: seq<string>)
    ensures var p, ms := Parsed(files), Sort(Parsed(files), BY_SEQUENCE);
            && |ms| == |p| && Sorted(ms, BY_SEQUENCE) && (forall m :: m in ms <==> m in p)
            && multiset(Map(ms, SEQUENCE_OF)) == multiset(Map(p, SEQUENCE_OF))
            && multiset(Map(ms, FILENAME_OF)) == multiset(Map(p, FILENAME_OF))
  {
    var p, ms := Parsed(files), Sort(Parsed(files), BY_SEQUENCE);
    SortSorts(p, BY_SEQUENCE);
    SortMap(p, BY_SEQUENCE, SEQUENCE_OF);
    SortMap(p, BY_SEQUENCE, FILENAME_OF);
    forall m ensures m in ms <==> m in p {
      assert m in multiset(ms) <==> m in multiset(p);
    }
  }

  lemma ErrorsIff(ms: seq<Migration>)
    requires forall m | m in ms :: SnakeCase(m.name)
    ensures Errors(ms) == [] <==> Numbered(ms) && forall m | m in ms :: WellPadded(m)
  {
    hide WellPadded;
    hide SnakeCase;
    GapErrorsIff(ms, 0);
    PaddingErrorsIff(ms);
    NoNamingErrors(ms);
    if Numbered(ms) {
      NoDuplicateErrors(ms, Keys(ms));
    }
  }

  /**
   No errors are reported exactly when the parsed numbers are 1..n in some order and every filename
   starts with the canonical three-digit prefix of its number.
   */
  lemma AcceptsIff(files: seq<string>)
    ensures var p := Parsed(files);
            Errors(Sort(p, BY_SEQUENCE)) == [] <==>
            && multiset(Map(p, SEQUENCE_OF)) == multiset(OneTo(|p|))
            && forall m | m in p :: DigitPrefix(m.filename) == Prefix(m.sequence)
  {
    var p, ms := Parsed(files), Sort(Parsed(files), BY_SEQUENCE);
    SortedMigrations(files);
    ParsedSound(files);
    forall m | m in p
      ensures SnakeCase(m.name) && (WellPadded(m) <==> DigitPrefix(m.filename) == Prefix(m.sequence))
    {
      PaddingIff(m);
    }
    hide ParseMigrationFile;
    hide WellPadded;
    hide Prefix;
    hide SnakeCase;
    hide Errors;
    NumberedIff(ms);
    ErrorsIff(ms);
  }

  // ---------------------------------------------------------------------------
  // What each error means
  // ---------------------------------------------------------------------------

  lemma {:induction false} KeysAndUsers(ms: seq<Migration>, q: nat)
    ensures q in Keys(ms) <==> exists m | m in ms :: m.sequence == q
    ensures forall f :: f in Users(ms, q) <==> exists m | m in ms :: m.sequence == q && m.filename == f
    ensures |Users(ms, q)| > 0 <==> q in Keys(ms)
  {
    if ms != [] {
      var front, last := ms[..|ms| - 1], ms[|ms| - 1];
      assert ms == front + [last];
      KeysAndUsers(front, q);
    }
  }

  lemma {:induction false} DuplicateErrorsIff(ms: seq<Migration>, keys: seq<nat>, e: ValidationError)
    ensures e in DuplicateErrors(ms, keys) <==>
            exists q | q in keys :: |Users(ms, q)| > 1 && e == DuplicateSequence(q, Users(ms, q))
  {
    if keys != [] {
      var front, last := keys[..|keys| - 1], keys[|keys| - 1];
      hide Users;
      DuplicateErrorsIff(ms, front, e);
      assert keys == front + [last];
      assert last in keys && forall q | q in front :: q in keys;
    }
  }

  lemma {:induction false} OtherErrorKinds(ms: seq<Migration>, e: ValidationError)
    ensures e in PaddingErrors(ms) <==>
            exists m | m in ms :: !WellPadded(m) && e == IncorrectPadding(m.filename, Prefix(m.sequence) + "_")
    ensures e in NamingErrors(ms) ==> e.InvalidNaming?
  {
    hide WellPadded;
    hide Prefix;
    hide SnakeCase;
    if ms != [] {
      var front, last := ms[..|ms| - 1], ms[|ms| - 1];
      assert ms == front + [last];
      OtherErrorKinds(front, e);
    }
  }

  lemma {:induction false} GapErrorsMean(ms: seq<Migration>, from: nat, expected: nat, found: nat)
    requires from <= |ms|
    ensures forall e | e in GapErrors(ms, from) :: e.GapDetected?
    ensures GapDetected(expected, found) in GapErrors(ms, from) <==>
            && from < expected <= |ms| && ms[expected - 1].sequence == found != expected
            && forall k | from <= k < expected - 1 :: ms[k].sequence == k + 1
    decreases |ms| - from
  {
    if from < |ms| && ms[from].sequence == from + 1 {
      GapErrorsMean(ms, from + 1, expected, found);
    }
  }

  /** Which duplicates, paddings and gaps are reported; of the gaps only the first. */
  lemma ReportsMean(ms: seq<Migration>, q: nat, filenames: seq<string>, file: string, prefix: string, found: nat)
    ensures DuplicateSequence(q, filenames) in Errors(ms) <==> |filenames| > 1 && filenames == Users(ms, q)
    ensures IncorrectPadding(file, prefix) in Errors(ms) <==>
            exists m | m in ms :: !WellPadded(m) && m.filename == file && prefix == Prefix(m.sequence) + "_"
    ensures GapDetected(q, found) in Errors(ms) <==>
            && 0 < q <= |ms| && ms[q - 1].sequence == found != q
            && forall k | 0 <= k < q - 1 :: ms[k].sequence == k + 1
  {
    hide WellPadded;
    hide Prefix;
    var d, p, g := DuplicateSequence(q, filenames), IncorrectPadding(file, prefix), GapDetected(q, found);
    KeysAndUsers(ms, q);
    DuplicateErrorsIff(ms, Keys(ms), d);
    DuplicateErrorsIff(ms, Keys(ms), p);
    DuplicateErrorsIff(ms, Keys(ms), g);
    OtherErrorKinds(ms, d);
    OtherErrorKinds(ms, p);
    OtherErrorKinds(ms, g);
    GapErrorsMean(ms, 0, q, found);
  }

  /** Duplicates are reported first, then paddings, then the gap, then names. */
  function Rank(e: ValidationError): nat {
    match e
    case DirectoryUnreadable => 0
    case DuplicateSequence(_, _) => 1
    case IncorrectPadding(_, _) => 2
    case GapDetected(_, _) => 3
    case InvalidNaming(_) => 4
  }

  lemma ErrorsInOrder(ms: seq<Migration>)
    ensures forall i, j | 0 <= i < j < |Errors(ms)| :: Rank(Errors(ms)[i]) <= Rank(Errors(ms)[j])
  {
    var d, p, g, n := DuplicateErrors(ms, Keys(ms)), PaddingErrors(ms), GapErrors(ms, 0), NamingErrors(ms);
    forall e ensures e in d ==> Rank(e) == 1 { DuplicateErrorsIff(ms, Keys(ms), e); }
    forall e ensures (e in p ==> Rank(e) == 2) && (e in n ==> Rank(e) == 4) { OtherErrorKinds(ms, e); }
    GapErrorsMean(ms, 0, 0, 0);
    hide *;
    RanksConcat(d, p, g, n);
    ErrorsAre(ms);
  }

  lemma ErrorsAre(ms: seq<Migration>)
    ensures Errors(ms) == DuplicateErrors(ms, Keys(ms)) + PaddingErrors(ms) + GapErrors(ms, 0) + NamingErrors(ms)
  {
  }

  lemma RanksConcat(d: seq<ValidationError>, p: seq<ValidationError>, g: seq<ValidationError>, n: seq<ValidationError>)
    requires (forall e | e in d :: Rank(e) == 1) && (forall e | e in p :: Rank(e) == 2)
    requires (forall e | e in g :: Rank(e) == 3) && (forall e | e in n :: Rank(e) == 4)
    ensures var all := d + p + g + n; forall i, j | 0 <= i < j < |all| :: Rank(all[i]) <= Rank(all[j])
  {
    var all := d + p + g + n;
    hide Rank;
    forall i | 0 <= i < |all|
      ensures Rank(all[i]) == if i < |d| then 1 else if i < |d| + |p| then 2 else if i < |d| + |p| + |g| then 3 else 4
    {
    }
  }

  // ---------------------------------------------------------------------------
  // Alphabetical order against numeric order
  // ---------------------------------------------------------------------------

  /** What applyBackendMigrations runs, in order. */
  function AppliedFiles(files: seq<string>): seq<string> { Sort(SqlFiles(files), LEX_ORDER) }

  lemma PrefixDecides(a: string, b: string, m: nat, n: nat)
    requires m < n < 1000
    requires StartsWith(a, Prefix(m)) && StartsWith(b, Prefix(n))
    ensures LexLe(a, b)
  {
    PrefixIsNumeral(m);
    PrefixIsNumeral(n);
    var k := FirstDifference(Prefix(m), Prefix(n));
    assert a[..k] == Prefix(m)[..k] && b[..k] == Prefix(n)[..k];
    LexFirstDifference(a, b, k);
  }

  /** Number 1000 sorts before number 101. */
  lemma FourDigitsSortEarly(a: string, b: string)
    requires StartsWith(a, Prefix(101)) && StartsWith(b, Prefix(1000))
    ensures !LexLe(a, b)
  {
    assert Numeral(101) == "101" by { assert Numeral(10) == "10"; }
    assert Numeral(1000) == "1000" by { assert Numeral(10) == "10"; assert Numeral(100) == "100"; }
    assert a[..3] == "101" && b[..4] == "1000";
    assert a[..2] == "101"[..2] && b[..2] == "1000"[..2];
    LexFirstDifference(b, a, 2);
  }

  ghost predicate PrefixedInOrder(names: seq<string>) {
    forall i | 0 <= i < |names| :: StartsWith(names[i], Prefix(i + 1))
  }

  lemma AlphabeticalOrderIff(names: seq<string>)
    requires PrefixedInOrder(names)
    ensures Sorted(names, LEX_ORDER) <==> |names| <= 999
  {
    hide StartsWith;
    hide Prefix;
    if |names| <= 999 {
      forall i, j | 0 <= i < j < |names|
        ensures LEX_ORDER(names[i], names[j])
      {
        PrefixDecides(names[i], names[j], i + 1, j + 1);
      }
    } else {
      FourDigitsSortEarly(names[100], names[999]);
      assert !LEX_ORDER(names[100], names[999]);
    }
  }

  lemma StartsShorter(s: string, a: string, b: string)
    requires StartsWith(s, a + b)
    ensures StartsWith(s, a)
  {
    assert s[..|a|] == a;
  }

  lemma NamesArePrefixed(ms: seq<Migration>)
    requires Numbered(ms) && forall m | m in ms :: WellPadded(m)
    ensures PrefixedInOrder(Map(ms, FILENAME_OF))
  {
    hide Prefix;
    var names := Map(ms, FILENAME_OF);
    forall i | 0 <= i < |ms|
      ensures StartsWith(names[i], Prefix(i + 1))
    {
      assert ms[i] in ms && names[i] == ms[i].filename;
      StartsShorter(names[i], Prefix(i + 1), "_");
    }
  }

  /**
   On a listing the validator accepts, the drift checker applies exactly the validated files in numeric
   order if and only if there are at most 999 of them and no .sql name was skipped.
   */
  lemma AppliedInNumericOrderIff(files: seq<string>)
    requires Errors(Sort(Parsed(SqlFiles(files)), BY_SEQUENCE)) == []
    ensures var ms := Sort(Parsed(SqlFiles(files)), BY_SEQUENCE);
            AppliedFiles(files) == Map(ms, FILENAME_OF) <==>
            |ms| <= 999 && forall f | f in SqlFiles(files) :: ParseMigrationFile(f).Some?
  {
    var sql := SqlFiles(files);
    var ms := Sort(Parsed(sql), BY_SEQUENCE);
    AcceptedNames(sql);
    AlphabeticalOrderIff(Map(ms, FILENAME_OF));
    AppliedIff(sql);
  }

  lemma ParsedNamesAreSnakeCase(sql: seq<string>)
    ensures forall m | m in Parsed(sql) :: SnakeCase(m.name)
  {
    ParsedSound(sql);
  }

  lemma AcceptedNames(sql: seq<string>)
    requires Errors(Sort(Parsed(sql), BY_SEQUENCE)) == []
    ensures PrefixedInOrder(Map(Sort(Parsed(sql), BY_SEQUENCE), FILENAME_OF))
  {
    var ms := Sort(Parsed(sql), BY_SEQUENCE);
    SortedMigrations(sql);
    ParsedNamesAreSnakeCase(sql);
    hide *;
    ErrorsIff(ms);
    NamesArePrefixed(ms);
  }

  /** The applied list is the validated one exactly when nothing was skipped and the names sort numerically. */
  lemma AppliedIff(sql: seq<string>)
    ensures var names := Map(Sort(Parsed(sql), BY_SEQUENCE), FILENAME_OF);
            Sort(sql, LEX_ORDER) == names <==>
            Sorted(names, LEX_ORDER) && forall f | f in sql :: ParseMigrationFile(f).Some?
  {
    hide ParseMigrationFile;
    SortedMigrations(sql);
    ParsedSound(sql);
    AlphabeticalIff(sql, Map(Sort(Parsed(sql), BY_SEQUENCE), FILENAME_OF));
    LexIsAnOrder();
    SortSorts(sql, LEX_ORDER);
  }

  // ---------------------------------------------------------------------------
  // Accepted listings that are applied in another order
  // ---------------------------------------------------------------------------

  /** 001_a.sql, 002_a.sql and so on. */
  function StandardName(i: nat): string { Prefix(i) + ("_" + "a" + EXTENSION) }

  function StandardFiles(n: nat): seq<string> {
    if n == 0 then [] else StandardFiles(n - 1) + [StandardName(n)]
  }

  lemma StandardNameParses(i: nat)
    ensures IsSql(StandardName(i))
    ensures ParseMigrationFile(StandardName(i)) == Some(Migration(StandardName(i), i, "a"))
    ensures DigitPrefix(StandardName(i)) == Prefix(i)
  {
    PrefixIsNumeral(i);
    assert SnakeCase("a");
    hide Prefix;
    hide SnakeCase;
    ParseOfBuilt(Prefix(i), "a");
    BuiltSlices(Prefix(i), "a");
    DigitPrefixStops(Prefix(i), "_" + "a" + EXTENSION);
  }

  lemma {:induction false} StandardFilesParse(n: nat)
    ensures |Parsed(StandardFiles(n))| == n
    ensures forall i | 0 <= i < n :: Parsed(StandardFiles(n))[i] == Migration(StandardName(i + 1), i + 1, "a")
    ensures forall f | f in StandardFiles(n) :: IsSql(f)
  {
    hide ParseMigrationFile;
    hide StandardName;
    hide IsSql;
    if n > 0 {
      StandardFilesParse(n - 1);
      StandardNameParses(n);
      assert StandardFiles(n)[..n - 1] == StandardFiles(n - 1) by { StandardCount(n - 1); }
    }
  }

  lemma {:induction false} StandardCount(n: nat)
    ensures |StandardFiles(n)| == n
  {
    if n > 0 { StandardCount(n - 1); }
  }

  lemma {:induction false} AllAreSql(files: seq<string>)
    requires forall f | f in files :: IsSql(f)
    ensures SqlFiles(files) == files
  {
    if files != [] {
      AllAreSql(files[1..]);
    }
  }

  /** A .sql name that does not parse is skipped by the validator but not by the drift checker. */
  lemma AcceptedWithSkippedName(n: nat, skipped: string)
    requires IsSql(skipped) && ParseMigrationFile(skipped).None?
    ensures Misordered(StandardFiles(n) + [skipped])
  {
    var files := StandardFiles(n) + [skipped];
    StandardFilesParse(n);
    AllAreSql(files);
    assert files[..|files| - 1] == StandardFiles(n);
    StandardAccepted(n, files);
    AppliedInNumericOrderIff(files);
    assert skipped in files;
  }

  /** More than 999 files with canonical names. */
  lemma AcceptedBeyond999(n: nat)
    requires n > 999
    ensures Misordered(StandardFiles(n))
  {
    StandardFilesParse(n);
    AllAreSql(StandardFiles(n));
    StandardAccepted(n, StandardFiles(n));
    AppliedInNumericOrderIff(StandardFiles(n));
    SortedMigrations(StandardFiles(n));
  }

  /** The validator reports no error, yet the drift checker does not apply the files in numeric order. */
  ghost predicate Misordered(files: seq<string>) {
    var ms := Sort(Parsed(SqlFiles(files)), BY_SEQUENCE);
    Errors(ms) == [] && AppliedFiles(files) != Map(ms, FILENAME_OF)
  }

  lemma StandardAccepted(n: nat, files: seq<string>)
    requires SqlFiles(files) == files && Parsed(files) == Parsed(StandardFiles(n))
    ensures Errors(Sort(Parsed(files), BY_SEQUENCE)) == []
  {
    var p := Parsed(files);
    StandardFilesParse(n);
    NumberedSequences(p);
    forall m | m in p
      ensures DigitPrefix(m.filename) == Prefix(m.sequence)
    {
      var i :| 0 <= i < |p| && p[i] == m;
      StandardNameParses(i + 1);
    }
    AcceptsIff(files);
  }

  /** The shortest input of the first kind. */
  lemma SkippedNameExample()
    ensures Misordered(["001_a.sql", "X.sql"])
  {
    FirstStandardName();
    assert StandardFiles(1) == ["001_a.sql"] by {
      assert StandardFiles(0) + [StandardName(1)] == ["001_a.sql"];
    }
    assert ParseMigrationFile("X.sql").None? && IsSql("X.sql") by { assert "X.sql"[1..] == EXTENSION; }
    hide *;
    AcceptedWithSkippedName(1, "X.sql");
    assert StandardFiles(1) + ["X.sql"] == ["001_a.sql", "X.sql"];
  }

  lemma FirstStandardName()
    ensures StandardName(1) == "001_a.sql"
  {
    assert Numeral(1) == "1";
    assert Pad3("1") == "001" by { assert "0" + "1" == "01" && "0" + "01" == "001"; }
    assert "001" + ("_" + "a" + ".sql") == "001_a.sql";
  }
}
