/**
 The `refresh_tokens` table, the statements AuthService runs against it, and the effect of one
 whole call (login, refresh or sign-out) on it.

 A token hash is an injective constructor: two tokens hash alike only when they are the same token.
 Every statement carries a flag that says whether the database reports an error for it.
 */
module RefreshTokens {
  import opened Basics

  type FamilyId = f: string | f != "" witness "family"

  /** A signed token: its text, and the payload that verifying the text recovers. */
  datatype Token = Token(text: string, address: string, isRefresh: bool)

  datatype Hash = HashOf(token: Token)

  datatype Row = Row(userAddress: string, tokenHash: Hash, revoked: bool, expiresAt: Option<int>, family: FamilyId)

  /** Rows are never deleted, so a row's position is its id. */
  type Table = seq<Row>

  // ---------------------------------------------------------------------------
  // Statements
  // ---------------------------------------------------------------------------

  /** The row with the given hash; the hash column is UNIQUE, so `limit 1` drops nothing. */
  function Find(rows: Table, h: Hash): (r: Option<nat>)
    ensures r.Some? ==> r.value < |rows| && rows[r.value].tokenHash == h
    ensures r.None? ==> forall i | 0 <= i < |rows| :: rows[i].tokenHash != h
  {
    if rows == [] then None
    else if rows[|rows| - 1].tokenHash == h then Some(|rows| - 1)
    else Find(rows[..|rows| - 1], h)
  }

  function RevokeRow(rows: Table, i: nat): Table
    requires i < |rows|
  {
    rows[i := rows[i].(revoked := true)]
  }

  /** The family filter; the statement's second filter (`revoked = false`) only skips rows it would not change. */
  function RevokeFamily(rows: Table, f: FamilyId): (r: Table)
    ensures |r| == |rows|
    ensures forall i | 0 <= i < |rows| ::
              r[i] == if rows[i].family == f then rows[i].(revoked := true) else rows[i]
  {
    seq(|rows|, i requires 0 <= i < |rows| =>
      if rows[i].family == f then rows[i].(revoked := true) else rows[i])
  }

  /** Inserting fails on a database error and on a repeated hash. */
  predicate CanInsert(rows: Table, h: Hash, fails: bool) {
    !fails && Find(rows, h).None?
  }

  predicate Expired(row: Row, now: int) {
    row.expiresAt.Some? && row.expiresAt.value < now
  }

  // ---------------------------------------------------------------------------
  // Whole calls
  // ---------------------------------------------------------------------------

  datatype AuthError =
    | TokenRequired | InvalidToken | InvalidPayload | NotFound | ReuseDetected | TokenExpired
    | RotateFailed | PersistFailed

  datatype Outcome = Issued(refreshToken: Token) | SignedOut | Failed(error: AuthError)

  datatype Faults = Faults(lookup: bool, rotate: bool, revokeFamily: bool, insert: bool)

  /**
   What a call reads from outside the table: the clock, the expiry of a token issued now, the text the
   signer returns, a random family id, whether the presented token verifies, and which statements fail.
   */
  datatype Inputs =
    Inputs(now: int, newExpiry: int, newText: string, randomFamily: FamilyId, verifies: bool, faults: Faults)

  datatype Call =
    | Login(address: string, inputs: Inputs)
    | Refresh(token: Token, inputs: Inputs)
    | SignOut(token: Token, inputs: Inputs)

  datatype Effect = Effect(rows: Table, outcome: Outcome)

  function NewToken(address: string, inp: Inputs): Token {
    Token(inp.newText, address, true)
  }

  function NewRow(address: string, f: FamilyId, inp: Inputs): Row {
    Row(address, HashOf(NewToken(address, inp)), false, Some(inp.newExpiry), f)
  }

  function IssueEffect(rows: Table, address: string, f: FamilyId, inp: Inputs): Effect {
    if CanInsert(rows, HashOf(NewToken(address, inp)), inp.faults.insert)
    then Effect(rows + [NewRow(address, f, inp)], Issued(NewToken(address, inp)))
    else Effect(rows, Failed(PersistFailed))
  }

  function RevokeFamilyEffect(rows: Table, f: FamilyId, fails: bool): Table {
    if fails then rows else RevokeFamily(rows, f)
  }

  function RefreshEffect(rows: Table, token: Token, inp: Inputs): Effect {
    if token.text == "" then Effect(rows, Failed(TokenRequired))
    else if !inp.verifies then Effect(rows, Failed(InvalidToken))
    else if !token.isRefresh || token.address == "" then Effect(rows, Failed(InvalidPayload))
    else
      var found := Find(rows, HashOf(token));
      if inp.faults.lookup || found.None? then Effect(rows, Failed(NotFound))
      else
        var row := rows[found.value];
        if row.revoked then
          Effect(RevokeFamilyEffect(rows, row.family, inp.faults.revokeFamily), Failed(ReuseDetected))
        else if Expired(row, inp.now) then Effect(rows, Failed(TokenExpired))
        else if inp.faults.rotate then Effect(rows, Failed(RotateFailed))
        else IssueEffect(RevokeRow(rows, found.value), token.address, row.family, inp)
  }

  /** A failed lookup and an unknown token both count as signed out; so does a failed family revocation. */
  function SignOutEffect(rows: Table, token: Token, inp: Inputs): Effect {
    if token.text == "" then Effect(rows, Failed(TokenRequired))
    else
      var found := Find(rows, HashOf(token));
      if inp.faults.lookup || found.None? then Effect(rows, SignedOut)
      else Effect(RevokeFamilyEffect(rows, rows[found.value].family, inp.faults.revokeFamily), SignedOut)
  }

  function Apply(rows: Table, c: Call): Effect {
    match c
    case Login(address, inp) => IssueEffect(rows, address, inp.randomFamily, inp)
    case Refresh(token, inp) => RefreshEffect(rows, token, inp)
    case SignOut(token, inp) => SignOutEffect(rows, token, inp)
  }

  // ---------------------------------------------------------------------------
  // Vocabulary of the properties
  // ---------------------------------------------------------------------------

  ghost predicate HasFamily(rows: Table, f: FamilyId) {
    exists i | 0 <= i < |rows| :: rows[i].family == f
  }

  ghost predicate LiveAt(rows: Table, f: FamilyId, i: int) {
    0 <= i < |rows| && rows[i].family == f && !rows[i].revoked
  }

  ghost predicate Dead(rows: Table, f: FamilyId) {
    forall i :: !LiveAt(rows, f, i)
  }

  /** The token's row is in the table and belongs to the family. */
  ghost predicate BelongsTo(rows: Table, token: Token, f: FamilyId) {
    exists i | 0 <= i < |rows| :: rows[i].tokenHash == HashOf(token) && rows[i].family == f
  }

  /** Rows are only appended, keep their identity, and never come back to life. */
  ghost predicate Extends(before: Table, after: Table) {
    && |before| <= |after|
    && forall i | 0 <= i < |before| ::
         after[i] == before[i] || after[i] == before[i].(revoked := true)
  }

  ghost predicate UniqueHashes(rows: Table) {
    forall i, j | 0 <= i < j < |rows| :: rows[i].tokenHash != rows[j].tokenHash
  }
}
