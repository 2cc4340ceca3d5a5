/** Runs in which every call finishes before the next one starts. */
module AuthSerial {
  import opened Basics
  import opened RefreshTokens

  /** A login's random family id has never been used before. */
  ghost predicate FreshFamily(rows: Table, c: Call) {
    c.Login? ==> !HasFamily(rows, c.inputs.randomFamily)
  }

  ghost predicate ValidRun(rows: Table, calls: seq<Call>)
    decreases |calls|
  {
    calls == [] || (FreshFamily(rows, calls[0]) && ValidRun(Apply(rows, calls[0]).rows, calls[1..]))
  }

  function Run(rows: Table, calls: seq<Call>): Table
    decreases |calls|
  {
    if calls == [] then rows else Run(Apply(rows, calls[0]).rows, calls[1..])
  }

  /** Call `c` is a refresh that hands out new tokens. */
  predicate Refreshes(rows: Table, c: Call) {
    c.Refresh? && Apply(rows, c).outcome.Issued?
  }

  function TokenSuccesses(rows: Table, calls: seq<Call>, token: Token): nat
    decreases |calls|
  {
    if calls == [] then 0
    else
      (if Refreshes(rows, calls[0]) && calls[0].token == token then 1 else 0)
      + TokenSuccesses(Apply(rows, calls[0]).rows, calls[1..], token)
  }

  function FamilySuccesses(rows: Table, calls: seq<Call>, f: FamilyId): nat
    decreases |calls|
  {
    if calls == [] then 0
    else
      (if Refreshes(rows, calls[0]) && rows[Find(rows, HashOf(calls[0].token)).value].family == f then 1 else 0)
      + FamilySuccesses(Apply(rows, calls[0]).rows, calls[1..], f)
  }

  ghost function FamilyRows(rows: Table, f: FamilyId): set<int> {
    set i | 0 <= i < |rows| && rows[i].family == f
  }

  /** No login's family id stands in the table that the login meets. */
  ghost predicate LoginsAreFresh(rows: Table, calls: seq<Call>) {
    forall k, i | 0 <= k < |calls| && calls[k].Login? && 0 <= i < |Run(rows, calls[..k])| ::
      Run(rows, calls[..k])[i].family != calls[k].inputs.randomFamily
  }

  lemma LaterTables(rows: Table, calls: seq<Call>)
    requires calls != []
    ensures Run(rows, calls[..0]) == rows
    ensures forall k | 0 < k < |calls| :: Run(rows, calls[..k]) == Run(Apply(rows, calls[0]).rows, calls[1..][..k - 1])
  {
    hide Apply;
    forall k | 0 < k < |calls|
      ensures Run(rows, calls[..k]) == Run(Apply(rows, calls[0]).rows, calls[1..][..k - 1])
    {
      assert calls[..k][1..] == calls[1..][..k - 1];
    }
  }

  lemma FirstAndLaterLogins(rows: Table, calls: seq<Call>)
    requires calls != []
    ensures LoginsAreFresh(rows, calls) <==>
            FreshFamily(rows, calls[0]) && LoginsAreFresh(Apply(rows, calls[0]).rows, calls[1..])
  {
    LaterTables(rows, calls);
    hide Apply;
    hide Run;
    var after, rest := Apply(rows, calls[0]).rows, calls[1..];
    if LoginsAreFresh(rows, calls) {
      forall k, i | 0 <= k < |rest| && rest[k].Login? && 0 <= i < |Run(after, rest[..k])|
        ensures Run(after, rest[..k])[i].family != rest[k].inputs.randomFamily
      {
        assert Run(rows, calls[..k + 1])[i].family != calls[k + 1].inputs.randomFamily;
      }
      forall i | 0 <= i < |rows| && calls[0].Login?
        ensures rows[i].family != calls[0].inputs.randomFamily
      {
        assert Run(rows, calls[..0])[i].family != calls[0].inputs.randomFamily;
      }
    }
    if FreshFamily(rows, calls[0]) && LoginsAreFresh(after, rest) {
      forall k, i | 0 <= k < |calls| && calls[k].Login? && 0 <= i < |Run(rows, calls[..k])|
        ensures Run(rows, calls[..k])[i].family != calls[k].inputs.randomFamily
      {
        if k > 0 {
          assert Run(after, rest[..k - 1])[i].family != rest[k - 1].inputs.randomFamily;
        }
      }
    }
  }

  /** A run is valid exactly when each login's family id is new in the table it meets. */
  lemma {:induction false} ValidRunIff(rows: Table, calls: seq<Call>)
    ensures ValidRun(rows, calls) <==> LoginsAreFresh(rows, calls)
    decreases |calls|
  {
    if calls != [] {
      FirstAndLaterLogins(rows, calls);
      ValidRunIff(Apply(rows, calls[0]).rows, calls[1..]);
    }
  }

  // ---------------------------------------------------------------------------
  // What one call does
  // ---------------------------------------------------------------------------

  lemma ApplyExtends(rows: Table, c: Call)
    ensures Extends(rows, Apply(rows, c).rows)
    ensures |Apply(rows, c).rows| == |rows| + if Apply(rows, c).outcome.Issued? then 1 else 0
  {
  }

  /** A login appends one live row of its random family exactly when the insert works and the new token is unknown. */
  lemma LoginStores(rows: Table, address: string, inp: Inputs)
    ensures var next := Token(inp.newText, address, true);
            Apply(rows, Login(address, inp)) ==
            if !inp.faults.insert && forall i | 0 <= i < |rows| :: rows[i].tokenHash != HashOf(next) then
              Effect(rows + [Row(address, HashOf(next), false, Some(inp.newExpiry), inp.randomFamily)], Issued(next))
            else Effect(rows, Failed(PersistFailed))
  {
    assert NewRow(address, inp.randomFamily, inp) ==
           Row(address, HashOf(Token(inp.newText, address, true)), false, Some(inp.newExpiry), inp.randomFamily);
  }

  /** The presented token's row, when the token is one that a refresh looks up at all. */
  ghost predicate Presents(rows: Table, token: Token, inp: Inputs, i: nat) {
    && token.text != "" && inp.verifies && token.isRefresh && token.address != "" && !inp.faults.lookup
    && i < |rows| && rows[i].tokenHash == HashOf(token)
  }

  /** When each error is reported: the checks are made in this order. */
  lemma RefreshErrors(rows: Table, token: Token, inp: Inputs)
    requires UniqueHashes(rows)
    ensures var outcome := Apply(rows, Refresh(token, inp)).outcome;
            && (outcome == Failed(TokenRequired) <==> token.text == "")
            && (outcome == Failed(InvalidToken) <==> token.text != "" && !inp.verifies)
            && (outcome == Failed(InvalidPayload) <==>
                  token.text != "" && inp.verifies && (!token.isRefresh || token.address == ""))
            && (outcome == Failed(NotFound) <==>
                  && token.text != "" && inp.verifies && token.isRefresh && token.address != ""
                  && (inp.faults.lookup || forall i | 0 <= i < |rows| :: rows[i].tokenHash != HashOf(token)))
            && (outcome == Failed(ReuseDetected) <==> exists i: nat :: Presents(rows, token, inp, i) && rows[i].revoked)
            && (outcome == Failed(TokenExpired) <==>
                  exists i: nat :: Presents(rows, token, inp, i) && !rows[i].revoked
                              && rows[i].expiresAt.Some? && rows[i].expiresAt.value < inp.now)
            && (outcome == Failed(RotateFailed) <==>
                  inp.faults.rotate &&
                  exists i: nat :: Presents(rows, token, inp, i) && !rows[i].revoked
                              && (rows[i].expiresAt.None? || inp.now <= rows[i].expiresAt.value))
            && outcome != SignedOut
  {
    var found := Find(rows, HashOf(token));
    if found.Some? {
      assert forall i: nat | Presents(rows, token, inp, i) :: i == found.value;
      assert Presents(rows, token, inp, found.value) <==>
             token.text != "" && inp.verifies && token.isRefresh && token.address != "" && !inp.faults.lookup;
    } else {
      assert forall i: nat :: !Presents(rows, token, inp, i);
    }
  }

  /** What reuse detection leaves in the table: the family revoked or, when its statement fails, nothing changed. */
  lemma ReuseRevokesFamily(rows: Table, token: Token, inp: Inputs, i: nat)
    requires UniqueHashes(rows) && Presents(rows, token, inp, i) && rows[i].revoked
    ensures var after := Apply(rows, Refresh(token, inp)).rows;
            && |after| == |rows|
            && forall k | 0 <= k < |rows| ::
                 after[k] == if !inp.faults.revokeFamily && rows[k].family == rows[i].family
                             then rows[k].(revoked := true) else rows[k]
  {
    assert Find(rows, HashOf(token)) == Some(i);
  }

  /** What a sign-out does to the table and reports, for a known token and for an unknown one. */
  lemma SignOutRevokesFamily(rows: Table, token: Token, inp: Inputs)
    requires UniqueHashes(rows)
    ensures var r := Apply(rows, SignOut(token, inp));
            && r.outcome == (if token.text == "" then Failed(TokenRequired) else SignedOut)
            && |r.rows| == |rows|
            && forall k | 0 <= k < |rows| ::
                 r.rows[k] == if token.text != "" && !inp.faults.lookup && !inp.faults.revokeFamily
                                 && BelongsTo(rows, token, rows[k].family)
                              then rows[k].(revoked := true) else rows[k]
  {
  }

  /**
   A refresh succeeds exactly when no statement it runs fails, the token verifies and is live and
   unexpired, and the new token is not in the table yet; it then retires the presented row and adds
   one live row to the same family.
   */
  lemma RefreshSucceeds(rows: Table, token: Token, inp: Inputs)
    requires UniqueHashes(rows)
    ensures Apply(rows, Refresh(token, inp)).outcome.Issued? <==>
            && token.text != "" && inp.verifies && token.isRefresh && token.address != ""
            && !inp.faults.lookup && !inp.faults.rotate && !inp.faults.insert
            && (exists i | 0 <= i < |rows| ::
                  && rows[i].tokenHash == HashOf(token) && !rows[i].revoked
                  && (rows[i].expiresAt.None? || inp.now <= rows[i].expiresAt.value))
            && (forall i | 0 <= i < |rows| :: rows[i].tokenHash != HashOf(Token(inp.newText, token.address, true)))
    ensures forall i | 0 <= i < |rows| && rows[i].tokenHash == HashOf(token) ::
              Apply(rows, Refresh(token, inp)).outcome.Issued? ==>
                var next := Token(inp.newText, token.address, true);
                Apply(rows, Refresh(token, inp)) ==
                Effect(rows[..i] + [rows[i].(revoked := true)] + rows[i + 1..]
                       + [Row(token.address, HashOf(next), false, Some(inp.newExpiry), rows[i].family)],
                       Issued(next))
  {
    var found := Find(rows, HashOf(token));
    if found.Some? {
      var i := found.value;
      assert RevokeRow(rows, i) == rows[..i] + [rows[i].(revoked := true)] + rows[i + 1..];
      assert forall k | 0 <= k < |rows| :: RevokeRow(rows, i)[k].tokenHash == rows[k].tokenHash;
    }
  }

  /** A successful family statement kills exactly the family that was named. */
  lemma FamilyDeadIff(rows: Table, f: FamilyId, named: FamilyId, fails: bool)
    requires HasFamily(rows, named)
    ensures Dead(RevokeFamilyEffect(rows, named, fails), f) <==> Dead(rows, f) || (!fails && f == named)
  {
    var after := RevokeFamilyEffect(rows, named, fails);
    if Dead(rows, f) {
      assert forall i :: LiveAt(after, f, i) ==> LiveAt(rows, f, i);
    } else if fails || f != named {
      var i :| LiveAt(rows, f, i);
      assert LiveAt(after, f, i);
    }
  }

  /**
   Sign-out reports success for every token that is given, but a family is dead afterwards exactly when it
   was dead before, or when the token is one of its own and both the lookup and the revocation succeed.
   */
  lemma SignOutRevokesIff(rows: Table, token: Token, inp: Inputs, f: FamilyId)
    requires UniqueHashes(rows) && token.text != ""
    ensures Apply(rows, SignOut(token, inp)).outcome == SignedOut
    ensures Dead(Apply(rows, SignOut(token, inp)).rows, f) <==>
            Dead(rows, f) || (BelongsTo(rows, token, f) && !inp.faults.lookup && !inp.faults.revokeFamily)
  {
    var found := Find(rows, HashOf(token));
    if !inp.faults.lookup && found.Some? {
      FamilyDeadIff(rows, f, rows[found.value].family, inp.faults.revokeFamily);
    }
  }

  /** So a sign-out with either statement failing reports success and leaves a live session as it was. */
  lemma SignOutMayNotRevoke(token: Token, inp: Inputs, f: FamilyId)
    requires token.text != "" && (inp.faults.lookup || inp.faults.revokeFamily)
    ensures var rows := [Row(token.address, HashOf(token), false, None, f)];
            Apply(rows, SignOut(token, inp)).outcome == SignedOut && !Dead(Apply(rows, SignOut(token, inp)).rows, f)
  {
    var rows := [Row(token.address, HashOf(token), false, None, f)];
    assert LiveAt(rows, f, 0);
    SignOutRevokesIff(rows, token, inp, f);
  }

  /**
   A refresh reports "session revoked" exactly when a verified token's row is found revoked; the family is
   then dead exactly when it was dead before or its revoking statement succeeds.
   */
  lemma ReuseRevokesIff(rows: Table, token: Token, inp: Inputs, f: FamilyId)
    requires UniqueHashes(rows)
    ensures var r := Apply(rows, Refresh(token, inp));
            && (r.outcome == Failed(ReuseDetected) <==>
                  && token.text != "" && inp.verifies && token.isRefresh && token.address != "" && !inp.faults.lookup
                  && exists i | 0 <= i < |rows| :: rows[i].tokenHash == HashOf(token) && rows[i].revoked)
            && (r.outcome == Failed(ReuseDetected) ==>
                  (Dead(r.rows, f) <==> Dead(rows, f) || (BelongsTo(rows, token, f) && !inp.faults.revokeFamily)))
  {
    var found := Find(rows, HashOf(token));
    if Apply(rows, Refresh(token, inp)).outcome == Failed(ReuseDetected) {
      FamilyDeadIff(rows, f, rows[found.value].family, inp.faults.revokeFamily);
    }
  }

  // ---------------------------------------------------------------------------
  // What every call keeps
  // ---------------------------------------------------------------------------

  /** Only the newest row of a family can be live. */
  ghost predicate OnlyNewestLive(rows: Table) {
    forall i, j | 0 <= i < j < |rows| && rows[i].family == rows[j].family :: rows[i].revoked
  }

  /** A row's address is the one signed into its token. */
  ghost predicate AddressIsSigned(rows: Table) {
    forall i | 0 <= i < |rows| :: rows[i].userAddress == rows[i].tokenHash.token.address
  }

  ghost predicate OneAddressPerFamily(rows: Table) {
    forall i, j | 0 <= i < j < |rows| && rows[i].family == rows[j].family ::
      rows[i].userAddress == rows[j].userAddress
  }

  ghost predicate Invariant(rows: Table) {
    UniqueHashes(rows) && OnlyNewestLive(rows) && AddressIsSigned(rows) && OneAddressPerFamily(rows)
  }

  lemma RevokingKeepsInvariant(rows: Table, after: Table)
    requires Invariant(rows) && |after| == |rows| && Extends(rows, after)
    ensures Invariant(after)
  {
  }

  lemma AppendingKeepsInvariant(rows: Table, row: Row)
    requires Invariant(rows) && Find(rows, row.tokenHash).None?
    requires row.userAddress == row.tokenHash.token.address
    requires forall i | 0 <= i < |rows| && rows[i].family == row.family ::
               rows[i].revoked && rows[i].userAddress == row.userAddress
    ensures Invariant(rows + [row])
  {
  }

  /** The presented row is live, so it is the newest of its family: the family is dead once it is retired. */
  lemma RetiringKillsFamily(rows: Table, i: nat)
    requires Invariant(rows) && i < |rows| && !rows[i].revoked
    ensures forall k | 0 <= k < |rows| && rows[k].family == rows[i].family ::
              RevokeRow(rows, i)[k].revoked && rows[k].userAddress == rows[i].userAddress
  {
    forall k | 0 <= k < |rows| && rows[k].family == rows[i].family
      ensures k <= i && RevokeRow(rows, i)[k].revoked && rows[k].userAddress == rows[i].userAddress
    {
      if k < i { assert rows[k].revoked; }
    }
  }

  lemma IssuingKeepsInvariant(rows: Table, address: string, f: FamilyId, inp: Inputs)
    requires Invariant(rows)
    requires forall i | 0 <= i < |rows| && rows[i].family == f :: rows[i].revoked && rows[i].userAddress == address
    ensures Invariant(IssueEffect(rows, address, f, inp).rows)
  {
    if CanInsert(rows, HashOf(NewToken(address, inp)), inp.faults.insert) {
      AppendingKeepsInvariant(rows, NewRow(address, f, inp));
    }
  }

  lemma ApplyKeepsInvariant(rows: Table, c: Call)
    requires Invariant(rows) && FreshFamily(rows, c)
    ensures Invariant(Apply(rows, c).rows)
  {
    var after := Apply(rows, c).rows;
    if c.Login? {
      IssuingKeepsInvariant(rows, c.address, c.inputs.randomFamily, c.inputs);
    } else if |after| == |rows| {
      ApplyExtends(rows, c);
      RevokingKeepsInvariant(rows, after);
    } else {
      var i := Find(rows, HashOf(c.token)).value;
      RetiringKillsFamily(rows, i);
      RevokingKeepsInvariant(rows, RevokeRow(rows, i));
      IssuingKeepsInvariant(RevokeRow(rows, i), c.token.address, rows[i].family, c.inputs);
    }
  }

  lemma {:induction false} RunKeepsInvariant(rows: Table, calls: seq<Call>)
    requires Invariant(rows) && ValidRun(rows, calls)
    ensures Invariant(Run(rows, calls))
    decreases |calls|
  {
    if calls != [] {
      ApplyKeepsInvariant(rows, calls[0]);
      RunKeepsInvariant(Apply(rows, calls[0]).rows, calls[1..]);
    }
  }

  /**
   A refresh that fails leaves the table as it was, except in two cases: a retired token kills its family,
   and a successor that cannot be stored ends the session, since the presented row is already retired.
   */
  lemma FailedRefresh(rows: Table, token: Token, inp: Inputs, i: nat)
    requires Invariant(rows) && i < |rows| && rows[i].tokenHash == HashOf(token)
    requires Apply(rows, Refresh(token, inp)).outcome.Failed?
    ensures var r := Apply(rows, Refresh(token, inp));
            var (after, error) := (r.rows, r.outcome.error);
            && (error == ReuseDetected ==> rows[i].revoked)
            && (error == ReuseDetected && !inp.faults.revokeFamily ==>
                  && |after| == |rows| && Dead(after, rows[i].family)
                  && forall k | 0 <= k < |rows| && rows[k].family != rows[i].family :: after[k] == rows[k])
            && (error == PersistFailed ==>
                  after == rows[i := rows[i].(revoked := true)] && Dead(after, rows[i].family))
            && (error == PersistFailed <==> !rows[i].revoked && Dead(after, rows[i].family))
            && (error == TokenExpired ==>
                  !rows[i].revoked && rows[i].expiresAt.Some? && rows[i].expiresAt.value < inp.now)
            && (error !in {ReuseDetected, PersistFailed} || (error == ReuseDetected && inp.faults.revokeFamily) ==>
                  after == rows)
  {
    assert Find(rows, HashOf(token)) == Some(i);
    if Apply(rows, Refresh(token, inp)).outcome.error == PersistFailed {
      RetiringKillsFamily(rows, i);
    } else if !rows[i].revoked {
      assert LiveAt(Apply(rows, Refresh(token, inp)).rows, rows[i].family, i);
    }
  }

  /**
   A refresh with a live token ends its session exactly when it gets past the revoke update and the
   successor cannot be stored: the insert fails, or the signer returned a token that is in the table already.
   */
  lemma RefreshEndsSessionIff(rows: Table, token: Token, inp: Inputs, i: nat)
    requires Invariant(rows) && i < |rows| && rows[i].tokenHash == HashOf(token) && !rows[i].revoked
    ensures Dead(Apply(rows, Refresh(token, inp)).rows, rows[i].family) <==>
            && token.text != "" && inp.verifies && token.isRefresh && token.address != ""
            && !inp.faults.lookup && !inp.faults.rotate
            && (rows[i].expiresAt.None? || inp.now <= rows[i].expiresAt.value)
            && (inp.faults.insert ||
                exists k | 0 <= k < |rows| :: rows[k].tokenHash == HashOf(Token(inp.newText, token.address, true)))
    ensures Dead(Apply(rows, Refresh(token, inp)).rows, rows[i].family) <==>
            Apply(rows, Refresh(token, inp)).outcome == Failed(PersistFailed)
  {
    assert Find(rows, HashOf(token)) == Some(i);
    var f, r := rows[i].family, Apply(rows, Refresh(token, inp));
    var retired := RevokeRow(rows, i);
    assert forall k | 0 <= k < |rows| :: retired[k].tokenHash == rows[k].tokenHash;
    if r.outcome == Failed(PersistFailed) {
      RetiringKillsFamily(rows, i);
    } else if r.outcome.Issued? {
      assert LiveAt(r.rows, f, |rows|);
    } else {
      assert LiveAt(r.rows, f, i);
    }
  }

  /** Without any fault: a refresh for which the signer repeats the login's token, as in the same second. */
  lemma RepeatedTokenEndsSession(token: Token, inp: Inputs, f: FamilyId, expiry: int)
    requires token.text != "" && token.isRefresh && token.address != "" && inp.verifies
    requires inp.newText == token.text && inp.now <= expiry && inp.faults == Faults(false, false, false, false)
    ensures var rows := [Row(token.address, HashOf(token), false, Some(expiry), f)];
            var r := Apply(rows, Refresh(token, inp));
            LiveAt(rows, f, 0) && r.outcome == Failed(PersistFailed) && Dead(r.rows, f)
  {
    var rows := [Row(token.address, HashOf(token), false, Some(expiry), f)];
    assert NewToken(token.address, inp) == token;
    assert rows[0].tokenHash == HashOf(NewToken(token.address, inp));
    RefreshEndsSessionIff(rows, token, inp, 0);
  }

  // ---------------------------------------------------------------------------
  // Properties of whole runs
  // ---------------------------------------------------------------------------

  ghost predicate Spent(rows: Table, token: Token) {
    exists i | 0 <= i < |rows| :: rows[i].tokenHash == HashOf(token) && rows[i].revoked
  }

  lemma SpentAfterCall(rows: Table, c: Call, token: Token)
    requires UniqueHashes(rows)
    ensures Spent(rows, token) ==> Spent(Apply(rows, c).rows, token)
    ensures Refreshes(rows, c) && c.token == token ==> !Spent(rows, token) && Spent(Apply(rows, c).rows, token)
  {
    ApplyExtends(rows, c);
    var after := Apply(rows, c).rows;
    if Spent(rows, token) {
      var i :| 0 <= i < |rows| && rows[i].tokenHash == HashOf(token) && rows[i].revoked;
      assert after[i] == rows[i];
    }
    if Refreshes(rows, c) && c.token == token {
      var i := Find(rows, HashOf(token)).value;
      assert after[i] == rows[i].(revoked := true);
    }
  }

  /** No token is ever refreshed twice, and a retired one never again. */
  lemma {:induction false} TokenRefreshedAtMostOnce(rows: Table, calls: seq<Call>, token: Token)
    requires Invariant(rows) && ValidRun(rows, calls)
    ensures TokenSuccesses(rows, calls, token) <= if Spent(rows, token) then 0 else 1
    decreases |calls|
  {
    if calls != [] {
      ApplyKeepsInvariant(rows, calls[0]);
      SpentAfterCall(rows, calls[0], token);
      TokenRefreshedAtMostOnce(Apply(rows, calls[0]).rows, calls[1..], token);
    }
  }

  /** The count of a token's successes counts every one of them. */
  lemma {:induction false} SuccessIsCounted(rows: Table, calls: seq<Call>, k: nat)
    requires k < |calls| && calls[k].Refresh? && Apply(Run(rows, calls[..k]), calls[k]).outcome.Issued?
    ensures TokenSuccesses(rows, calls, calls[k].token) >= 1
    decreases k
  {
    hide Apply;
    if k > 0 {
      assert calls[..k][1..] == calls[1..][..k - 1];
      SuccessIsCounted(Apply(rows, calls[0]).rows, calls[1..], k - 1);
    }
  }

  lemma {:induction false} RunKeepsSpent(rows: Table, calls: seq<Call>, token: Token)
    requires Invariant(rows) && ValidRun(rows, calls) && Spent(rows, token)
    ensures Invariant(Run(rows, calls)) && Spent(Run(rows, calls), token)
    decreases |calls|
  {
    if calls != [] {
      ApplyKeepsInvariant(rows, calls[0]);
      SpentAfterCall(rows, calls[0], token);
      RunKeepsSpent(Apply(rows, calls[0]).rows, calls[1..], token);
    }
  }

  lemma {:induction false} RunSplits(rows: Table, calls: seq<Call>, k: nat)
    requires k <= |calls| && ValidRun(rows, calls)
    ensures ValidRun(rows, calls[..k]) && ValidRun(Run(rows, calls[..k]), calls[k..])
    ensures Run(rows, calls) == Run(Run(rows, calls[..k]), calls[k..])
    decreases k
  {
    if k == 0 {
      assert calls[..0] == [] && calls[0..] == calls;
    } else {
      RunSplits(Apply(rows, calls[0]).rows, calls[1..], k - 1);
      assert calls[..k][1..] == calls[1..][..k - 1] && calls[k..] == calls[1..][k - 1..];
    }
  }

  lemma RunsKeepUnique(rows: Table, calls: seq<Call>)
    requires Invariant(rows)
    ensures UniqueHashes(rows)
    ensures ValidRun(rows, calls) ==> UniqueHashes(Run(rows, calls))
  {
    if ValidRun(rows, calls) { RunKeepsInvariant(rows, calls); }
  }

  /** No two calls of a run are both answered with a successor for the same token. */
  lemma {:induction false} NeverRefreshedTwice(rows: Table, calls: seq<Call>, i: nat, j: nat, token: Token)
    requires Invariant(rows) && ValidRun(rows, calls) && i < j < |calls|
    requires calls[i].Refresh? && calls[i].token == token && calls[j].Refresh? && calls[j].token == token
    ensures !(Apply(Run(rows, calls[..i]), calls[i]).outcome.Issued?
              && Apply(Run(rows, calls[..j]), calls[j]).outcome.Issued?)
    decreases i
  {
    hide Apply;
    hide Invariant;
    hide Spent;
    hide FreshFamily;
    var after, rest := Apply(rows, calls[0]).rows, calls[1..];
    RunsKeepUnique(rows, calls);
    ApplyKeepsInvariant(rows, calls[0]);
    assert calls[..j][1..] == rest[..j - 1];
    if i > 0 {
      NeverRefreshedTwice(after, rest, i - 1, j - 1, token);
      assert calls[..i][1..] == rest[..i - 1];
    } else if Apply(rows, calls[0]).outcome.Issued? {
      SpentAfterCall(rows, calls[0], token);
      RunSplits(after, rest, j - 1);
      RunKeepsSpent(after, rest[..j - 1], token);
      RunsKeepUnique(after, rest[..j - 1]);
      SpentAfterCall(Run(after, rest[..j - 1]), calls[j], token);
    }
  }

  lemma CallKeepsFamilies(rows: Table, c: Call)
    ensures var after := Apply(rows, c).rows;
            && |rows| <= |after| <= |rows| + 1
            && (forall i | 0 <= i < |rows| :: after[i].family == rows[i].family)
            && (|after| > |rows| ==>
                  after[|rows|].family ==
                  if c.Login? then c.inputs.randomFamily else rows[Find(rows, HashOf(c.token)).value].family)
            && (|after| > |rows| <==> Apply(rows, c).outcome.Issued?)
  {
    hide Expired;
    hide CanInsert;
  }

  lemma FamilyRowsAfterCall(rows: Table, c: Call, f: FamilyId)
    requires FreshFamily(rows, c)
    ensures var succ := if Refreshes(rows, c) && rows[Find(rows, HashOf(c.token)).value].family == f then 1 else 0;
            var after := Apply(rows, c).rows;
            && (HasFamily(rows, f) ==> HasFamily(after, f) && |FamilyRows(after, f)| == |FamilyRows(rows, f)| + succ)
            && (!HasFamily(rows, f) ==> succ == 0 && |FamilyRows(after, f)| == if HasFamily(after, f) then 1 else 0)
  {
    CallKeepsFamilies(rows, c);
    FamilyRowsAppended(rows, Apply(rows, c).rows, f);
  }

  lemma FamilyRowsAppended(before: Table, after: Table, f: FamilyId)
    requires |before| <= |after| <= |before| + 1
    requires forall i | 0 <= i < |before| :: after[i].family == before[i].family
    ensures var grown := |after| > |before| && after[|before|].family == f;
            && |FamilyRows(after, f)| == |FamilyRows(before, f)| + (if grown then 1 else 0)
            && (HasFamily(after, f) <==> HasFamily(before, f) || grown)
    ensures !HasFamily(before, f) ==> FamilyRows(before, f) == {}
  {
    var grown := |after| > |before| && after[|before|].family == f;
    assert FamilyRows(after, f) == FamilyRows(before, f) + if grown then {|before|} else {};
    if HasFamily(before, f) {
      var i :| 0 <= i < |before| && before[i].family == f;
      assert after[i].family == f;
    }
  }

  /** A family gains one row per successful refresh, after the one its login stored. */
  lemma {:induction false} FamilyRowCount(rows: Table, calls: seq<Call>, f: FamilyId)
    requires ValidRun(rows, calls)
    ensures var after := Run(rows, calls);
            if HasFamily(rows, f) then
              |FamilyRows(after, f)| == |FamilyRows(rows, f)| + FamilySuccesses(rows, calls, f)
            else if HasFamily(after, f) then
              |FamilyRows(after, f)| == 1 + FamilySuccesses(rows, calls, f)
            else
              FamilySuccesses(rows, calls, f) == 0
    decreases |calls|
  {
    if calls != [] {
      FamilyRowsAfterCall(rows, calls[0], f);
      FamilyRowCount(Apply(rows, calls[0]).rows, calls[1..], f);
    }
  }

  lemma DeadAfterCall(rows: Table, c: Call, f: FamilyId)
    requires UniqueHashes(rows) && FreshFamily(rows, c) && HasFamily(rows, f) && Dead(rows, f)
    ensures var after := Apply(rows, c).rows;
            HasFamily(after, f) && Dead(after, f) && FamilyRows(after, f) == FamilyRows(rows, f)
    ensures Refreshes(rows, c) ==> rows[Find(rows, HashOf(c.token)).value].family != f
  {
    ApplyExtends(rows, c);
    var after := Apply(rows, c).rows;
    var i :| 0 <= i < |rows| && rows[i].family == f;
    assert after[i].family == f;
    if Refreshes(rows, c) {
      assert !LiveAt(rows, f, Find(rows, HashOf(c.token)).value);
    }
    forall k ensures !LiveAt(after, f, k) {
      assert !LiveAt(rows, f, k);
    }
  }

  /** Once a family has no live row, no call sequence ever refreshes one of its tokens again. */
  lemma {:induction false} DeadForever(rows: Table, calls: seq<Call>, f: FamilyId)
    requires Invariant(rows) && ValidRun(rows, calls) && HasFamily(rows, f) && Dead(rows, f)
    ensures Dead(Run(rows, calls), f)
    ensures FamilySuccesses(rows, calls, f) == 0
    ensures FamilyRows(Run(rows, calls), f) == FamilyRows(rows, f)
    decreases |calls|
  {
    if calls != [] {
      DeadAfterCall(rows, calls[0], f);
      ApplyKeepsInvariant(rows, calls[0]);
      DeadForever(Apply(rows, calls[0]).rows, calls[1..], f);
    }
  }

  /** Every run from the empty table. */
  lemma SerialRuns(calls: seq<Call>, f: FamilyId, token: Token)
    requires ValidRun([], calls)
    ensures var rows := Run([], calls);
            && OnlyNewestLive(rows) && OneAddressPerFamily(rows)
            && TokenSuccesses([], calls, token) <= 1
            && (HasFamily(rows, f) ==> |FamilyRows(rows, f)| == 1 + FamilySuccesses([], calls, f))
  {
    RunKeepsInvariant([], calls);
    TokenRefreshedAtMostOnce([], calls, token);
    FamilyRowCount([], calls, f);
  }
}
