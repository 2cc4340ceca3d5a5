/** The service that keeps the table: each method runs its statements one after the other. */
module AuthServiceModel {
  import opened Basics
  import opened RefreshTokens
  import opened AuthSerial

  class AuthService {
    /** The `refresh_tokens` table. */
    var rows: Table

    constructor ()
      ensures rows == []
    {
      rows := [];
    }

    method StoreRefreshToken(address: string, hash: Hash, expiresAt: int, family: FamilyId, fails: bool)
      returns (stored: bool)
      modifies this
      ensures stored <==> !fails && forall i | 0 <= i < |old(rows)| :: old(rows)[i].tokenHash != hash
      ensures rows == old(rows) + if stored then [Row(address, hash, false, Some(expiresAt), family)] else []
    {
      stored := CanInsert(rows, hash, fails);
      if stored {
        rows := rows + [Row(address, hash, false, Some(expiresAt), family)];
      }
    }

    /** Errors are logged and swallowed: the caller cannot tell whether the family was revoked. */
    method RevokeFamilyById(family: FamilyId, fails: bool)
      modifies this
      ensures rows == RevokeFamilyEffect(old(rows), family, fails)
      ensures !fails ==> Dead(rows, family)
    {
      if !fails {
        rows := RevokeFamily(rows, family);
      }
    }

    /** Without a family id this is a fresh login and a random id is used. */
    method IssueTokens(address: string, familyId: Option<FamilyId>, inp: Inputs) returns (r: Outcome)
      modifies this
      ensures Effect(rows, r) ==
              IssueEffect(old(rows), address, if familyId.Some? then familyId.value else inp.randomFamily, inp)
      ensures familyId.None? ==> Effect(rows, r) == Apply(old(rows), Login(address, inp))
    {
      var token := NewToken(address, inp);
      var family := if familyId.Some? then familyId.value else inp.randomFamily;
      var stored := StoreRefreshToken(address, HashOf(token), inp.newExpiry, family, inp.faults.insert);
      if !stored {
        return Failed(PersistFailed);
      }
      return Issued(token);
    }

    method Refresh(token: Token, inp: Inputs) returns (r: Outcome)
      modifies this
      ensures Effect(rows, r) == Apply(old(rows), Call.Refresh(token, inp))
      // A reported reuse ended the session exactly when the family statement worked or nothing was live.
      ensures UniqueHashes(old(rows)) && r == Failed(ReuseDetected) ==>
                forall f :: Dead(rows, f) <==>
                            Dead(old(rows), f) || (BelongsTo(old(rows), token, f) && !inp.faults.revokeFamily)
    {
      if UniqueHashes(rows) {
        forall f {
          ReuseRevokesIff(rows, token, inp, f);
        }
      }
      if token.text == "" {
        return Failed(TokenRequired);
      }
      if !inp.verifies {
        return Failed(InvalidToken);
      }
      if !token.isRefresh || token.address == "" {
        return Failed(InvalidPayload);
      }
      var found := Find(rows, HashOf(token));
      if inp.faults.lookup || found.None? {
        return Failed(NotFound);
      }
      var row := rows[found.value];
      if row.revoked {
        RevokeFamilyById(row.family, inp.faults.revokeFamily);
        return Failed(ReuseDetected);
      }
      if Expired(row, inp.now) {
        return Failed(TokenExpired);
      }
      if inp.faults.rotate {
        return Failed(RotateFailed);
      }
      rows := RevokeRow(rows, found.value);
      r := IssueTokens(token.address, Some(row.family), inp);
    }

    method SignOut(token: Token, inp: Inputs) returns (r: Outcome)
      modifies this
      ensures Effect(rows, r) == Apply(old(rows), Call.SignOut(token, inp))
      // Success is always reported; the session ended exactly when both statements worked or nothing was live.
      ensures r == if token.text == "" then Failed(TokenRequired) else SignedOut
      ensures UniqueHashes(old(rows)) && token.text != "" ==>
                forall f :: Dead(rows, f) <==>
                            || Dead(old(rows), f)
                            || (BelongsTo(old(rows), token, f) && !inp.faults.lookup && !inp.faults.revokeFamily)
    {
      if UniqueHashes(rows) && token.text != "" {
        forall f {
          SignOutRevokesIff(rows, token, inp, f);
        }
      }
      if token.text == "" {
        return Failed(TokenRequired);
      }
      var found := Find(rows, HashOf(token));
      if !inp.faults.lookup && found.Some? {
        var family := rows[found.value].family;
        RevokeFamilyById(family, inp.faults.revokeFamily);
      }
      return SignedOut;
    }
  }
}
