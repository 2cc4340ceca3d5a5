/**
 Concurrent calls: every database statement is one atomic step, any step may fail, and a call may stop
 between two of its steps. `rows` is the shared table; `calls` is what each call in flight remembers.
 */
module AuthInterleaved {
  import opened Basics
  import opened RefreshTokens
  import AuthSerial

  type CallId = nat

  datatype Phase =
    | Selected(row: nat, token: Token)   // the lookup saw a live, unexpired row
    | Rotating(row: nat, token: Token)   // the revoke update is done, the successor is not stored yet
    | Revoking(family: FamilyId)         // about to revoke a whole family

  datatype State = State(rows: Table, calls: map<CallId, Phase>)

  datatype Step =
    | StoreLogin(address: string, inputs: Inputs)
    | Lookup(call: CallId, token: Token, inputs: Inputs)
    | Retire(call: CallId, fails: bool)
    | StoreSuccessor(call: CallId, inputs: Inputs)
    | SignOutLookup(call: CallId, token: Token, fails: bool)
    | RevokeAll(call: CallId, fails: bool)
    | Stop(call: CallId)

  const START := State([], map[])

  /** A call that looked up a row and has not finished rotating it. */
  predicate Holder(p: Phase) {
    p.Selected? || p.Rotating?
  }

  predicate WellFormed(s: State) {
    forall c | c in s.calls && Holder(s.calls[c]) ::
      s.calls[c].row < |s.rows| && s.rows[s.calls[c].row].tokenHash == HashOf(s.calls[c].token)
  }

  ghost predicate Enabled(s: State, step: Step) {
    match step
    case StoreLogin(_, inp) => !HasFamily(s.rows, inp.randomFamily)
    case Lookup(c, _, _) => c !in s.calls
    case Retire(c, _) => c in s.calls && s.calls[c].Selected?
    case StoreSuccessor(c, _) => c in s.calls && s.calls[c].Rotating?
    case SignOutLookup(c, _, _) => c !in s.calls
    case RevokeAll(c, _) => c in s.calls && s.calls[c].Revoking?
    case Stop(c) => c in s.calls
  }

  function AfterLookup(s: State, c: CallId, token: Token, inp: Inputs): State {
    var found := Find(s.rows, HashOf(token));
    if token.text == "" || !inp.verifies || !token.isRefresh || token.address == "" || inp.faults.lookup || found.None?
    then s
    else if s.rows[found.value].revoked
    then s.(calls := s.calls[c := Revoking(s.rows[found.value].family)])
    else if Expired(s.rows[found.value], inp.now) then s
    else s.(calls := s.calls[c := Selected(found.value, token)])
  }

  function AfterRetire(s: State, c: CallId, fails: bool): State
    requires WellFormed(s) && c in s.calls && s.calls[c].Selected?
  {
    var p := s.calls[c];
    if fails then s.(calls := s.calls - {c})
    else State(RevokeRow(s.rows, p.row), s.calls[c := Rotating(p.row, p.token)])
  }

  function AfterStoreSuccessor(s: State, c: CallId, inp: Inputs): State
    requires WellFormed(s) && c in s.calls && s.calls[c].Rotating?
  {
    var p := s.calls[c];
    State(IssueEffect(s.rows, p.token.address, s.rows[p.row].family, inp).rows, s.calls - {c})
  }

  function AfterSignOutLookup(s: State, c: CallId, token: Token, fails: bool): State {
    var found := Find(s.rows, HashOf(token));
    if token.text == "" || fails || found.None? then s
    else s.(calls := s.calls[c := Revoking(s.rows[found.value].family)])
  }

  function AfterRevokeAll(s: State, c: CallId, fails: bool): State
    requires c in s.calls && s.calls[c].Revoking?
  {
    State(RevokeFamilyEffect(s.rows, s.calls[c].family, fails), s.calls - {c})
  }

  ghost function Next(s: State, step: Step): (s': State)
    requires WellFormed(s) && Enabled(s, step)
    ensures WellFormed(s') && Extends(s.rows, s'.rows)
  {
    match step
    case StoreLogin(address, inp) => s.(rows := IssueEffect(s.rows, address, inp.randomFamily, inp).rows)
    case Lookup(c, token, inp) => AfterLookup(s, c, token, inp)
    case Retire(c, fails) => AfterRetire(s, c, fails)
    case StoreSuccessor(c, inp) => AfterStoreSuccessor(s, c, inp)
    case SignOutLookup(c, token, fails) => AfterSignOutLookup(s, c, token, fails)
    case RevokeAll(c, fails) => AfterRevokeAll(s, c, fails)
    case Stop(c) => s.(calls := s.calls - {c})
  }

  /** Any call may stop between two statements, and any of its statements may fail: its part of the run is over. */
  lemma AnyStatementMayFail(s: State, id: CallId, inp: Inputs)
    requires WellFormed(s) && id in s.calls && inp.faults.insert
    ensures var gone := State(s.rows, s.calls - {id});
            && Enabled(s, Stop(id)) && Next(s, Stop(id)) == gone
            && match s.calls[id]
               case Selected(_, _) => Enabled(s, Retire(id, true)) && Next(s, Retire(id, true)) == gone
               case Rotating(_, _) => Enabled(s, StoreSuccessor(id, inp)) && Next(s, StoreSuccessor(id, inp)) == gone
               case Revoking(_) => Enabled(s, RevokeAll(id, true)) && Next(s, RevokeAll(id, true)) == gone
  {
  }

  ghost predicate ValidRun(s: State, steps: seq<Step>)
    requires WellFormed(s)
    decreases |steps|
  {
    steps == [] || (Enabled(s, steps[0]) && ValidRun(Next(s, steps[0]), steps[1..]))
  }

  ghost function Run(s: State, steps: seq<Step>): (s': State)
    requires WellFormed(s) && ValidRun(s, steps)
    ensures WellFormed(s')
    decreases |steps|
  {
    if steps == [] then s else Run(Next(s, steps[0]), steps[1..])
  }

  /** In every run, rows keep their identity and a revoked row never becomes live again. */
  lemma {:induction false} RevokedStaysRevoked(s: State, steps: seq<Step>)
    requires WellFormed(s) && ValidRun(s, steps)
    ensures Extends(s.rows, Run(s, steps).rows)
    decreases |steps|
  {
    if steps != [] {
      RevokedStaysRevoked(Next(s, steps[0]), steps[1..]);
    }
  }

  ghost predicate AddressesAgree(s: State) {
    AuthSerial.AddressIsSigned(s.rows) && AuthSerial.OneAddressPerFamily(s.rows)
  }

  lemma StepKeepsAddresses(s: State, step: Step)
    requires WellFormed(s) && Enabled(s, step) && AddressesAgree(s)
    ensures AddressesAgree(Next(s, step))
  {
  }

  lemma {:induction false} AddressesStay(s: State, steps: seq<Step>)
    requires WellFormed(s) && ValidRun(s, steps) && AddressesAgree(s)
    ensures AddressesAgree(Run(s, steps))
    decreases |steps|
  {
    if steps != [] {
      StepKeepsAddresses(s, steps[0]);
      AddressesStay(Next(s, steps[0]), steps[1..]);
    }
  }

  /** Forked or not, all rows of a family carry one address, and it is the one signed into their tokens. */
  lemma OneAddressInEveryRun(steps: seq<Step>)
    requires ValidRun(START, steps)
    ensures AddressesAgree(Run(START, steps))
  {
    AddressesStay(START, steps);
  }

  // ---------------------------------------------------------------------------
  // Conservation: live rows plus rotations in flight
  // ---------------------------------------------------------------------------

  ghost function Live(s: State, f: FamilyId): set<int> {
    set i | 0 <= i < |s.rows| && LiveAt(s.rows, f, i)
  }

  ghost function InRotation(s: State, f: FamilyId): set<CallId>
    requires WellFormed(s)
  {
    set c | c in s.calls && s.calls[c].Rotating? && s.rows[s.calls[c].row].family == f
  }

  ghost function Weight(s: State, f: FamilyId): nat
    requires WellFormed(s)
  {
    |Live(s, f)| + |InRotation(s, f)|
  }

  ghost predicate Stores(s: State, address: string, inp: Inputs) {
    CanInsert(s.rows, HashOf(NewToken(address, inp)), inp.faults.insert)
  }

  /** The step is a revoke update that matches a row some other step already revoked. */
  ghost predicate ReRevokes(s: State, step: Step, f: FamilyId)
    requires WellFormed(s) && Enabled(s, step)
  {
    step.Retire? && !step.fails &&
    var row := s.rows[s.calls[step.call].row]; row.revoked && row.family == f
  }

  ghost predicate StartsFamily(s: State, step: Step, f: FamilyId) {
    step.StoreLogin? && step.inputs.randomFamily == f && Stores(s, step.address, step.inputs)
  }

  /** What a step takes away: rows a family revocation kills, or a rotation that never stores its successor. */
  ghost function Lost(s: State, step: Step, f: FamilyId): nat
    requires WellFormed(s) && Enabled(s, step)
  {
    match step
    case RevokeAll(c, fails) => if !fails && s.calls[c].family == f then |Live(s, f)| else 0
    case StoreSuccessor(c, inp) =>
      if s.rows[s.calls[c].row].family == f && !Stores(s, s.calls[c].token.address, inp) then 1 else 0
    case Stop(c) => if s.calls[c].Rotating? && s.rows[s.calls[c].row].family == f then 1 else 0
    case _ => 0
  }

  ghost predicate Conserves(s: State, step: Step, f: FamilyId)
    requires WellFormed(s) && Enabled(s, step)
  {
    Weight(Next(s, step), f) + Lost(s, step, f)
    == Weight(s, f) + (if ReRevokes(s, step, f) || StartsFamily(s, step, f) then 1 else 0)
  }

  lemma LoginMovesLive(s: State, step: Step, f: FamilyId)
    requires WellFormed(s) && Enabled(s, step) && step.StoreLogin?
    ensures Live(Next(s, step), f) == Live(s, f) + if StartsFamily(s, step, f) then {|s.rows|} else {}
  {
  }

  lemma LoginKeepsRotations(s: State, step: Step, f: FamilyId)
    requires WellFormed(s) && Enabled(s, step) && step.StoreLogin?
    ensures InRotation(Next(s, step), f) == InRotation(s, f)
  {
    assert forall k | 0 <= k < |s.rows| :: Next(s, step).rows[k] == s.rows[k];
  }

  lemma StoreLoginConserves(s: State, step: Step, f: FamilyId)
    requires WellFormed(s) && Enabled(s, step) && step.StoreLogin?
    ensures Conserves(s, step, f)
  {
    LoginMovesLive(s, step, f);
    LoginKeepsRotations(s, step, f);
    assert |s.rows| !in Live(s, f);
    hide Next;
    hide InRotation;
  }

  lemma LookupConserves(s: State, step: Step, f: FamilyId)
    requires WellFormed(s) && Enabled(s, step) && (step.Lookup? || step.SignOutLookup?)
    ensures Conserves(s, step, f)
  {
    assert Live(Next(s, step), f) == Live(s, f);
    assert InRotation(Next(s, step), f) == InRotation(s, f);
  }

  lemma RetireMovesLive(s: State, step: Step, f: FamilyId)
    requires WellFormed(s) && Enabled(s, step) && step.Retire?
    ensures var i := s.calls[step.call].row;
            Live(Next(s, step), f) == Live(s, f) - if !step.fails && s.rows[i].family == f then {i} else {}
  {
  }

  lemma RetireMovesRotation(s: State, step: Step, f: FamilyId)
    requires WellFormed(s) && Enabled(s, step) && step.Retire?
    ensures var i := s.calls[step.call].row;
            InRotation(Next(s, step), f)
            == InRotation(s, f) + if !step.fails && s.rows[i].family == f then {step.call} else {}
  {
    var t := Next(s, step);
    assert forall k | 0 <= k < |s.rows| :: t.rows[k].family == s.rows[k].family;
  }

  lemma RetireConserves(s: State, step: Step, f: FamilyId)
    requires WellFormed(s) && Enabled(s, step) && step.Retire?
    ensures Conserves(s, step, f)
  {
    RetireMovesLive(s, step, f);
    RetireMovesRotation(s, step, f);
    var i := s.calls[step.call].row;
    assert s.rows[i].family == f ==> (i in Live(s, f) <==> !s.rows[i].revoked);
    assert step.call !in InRotation(s, f);
  }

  lemma StoreMovesLive(s: State, step: Step, f: FamilyId)
    requires WellFormed(s) && Enabled(s, step) && step.StoreSuccessor?
    ensures var p := s.calls[step.call];
            Live(Next(s, step), f)
            == Live(s, f)
               + if s.rows[p.row].family == f && Stores(s, p.token.address, step.inputs) then {|s.rows|} else {}
  {
  }

  lemma StoreEndsRotation(s: State, step: Step, f: FamilyId)
    requires WellFormed(s) && Enabled(s, step) && step.StoreSuccessor?
    ensures InRotation(Next(s, step), f) == InRotation(s, f) - {step.call}
    ensures step.call in InRotation(s, f) <==> s.rows[s.calls[step.call].row].family == f
  {
    var t := Next(s, step);
    assert forall k | 0 <= k < |s.rows| :: t.rows[k] == s.rows[k];
  }

  lemma StoreSuccessorConserves(s: State, step: Step, f: FamilyId)
    requires WellFormed(s) && Enabled(s, step) && step.StoreSuccessor?
    ensures Conserves(s, step, f)
  {
    StoreMovesLive(s, step, f);
    StoreEndsRotation(s, step, f);
    assert |s.rows| !in Live(s, f);
  }

  lemma RevokeAllConserves(s: State, step: Step, f: FamilyId)
    requires WellFormed(s) && Enabled(s, step) && step.RevokeAll?
    ensures Conserves(s, step, f)
  {
    var t := Next(s, step);
    assert Live(t, f) == if !step.fails && s.calls[step.call].family == f then {} else Live(s, f);
    assert InRotation(t, f) == InRotation(s, f);
  }

  lemma StopConserves(s: State, step: Step, f: FamilyId)
    requires WellFormed(s) && Enabled(s, step) && step.Stop?
    ensures Conserves(s, step, f)
  {
    assert Live(Next(s, step), f) == Live(s, f);
    assert InRotation(Next(s, step), f) == InRotation(s, f) - {step.call};
  }

  lemma StepConserves(s: State, step: Step, f: FamilyId)
    requires WellFormed(s) && Enabled(s, step)
    ensures Conserves(s, step, f)
  {
    match step
    case StoreLogin(_, _) => StoreLoginConserves(s, step, f);
    case Lookup(_, _, _) => LookupConserves(s, step, f);
    case SignOutLookup(_, _, _) => LookupConserves(s, step, f);
    case Retire(_, _) => RetireConserves(s, step, f);
    case StoreSuccessor(_, _) => StoreSuccessorConserves(s, step, f);
    case RevokeAll(_, _) => RevokeAllConserves(s, step, f);
    case Stop(_) => StopConserves(s, step, f);
  }

  ghost function ReRevocations(s: State, steps: seq<Step>, f: FamilyId): nat
    requires WellFormed(s) && ValidRun(s, steps)
    decreases |steps|
  {
    if steps == [] then 0
    else (if ReRevokes(s, steps[0], f) then 1 else 0) + ReRevocations(Next(s, steps[0]), steps[1..], f)
  }

  ghost function Losses(s: State, steps: seq<Step>, f: FamilyId): nat
    requires WellFormed(s) && ValidRun(s, steps)
    decreases |steps|
  {
    if steps == [] then 0
    else Lost(s, steps[0], f) + Losses(Next(s, steps[0]), steps[1..], f)
  }

  lemma FamiliesPersist(before: Table, after: Table, f: FamilyId)
    requires Extends(before, after) && HasFamily(before, f)
    ensures HasFamily(after, f)
  {
    var i :| 0 <= i < |before| && before[i].family == f;
    assert after[i].family == f;
  }

  lemma UnknownFamilyIsWeightless(s: State, f: FamilyId)
    requires WellFormed(s) && !HasFamily(s.rows, f)
    ensures Weight(s, f) == 0
  {
    assert Live(s, f) == {} && InRotation(s, f) == {};
  }

  lemma FamilyAppears(s: State, step: Step, f: FamilyId)
    requires WellFormed(s) && Enabled(s, step) && !HasFamily(s.rows, f)
    ensures HasFamily(Next(s, step).rows, f) <==> StartsFamily(s, step, f)
    ensures !ReRevokes(s, step, f) && Lost(s, step, f) == 0
  {
    UnknownFamilyIsWeightless(s, f);
    var t := Next(s, step);
    if HasFamily(t.rows, f) {
      var i :| 0 <= i < |t.rows| && t.rows[i].family == f;
      assert i == |s.rows|;
    }
    if StartsFamily(s, step, f) {
      assert t.rows[|s.rows|].family == f;
    }
  }

  /** Live rows, rotations in flight and everything lost add up to one plus the repeated revocations. */
  lemma {:induction false} RunConserves(s: State, steps: seq<Step>, f: FamilyId)
    requires WellFormed(s) && ValidRun(s, steps)
    ensures HasFamily(s.rows, f) ==>
              Weight(Run(s, steps), f) + Losses(s, steps, f) == Weight(s, f) + ReRevocations(s, steps, f)
    ensures !HasFamily(s.rows, f) ==>
              Weight(Run(s, steps), f) + Losses(s, steps, f)
              == ReRevocations(s, steps, f) + if HasFamily(Run(s, steps).rows, f) then 1 else 0
    decreases |steps|
  {
    if steps == [] {
      if !HasFamily(s.rows, f) { UnknownFamilyIsWeightless(s, f); }
    } else {
      var t := Next(s, steps[0]);
      StepConserves(s, steps[0], f);
      RunConserves(t, steps[1..], f);
      if HasFamily(s.rows, f) {
        FamiliesPersist(s.rows, t.rows, f);
      } else {
        FamilyAppears(s, steps[0], f);
        UnknownFamilyIsWeightless(s, f);
        if HasFamily(t.rows, f) {
          RevokedStaysRevoked(t, steps[1..]);
          FamiliesPersist(t.rows, Run(t, steps[1..]).rows, f);
        }
      }
    }
  }

  /** Without any assumption on overlap, a family forks at most once per repeated revocation. */
  lemma ForksAreBounded(steps: seq<Step>, f: FamilyId)
    requires ValidRun(START, steps)
    ensures |Live(Run(START, steps), f)| + |InRotation(Run(START, steps), f)| <= 1 + ReRevocations(START, steps, f)
  {
    RunConserves(START, steps, f);
  }
}
