/** Which concurrent runs keep one live row per family, and when a revoked family stays revoked. */
module AuthOverlap {
  import opened Basics
  import opened RefreshTokens
  import opened AuthInterleaved
  import AuthSerial

  lemma RunFirst(s: State, step: Step, steps: seq<Step>)
    requires WellFormed(s) && Enabled(s, step) && ValidRun(Next(s, step), steps)
    ensures ValidRun(s, [step] + steps) && Run(s, [step] + steps) == Run(Next(s, step), steps)
  {
    assert ([step] + steps)[1..] == steps;
  }

  lemma {:induction false} RunsCompose(s: State, a: seq<Step>, b: seq<Step>)
    requires WellFormed(s) && ValidRun(s, a) && ValidRun(Run(s, a), b)
    ensures ValidRun(s, a + b) && Run(s, a + b) == Run(Run(s, a), b)
    decreases |a|
  {
    hide Next;
    hide Enabled;
    hide WellFormed;
    if a == [] {
      assert a + b == b;
    } else {
      var step, rest := a[0], a[1..];
      assert a + b == [step] + (rest + b);
      RunsCompose(Next(s, step), rest, b);
      RunFirst(s, step, rest + b);
    }
  }

  lemma {:induction false} ReRevocationsCompose(s: State, a: seq<Step>, b: seq<Step>, f: FamilyId)
    requires WellFormed(s) && ValidRun(s, a) && ValidRun(Run(s, a), b)
    ensures ValidRun(s, a + b)
    ensures ReRevocations(s, a + b, f) == ReRevocations(s, a, f) + ReRevocations(Run(s, a), b, f)
    decreases |a|
  {
    hide Next;
    hide Enabled;
    hide WellFormed;
    hide ReRevokes;
    RunsCompose(s, a, b);
    if a == [] {
      assert a + b == b;
    } else {
      assert (a + b)[1..] == a[1..] + b;
      ReRevocationsCompose(Next(s, a[0]), a[1..], b, f);
    }
  }

  // ---------------------------------------------------------------------------
  // No two refreshes of one token overlap: at most one live row per family
  // ---------------------------------------------------------------------------

  ghost predicate InFlight(s: State, token: Token) {
    exists c | c in s.calls :: Holder(s.calls[c]) && s.calls[c].token == token
  }

  ghost predicate NoOverlap(s: State, steps: seq<Step>)
    requires WellFormed(s) && ValidRun(s, steps)
    decreases |steps|
  {
    steps == [] ||
    ((steps[0].Lookup? ==> !InFlight(s, steps[0].token)) && NoOverlap(Next(s, steps[0]), steps[1..]))
  }

  ghost predicate HolderOf(s: State, c: CallId, f: FamilyId)
    requires WellFormed(s)
  {
    c in s.calls && Holder(s.calls[c]) && s.rows[s.calls[c].row].family == f
  }

  /** A live row that no call in flight has selected. */
  ghost predicate Unheld(s: State, i: int, f: FamilyId) {
    LiveAt(s.rows, f, i) && forall c | c in s.calls && s.calls[c].Selected? :: s.calls[c].row != i
  }

  /** Unheld live rows and holders in flight together number at most one per family. */
  ghost predicate SingleClaim(s: State)
    requires WellFormed(s)
  {
    && (forall f, c, d :: HolderOf(s, c, f) && HolderOf(s, d, f) ==> c == d)
    && (forall f, i, c :: Unheld(s, i, f) && HolderOf(s, c, f) ==> false)
    && (forall f, i, j :: Unheld(s, i, f) && Unheld(s, j, f) ==> i == j)
  }

  ghost predicate AtMostOneLive(s: State) {
    forall f, i, j :: LiveAt(s.rows, f, i) && LiveAt(s.rows, f, j) ==> i == j
  }

  lemma SingleClaimMeansOneLive(s: State)
    requires WellFormed(s) && SingleClaim(s)
    ensures AtMostOneLive(s)
  {
    forall f, i, j | LiveAt(s.rows, f, i) && LiveAt(s.rows, f, j)
      ensures i == j
    {
      if !Unheld(s, i, f) {
        var c :| c in s.calls && s.calls[c].Selected? && s.calls[c].row == i;
        assert HolderOf(s, c, f);
        if !Unheld(s, j, f) {
          var d :| d in s.calls && s.calls[d].Selected? && s.calls[d].row == j;
          assert HolderOf(s, d, f);
        }
      } else if !Unheld(s, j, f) {
        var d :| d in s.calls && s.calls[d].Selected? && s.calls[d].row == j;
        assert HolderOf(s, d, f);
      }
    }
  }

  /** Steps that store a row: the family had neither an unheld live row nor another holder. */
  lemma StoringKeepsClaim(s: State, step: Step)
    requires WellFormed(s) && Enabled(s, step) && SingleClaim(s)
    requires step.StoreLogin? || step.StoreSuccessor?
    ensures SingleClaim(Next(s, step))
  {
    var t := Next(s, step);
    var n := |s.rows|;
    var g := if step.StoreLogin? then step.inputs.randomFamily else s.rows[s.calls[step.call].row].family;
    forall f, c | HolderOf(t, c, f)
      ensures HolderOf(s, c, f) && f != g
    {
      assert HolderOf(s, c, f);
      if step.StoreSuccessor? { assert HolderOf(s, step.call, g); }
    }
    forall f, i | Unheld(t, i, f)
      ensures if i == n then f == g else Unheld(s, i, f) && (f == g ==> false)
    {
      if i != n {
        assert LiveAt(s.rows, f, i);
        assert forall d | d in s.calls && s.calls[d].Selected? :: d in t.calls && t.calls[d] == s.calls[d];
        assert Unheld(s, i, f);
        if f == g && step.StoreSuccessor? {
          assert HolderOf(s, step.call, f);
        }
      }
    }
  }

  lemma LookupKeepsClaim(s: State, step: Step)
    requires WellFormed(s) && UniqueHashes(s.rows) && Enabled(s, step) && SingleClaim(s)
    requires step.Lookup? && !InFlight(s, step.token)
    ensures SingleClaim(Next(s, step))
  {
    var t := Next(s, step);
    var c := step.call;
    if c in t.calls && t.calls[c].Selected? {
      var i := t.calls[c].row;
      var g := s.rows[i].family;
      assert Unheld(s, i, g);
      forall f, d | HolderOf(t, d, f)
        ensures if d == c then f == g else HolderOf(s, d, f) && f != g
      {
        if d != c { assert HolderOf(s, d, f); }
      }
      forall f, j | Unheld(t, j, f)
        ensures Unheld(s, j, f) && f != g
      {
        assert t.calls[c].row == i;
        assert forall d | d in s.calls :: d in t.calls && t.calls[d] == s.calls[d];
        assert Unheld(s, j, f);
      }
    } else {
      OtherCallsKeepClaim(s, t, c);
    }
  }

  /** Steps that touch no holder and only revoke rows. */
  lemma OtherCallsKeepClaim(s: State, t: State, c: CallId)
    requires WellFormed(s) && WellFormed(t) && SingleClaim(s)
    requires |t.rows| == |s.rows| && Extends(s.rows, t.rows)
    requires c in s.calls ==> !Holder(s.calls[c])
    requires c in t.calls ==> !Holder(t.calls[c])
    requires forall d | d != c :: d in t.calls <==> d in s.calls
    requires forall d | d != c && d in s.calls :: t.calls[d] == s.calls[d]
    ensures SingleClaim(t)
  {
    forall f, d | HolderOf(t, d, f)
      ensures HolderOf(s, d, f)
    {
    }
    forall f, i | Unheld(t, i, f)
      ensures Unheld(s, i, f)
    {
      assert LiveAt(s.rows, f, i);
      assert forall d | d in s.calls && s.calls[d].Selected? :: d in t.calls && t.calls[d] == s.calls[d];
    }
  }

  /** Retiring keeps the call a holder; failing or stopping turns its row back into an unheld one. */
  lemma HolderMovesKeepClaim(s: State, step: Step)
    requires WellFormed(s) && Enabled(s, step) && SingleClaim(s)
    requires step.Retire? || (step.Stop? && Holder(s.calls[step.call]))
    ensures SingleClaim(Next(s, step))
  {
    var t := Next(s, step);
    var c := step.call;
    var i := s.calls[c].row;
    var g := s.rows[i].family;
    assert HolderOf(s, c, g);
    forall f, d | HolderOf(t, d, f)
      ensures HolderOf(s, d, f)
    {
    }
    forall f, j | Unheld(t, j, f)
      ensures if j == i then f == g && c !in t.calls else Unheld(s, j, f)
    {
      assert LiveAt(s.rows, f, j);
      if j != i {
        assert forall d | d in s.calls && s.calls[d].Selected? && d != c :: d in t.calls && t.calls[d] == s.calls[d];
        assert Unheld(s, j, f);
      }
    }
  }

  lemma StepKeepsClaim(s: State, step: Step)
    requires WellFormed(s) && UniqueHashes(s.rows) && Enabled(s, step) && SingleClaim(s)
    requires step.Lookup? ==> !InFlight(s, step.token)
    ensures SingleClaim(Next(s, step)) && UniqueHashes(Next(s, step).rows)
  {
    match step
    case StoreLogin(_, _) => StoringKeepsClaim(s, step);
    case StoreSuccessor(_, _) => StoringKeepsClaim(s, step);
    case Lookup(_, _, _) => LookupKeepsClaim(s, step);
    case SignOutLookup(c, _, _) => OtherCallsKeepClaim(s, Next(s, step), c);
    case RevokeAll(c, _) => OtherCallsKeepClaim(s, Next(s, step), c);
    case Retire(_, _) => HolderMovesKeepClaim(s, step);
    case Stop(c) =>
      if Holder(s.calls[c]) {
        HolderMovesKeepClaim(s, step);
      } else {
        OtherCallsKeepClaim(s, Next(s, step), c);
      }
  }

  lemma {:induction false} NoOverlapKeepsClaim(s: State, steps: seq<Step>)
    requires WellFormed(s) && UniqueHashes(s.rows) && SingleClaim(s)
    requires ValidRun(s, steps) && NoOverlap(s, steps)
    ensures SingleClaim(Run(s, steps)) && UniqueHashes(Run(s, steps).rows)
    decreases |steps|
  {
    if steps != [] {
      StepKeepsClaim(s, steps[0]);
      NoOverlapKeepsClaim(Next(s, steps[0]), steps[1..]);
    }
  }

  /** Any interleaving, any failures: without overlapping refreshes of one token, no family forks. */
  lemma NoOverlapNoFork(steps: seq<Step>)
    requires ValidRun(START, steps) && NoOverlap(START, steps)
    ensures AtMostOneLive(Run(START, steps))
  {
    NoOverlapKeepsClaim(START, steps);
    SingleClaimMeansOneLive(Run(START, steps));
  }

  // ---------------------------------------------------------------------------
  // Overlap is what forks a family
  // ---------------------------------------------------------------------------

  /** A token text longer than every stored one. */
  lemma {:induction false} FreshText(rows: Table) returns (text: string)
    ensures forall i | 0 <= i < |rows| :: |rows[i].tokenHash.token.text| < |text|
  {
    if rows == [] {
      text := "";
    } else {
      var rest := FreshText(rows[1..]);
      text := rest + rows[0].tokenHash.token.text + "x";
      forall i | 0 <= i < |rows|
        ensures |rows[i].tokenHash.token.text| < |text|
      {
        if i > 0 { assert rows[i] == rows[1..][i - 1]; }
      }
    }
  }

  /**
   A holder in flight can still store a live row in its family, with steps of its own only: it retires its
   row, if it has not yet, and stores a successor.
   */
  lemma HolderFinishes(s: State, c: CallId, f: FamilyId) returns (steps: seq<Step>)
    requires WellFormed(s) && HolderOf(s, c, f)
    ensures ValidRun(s, steps) && forall step | step in steps :: !step.Lookup?
    ensures var t, n := Run(s, steps), |s.rows|;
            && |t.rows| == n + 1 && LiveAt(t.rows, f, n) && t.calls == s.calls - {c}
            && forall k | 0 <= k < n ::
                 if k == s.calls[c].row && s.calls[c].Selected? then t.rows[k] == s.rows[k].(revoked := true)
                 else t.rows[k] == s.rows[k]
  {
    var t := s;
    var first := [];
    if s.calls[c].Selected? {
      first := [Retire(c, false)];
      t := Next(s, first[0]);
      assert first[1..] == [];
    }
    var text := FreshText(t.rows);
    var inp := Inputs(0, 0, text, f, true, Faults(false, false, false, false));
    assert Find(t.rows, HashOf(NewToken(t.calls[c].token.address, inp))).None?;
    var last := [StoreSuccessor(c, inp)];
    assert LiveAt(Next(t, last[0]).rows, f, |t.rows|);
    assert last[1..] == [];
    RunsCompose(s, first, last);
    steps := first + last;
  }

  lemma {:induction false} NoLookupNoOverlap(s: State, steps: seq<Step>)
    requires WellFormed(s) && ValidRun(s, steps) && forall step | step in steps :: !step.Lookup?
    ensures NoOverlap(s, steps)
    decreases |steps|
  {
    hide Next;
    if steps != [] {
      NoLookupNoOverlap(Next(s, steps[0]), steps[1..]);
    }
  }

  /** However the run goes on without overlapping refreshes of a token, no family has two live rows. */
  ghost predicate NeverForks(s: State)
    requires WellFormed(s)
  {
    forall steps | ValidRun(s, steps) && NoOverlap(s, steps) :: AtMostOneLive(Run(s, steps))
  }

  lemma ForkRefutes(s: State, steps: seq<Step>, f: FamilyId, i: int, j: int)
    requires WellFormed(s) && ValidRun(s, steps) && forall step | step in steps :: !step.Lookup?
    requires i != j && LiveAt(Run(s, steps).rows, f, i) && LiveAt(Run(s, steps).rows, f, j)
    ensures !NeverForks(s)
  {
    NoLookupNoOverlap(s, steps);
    assert !AtMostOneLive(Run(s, steps));
  }

  /** Two holders of one family finish one after the other. */
  lemma TwoHoldersFork(s: State, c: CallId, d: CallId, f: FamilyId)
    requires WellFormed(s) && HolderOf(s, c, f) && HolderOf(s, d, f) && c != d
    ensures !NeverForks(s)
  {
    var first := HolderFinishes(s, c, f);
    var t := Run(s, first);
    assert HolderOf(t, d, f);
    var second := HolderFinishes(t, d, f);
    RunsCompose(s, first, second);
    assert LiveAt(Run(t, second).rows, f, |s.rows|);
    ForkRefutes(s, first + second, f, |s.rows|, |t.rows|);
  }

  /** A holder finishes beside a live row that it does not hold. */
  lemma HolderBesideUnheldForks(s: State, i: int, c: CallId, f: FamilyId)
    requires WellFormed(s) && Unheld(s, i, f) && HolderOf(s, c, f)
    ensures !NeverForks(s)
  {
    var steps := HolderFinishes(s, c, f);
    assert LiveAt(Run(s, steps).rows, f, i);
    ForkRefutes(s, steps, f, i, |s.rows|);
  }

  /** The claim that steps without overlap preserve is exactly what keeps families from forking. */
  lemma NeverForksIffSingleClaim(s: State)
    requires WellFormed(s) && UniqueHashes(s.rows)
    ensures NeverForks(s) <==> SingleClaim(s)
  {
    if SingleClaim(s) {
      forall steps | ValidRun(s, steps) && NoOverlap(s, steps)
        ensures AtMostOneLive(Run(s, steps))
      {
        NoOverlapKeepsClaim(s, steps);
        SingleClaimMeansOneLive(Run(s, steps));
      }
    } else if f, c, d :| HolderOf(s, c, f) && HolderOf(s, d, f) && c != d {
      TwoHoldersFork(s, c, d, f);
    } else if f, i, c :| Unheld(s, i, f) && HolderOf(s, c, f) {
      HolderBesideUnheldForks(s, i, c, f);
    } else {
      var f, i, j :| Unheld(s, i, f) && Unheld(s, j, f) && i != j;
      ForkRefutes(s, [], f, i, j);
    }
  }

  /** A lookup that selects a row lets the family fork exactly when its token is in flight already. */
  lemma OverlapForksIff(s: State, step: Step)
    requires WellFormed(s) && UniqueHashes(s.rows) && SingleClaim(s)
    requires step.Lookup? && Enabled(s, step)
    requires var t := Next(s, step); step.call in t.calls && t.calls[step.call].Selected?
    ensures NeverForks(Next(s, step)) <==> !InFlight(s, step.token)
  {
    var t, c := Next(s, step), step.call;
    if InFlight(s, step.token) {
      var d :| d in s.calls && Holder(s.calls[d]) && s.calls[d].token == step.token;
      assert t.rows == s.rows && t.calls[d] == s.calls[d];
      assert s.rows[t.calls[c].row].tokenHash == HashOf(step.token) == s.rows[s.calls[d].row].tokenHash;
      assert t.calls[c].row == s.calls[d].row;
      TwoHoldersFork(t, c, d, s.rows[s.calls[d].row].family);
    } else {
      StepKeepsClaim(s, step);
      NeverForksIffSingleClaim(t);
    }
  }

  /** The same after every run without overlap: the first overlap that selects a row can fork its family. */
  lemma FirstOverlapForksIff(steps: seq<Step>, step: Step)
    requires ValidRun(START, steps) && NoOverlap(START, steps)
    requires step.Lookup? && Enabled(Run(START, steps), step)
    requires var t := Next(Run(START, steps), step); step.call in t.calls && t.calls[step.call].Selected?
    ensures NeverForks(Next(Run(START, steps), step)) <==> !InFlight(Run(START, steps), step.token)
  {
    NoOverlapKeepsClaim(START, steps);
    OverlapForksIff(Run(START, steps), step);
  }

  // ---------------------------------------------------------------------------
  // No overlap: each token is refreshed at most once
  // ---------------------------------------------------------------------------

  /** The step stores the successor of the token. */
  ghost predicate Succeeds(s: State, step: Step, token: Token)
    requires WellFormed(s) && Enabled(s, step)
  {
    && step.StoreSuccessor? && s.calls[step.call].token == token
    && Stores(s, token.address, step.inputs)
  }

  ghost function TokenRefreshes(s: State, steps: seq<Step>, token: Token): nat
    requires WellFormed(s) && ValidRun(s, steps)
    decreases |steps|
  {
    if steps == [] then 0
    else (if Succeeds(s, steps[0], token) then 1 else 0) + TokenRefreshes(Next(s, steps[0]), steps[1..], token)
  }

  lemma {:induction false} TokenRefreshesCompose(s: State, a: seq<Step>, b: seq<Step>, token: Token)
    requires WellFormed(s) && ValidRun(s, a) && ValidRun(Run(s, a), b)
    ensures ValidRun(s, a + b)
    ensures TokenRefreshes(s, a + b, token) == TokenRefreshes(s, a, token) + TokenRefreshes(Run(s, a), b, token)
    decreases |a|
  {
    hide Next;
    hide Enabled;
    hide WellFormed;
    hide Succeeds;
    RunsCompose(s, a, b);
    if a == [] {
      assert a + b == b;
    } else {
      assert (a + b)[1..] == a[1..] + b;
      TokenRefreshesCompose(Next(s, a[0]), a[1..], b, token);
    }
  }

  /** A call that is past its revoke update holds a revoked row. */
  ghost predicate RotatingIsRevoked(s: State)
    requires WellFormed(s)
  {
    forall c | c in s.calls && s.calls[c].Rotating? :: s.rows[s.calls[c].row].revoked
  }

  /** The token's row is revoked and no call in flight holds it. */
  ghost predicate UsedUp(s: State, token: Token) {
    AuthSerial.Spent(s.rows, token) && !InFlight(s, token)
  }

  lemma SpentPersists(before: Table, after: Table, token: Token)
    requires Extends(before, after) && AuthSerial.Spent(before, token)
    ensures AuthSerial.Spent(after, token)
  {
    var i :| 0 <= i < |before| && before[i].tokenHash == HashOf(token) && before[i].revoked;
    assert after[i] == before[i];
  }

  lemma StepKeepsRotatingRevoked(s: State, step: Step)
    requires WellFormed(s) && Enabled(s, step) && RotatingIsRevoked(s)
    ensures RotatingIsRevoked(Next(s, step))
  {
  }

  lemma UsedUpStays(s: State, step: Step, token: Token)
    requires WellFormed(s) && Enabled(s, step) && UniqueHashes(s.rows) && UsedUp(s, token)
    ensures UsedUp(Next(s, step), token) && !Succeeds(s, step, token)
  {
    var t := Next(s, step);
    SpentPersists(s.rows, t.rows, token);
    forall c | c in t.calls && Holder(t.calls[c])
      ensures t.calls[c].token != token
    {
      assert c in s.calls && Holder(s.calls[c]) ==> s.calls[c].token != token;
    }
  }

  lemma SuccessUsesUp(s: State, step: Step, token: Token)
    requires WellFormed(s) && Enabled(s, step) && UniqueHashes(s.rows) && SingleClaim(s) && RotatingIsRevoked(s)
    requires Succeeds(s, step, token)
    ensures UsedUp(Next(s, step), token)
  {
    var t, c := Next(s, step), step.call;
    var i := s.calls[c].row;
    assert s.rows[i].tokenHash == HashOf(token) && s.rows[i].revoked;
    SpentPersists(s.rows, t.rows, token);
    assert HolderOf(s, c, s.rows[i].family);
    forall d | d in t.calls && Holder(t.calls[d])
      ensures t.calls[d].token != token
    {
      assert d != c && HolderOf(s, d, s.rows[s.calls[d].row].family);
      assert s.rows[s.calls[d].row].family != s.rows[i].family;
    }
  }

  lemma {:induction false} RefreshesOfToken(s: State, steps: seq<Step>, token: Token)
    requires WellFormed(s) && UniqueHashes(s.rows) && SingleClaim(s) && RotatingIsRevoked(s)
    requires ValidRun(s, steps) && NoOverlap(s, steps)
    ensures TokenRefreshes(s, steps, token) <= if UsedUp(s, token) then 0 else 1
    decreases |steps|
  {
    if steps != [] {
      var step := steps[0];
      StepKeepsClaim(s, step);
      StepKeepsRotatingRevoked(s, step);
      if UsedUp(s, token) { UsedUpStays(s, step, token); }
      if Succeeds(s, step, token) { SuccessUsesUp(s, step, token); }
      RefreshesOfToken(Next(s, step), steps[1..], token);
    }
  }

  /** In every interleaving without overlapping refreshes of a token, each token gets at most one successor. */
  lemma NoOverlapRefreshesOnce(steps: seq<Step>, token: Token)
    requires ValidRun(START, steps) && NoOverlap(START, steps)
    ensures TokenRefreshes(START, steps, token) <= 1
  {
    RefreshesOfToken(START, steps, token);
  }

  // ---------------------------------------------------------------------------
  // The bound on forks is reached
  // ---------------------------------------------------------------------------

  const OWNER := "G"
  const SESSION: FamilyId := "s"

  function Text(k: nat): string { seq(k + 1, _ => 't') }

  function Plain(k: nat): Inputs {
    Inputs(0, 1, Text(k), SESSION, true, Faults(false, false, false, false))
  }

  const FIRST_TOKEN := Token(Text(0), OWNER, true)

  function Forked(k: nat): Table {
    if k == 0 then [NewRow(OWNER, SESSION, Plain(0))]
    else if k == 1 then [NewRow(OWNER, SESSION, Plain(0)).(revoked := true), NewRow(OWNER, SESSION, Plain(1))]
    else Forked(k - 1) + [NewRow(OWNER, SESSION, Plain(k))]
  }

  function Waiting(lo: nat, hi: nat): (w: map<CallId, Phase>)
    ensures forall c: CallId :: c in w <==> lo <= c < hi
    ensures forall c | c in w :: w[c] == Selected(0, FIRST_TOKEN)
    decreases hi - lo
  {
    if lo >= hi then map[] else Waiting(lo + 1, hi)[lo := Selected(0, FIRST_TOKEN)]
  }

  lemma {:induction false} ForkedShape(k: nat)
    ensures |Forked(k)| == k + 1
    ensures forall i | 0 <= i <= k :: Forked(k)[i] == NewRow(OWNER, SESSION, Plain(i)).(revoked := i == 0 && k > 0)
  {
    if k > 1 { ForkedShape(k - 1); }
  }

  lemma NextTextIsNew(k: nat)
    ensures forall i | 0 <= i < |Forked(k)| :: Forked(k)[i].tokenHash != HashOf(NewToken(OWNER, Plain(k + 1)))
  {
    ForkedShape(k);
    forall i | 0 <= i <= k
      ensures Forked(k)[i].tokenHash != HashOf(NewToken(OWNER, Plain(k + 1)))
    {
      assert |Text(i)| < |Text(k + 1)|;
    }
  }

  function UpTo(k: nat): (r: set<int>)
    ensures |r| == k && forall i :: i in r <==> 1 <= i <= k
  {
    if k == 0 then {} else UpTo(k - 1) + {k}
  }

  lemma ForkedIsLive(k: nat)
    requires k > 0
    ensures |Live(State(Forked(k), map[]), SESSION)| == k
  {
    ForkedShape(k);
    assert Live(State(Forked(k), map[]), SESSION) == UpTo(k);
  }

  /** Calls k to n - 1 have looked up the shared first token; those before them have rotated it already. */
  ghost function Stage(k: nat, n: nat): (s: State)
    ensures WellFormed(s)
  {
    ForkedShape(k);
    State(Forked(k), Waiting(k, n))
  }

  lemma LookUpOne(k: nat)
    ensures var step := Lookup(k, FIRST_TOKEN, Plain(0));
            && Enabled(Stage(0, k), step) && !ReRevokes(Stage(0, k), step, SESSION)
            && !Succeeds(Stage(0, k), step, FIRST_TOKEN)
            && Next(Stage(0, k), step) == Stage(0, k + 1)
  {
    assert Find(Forked(0), HashOf(FIRST_TOKEN)) == Some(0);
    assert Waiting(0, k)[k := Selected(0, FIRST_TOKEN)] == Waiting(0, k + 1);
  }

  lemma {:induction false} LookUpAll(k: nat, n: nat) returns (steps: seq<Step>)
    requires k <= n
    ensures ValidRun(Stage(0, k), steps) && Run(Stage(0, k), steps) == Stage(0, n)
    ensures ReRevocations(Stage(0, k), steps, SESSION) == TokenRefreshes(Stage(0, k), steps, FIRST_TOKEN) == 0
    decreases n - k
  {
    if k == n {
      steps := [];
    } else {
      LookUpOne(k);
      hide Next;
      hide Enabled;
      hide ReRevokes;
      hide Succeeds;
      hide Stage;
      var step := Lookup(k, FIRST_TOKEN, Plain(0));
      var rest := LookUpAll(k + 1, n);
      steps := [step] + rest;
      RunFirst(Stage(0, k), step, rest);
      assert steps[1..] == rest;
    }
  }

  lemma RetireOne(k: nat, n: nat)
    requires k < n
    ensures var s := State(Forked(k), Waiting(k, n));
            && WellFormed(s) && Enabled(s, Retire(k, false))
            && Next(s, Retire(k, false)) ==
               State(Forked(k)[0 := Forked(k)[0].(revoked := true)], Waiting(k, n)[k := Rotating(0, FIRST_TOKEN)])
  {
    ForkedShape(k);
  }

  lemma StoredRow(k: nat)
    ensures var rows := Forked(k)[0 := Forked(k)[0].(revoked := true)];
            IssueEffect(rows, OWNER, SESSION, Plain(k + 1)).rows == Forked(k + 1)
  {
    var rows := Forked(k)[0 := Forked(k)[0].(revoked := true)];
    ForkedShape(k);
    ForkedShape(k + 1);
    NextTextIsNew(k);
    assert rows + [NewRow(OWNER, SESSION, Plain(k + 1))] == Forked(k + 1);
  }

  lemma StoreOne(k: nat, n: nat)
    requires k < n
    ensures var rows := Forked(k)[0 := Forked(k)[0].(revoked := true)];
            var t := State(rows, Waiting(k, n)[k := Rotating(0, FIRST_TOKEN)]);
            && WellFormed(t) && Enabled(t, StoreSuccessor(k, Plain(k + 1)))
            && Next(t, StoreSuccessor(k, Plain(k + 1))) == State(Forked(k + 1), Waiting(k + 1, n))
  {
    var t := State(Forked(k)[0 := Forked(k)[0].(revoked := true)], Waiting(k, n)[k := Rotating(0, FIRST_TOKEN)]);
    ForkedShape(k);
    StoredRow(k);
    assert t.rows[0].family == SESSION && t.rows[0].tokenHash == HashOf(FIRST_TOKEN);
    hide IssueEffect;
    hide Forked;
    assert t.calls - {k} == Waiting(k + 1, n);
  }

  function Rotation(k: nat): seq<Step> { [Retire(k, false), StoreSuccessor(k, Plain(k + 1))] }

  /** Every rotation but the first revokes the shared row once more. */
  lemma RotateOne(k: nat, n: nat)
    requires k < n
    ensures ValidRun(Stage(k, n), Rotation(k)) && Run(Stage(k, n), Rotation(k)) == Stage(k + 1, n)
    ensures ReRevocations(Stage(k, n), Rotation(k), SESSION) == if k > 0 then 1 else 0
    ensures TokenRefreshes(Stage(k, n), Rotation(k), FIRST_TOKEN) == 1
  {
    RetireOne(k, n);
    StoreOne(k, n);
    var retire, store := Retire(k, false), StoreSuccessor(k, Plain(k + 1));
    var s := Stage(k, n);
    var t := Next(s, retire);
    RunFirst(t, store, []);
    RunFirst(s, retire, [store]);
    assert [store] + [] == [store] && [retire] + [store] == Rotation(k);
    assert Rotation(k)[1..] == [store] && [store][1..] == [];
    assert ReRevokes(s, retire, SESSION) <==> k > 0 by { ForkedShape(k); }
    assert ReRevocations(t, [store], SESSION) == 0;
    assert TokenRefreshes(t, [store], FIRST_TOKEN) == 1 by {
      ForkedShape(k);
      NextTextIsNew(k);
      assert Succeeds(t, store, FIRST_TOKEN);
    }
    assert Rotation(k)[0] == retire;
  }

  lemma {:induction false} RotateAll(k: nat, n: nat) returns (steps: seq<Step>)
    requires k <= n
    ensures ValidRun(Stage(k, n), steps) && Run(Stage(k, n), steps) == Stage(n, n)
    ensures ReRevocations(Stage(k, n), steps, SESSION) == n - k - if k == 0 < n then 1 else 0
    ensures TokenRefreshes(Stage(k, n), steps, FIRST_TOKEN) == n - k
    decreases n - k
  {
    hide Stage;
    hide Rotation;
    if k == n {
      steps := [];
    } else {
      RotateOne(k, n);
      var rest := RotateAll(k + 1, n);
      steps := Rotation(k) + rest;
      RunsCompose(Stage(k, n), Rotation(k), rest);
      ReRevocationsCompose(Stage(k, n), Rotation(k), rest, SESSION);
      TokenRefreshesCompose(Stage(k, n), Rotation(k), rest, FIRST_TOKEN);
    }
  }

  /** For every n, exactly n - 1 repeated revocations are enough to refresh one token n times, for n live rows. */
  lemma ForkBoundIsReached(n: nat) returns (steps: seq<Step>)
    requires n > 0
    ensures ValidRun(START, steps)
    ensures |Live(Run(START, steps), SESSION)| == n
    ensures ReRevocations(START, steps, SESSION) == n - 1
    ensures TokenRefreshes(START, steps, FIRST_TOKEN) == n
  {
    var login := [StoreLogin(OWNER, Plain(0))];
    assert Waiting(0, 0) == map[] && Waiting(n, n) == map[];
    assert Next(START, login[0]) == State(Forked(0), Waiting(0, 0));
    assert login[1..] == [];
    var lookups := LookUpAll(0, n);
    var rotations := RotateAll(0, n);
    RunsCompose(START, login, lookups);
    RunsCompose(START, login + lookups, rotations);
    ReRevocationsCompose(START, login, lookups, SESSION);
    ReRevocationsCompose(START, login + lookups, rotations, SESSION);
    TokenRefreshesCompose(START, login, lookups, FIRST_TOKEN);
    TokenRefreshesCompose(START, login + lookups, rotations, FIRST_TOKEN);
    steps := login + lookups + rotations;
    ForkedIsLive(n);
  }

  // ---------------------------------------------------------------------------
  // When a dead family stays dead
  // ---------------------------------------------------------------------------

  /** No live row, and no call in flight holds a row of the family. */
  ghost predicate Quiet(s: State, f: FamilyId)
    requires WellFormed(s)
  {
    Dead(s.rows, f) && forall c :: !HolderOf(s, c, f)
  }

  lemma QuietAfterStep(s: State, step: Step, f: FamilyId)
    requires WellFormed(s) && Enabled(s, step) && HasFamily(s.rows, f) && Quiet(s, f)
    ensures HasFamily(Next(s, step).rows, f) && Quiet(Next(s, step), f)
  {
    var t := Next(s, step);
    FamiliesPersist(s.rows, t.rows, f);
    forall c ensures !HolderOf(t, c, f) {
      assert !HolderOf(s, c, f);
      assert step.Lookup? && c in t.calls && Holder(t.calls[c]) ==> !LiveAt(s.rows, f, t.calls[c].row);
    }
    forall i ensures !LiveAt(t.rows, f, i) {
      assert !LiveAt(s.rows, f, i);
      if step.StoreSuccessor? { assert !HolderOf(s, step.call, f); }
    }
  }

  lemma {:induction false} QuietForever(s: State, steps: seq<Step>, f: FamilyId)
    requires WellFormed(s) && ValidRun(s, steps) && HasFamily(s.rows, f) && Quiet(s, f)
    ensures Quiet(Run(s, steps), f)
    decreases |steps|
  {
    if steps != [] {
      QuietAfterStep(s, steps[0], f);
      QuietForever(Next(s, steps[0]), steps[1..], f);
    }
  }

  /** In every continuation the family has no live row. */
  ghost predicate StaysDead(s: State, f: FamilyId)
    requires WellFormed(s)
  {
    forall steps | ValidRun(s, steps) :: Dead(Run(s, steps).rows, f)
  }

  /** A family stays without live rows in every continuation exactly when it is quiet now. */
  lemma StaysDeadIffQuiet(s: State, f: FamilyId)
    requires WellFormed(s) && HasFamily(s.rows, f)
    ensures StaysDead(s, f) <==> Quiet(s, f)
  {
    if Quiet(s, f) {
      forall steps | ValidRun(s, steps)
        ensures Dead(Run(s, steps).rows, f)
      {
        QuietForever(s, steps, f);
      }
    } else if c :| HolderOf(s, c, f) {
      var steps := HolderFinishes(s, c, f);
      assert !StaysDead(s, f);
    } else {
      var none: seq<Step> := [];
      assert ValidRun(s, none) && Run(s, none) == s;
      assert !StaysDead(s, f);
    }
  }

  /** A call that is about to revoke a family has read that family from a row. */
  ghost predicate RevokingIsKnown(s: State) {
    forall c | c in s.calls && s.calls[c].Revoking? :: HasFamily(s.rows, s.calls[c].family)
  }

  lemma StepKeepsRevokingKnown(s: State, step: Step)
    requires WellFormed(s) && Enabled(s, step) && RevokingIsKnown(s)
    ensures RevokingIsKnown(Next(s, step))
  {
    var t := Next(s, step);
    forall c | c in t.calls && t.calls[c].Revoking?
      ensures HasFamily(t.rows, t.calls[c].family)
    {
      assert HasFamily(s.rows, t.calls[c].family);
      hide HasFamily;
      FamiliesPersist(s.rows, t.rows, t.calls[c].family);
    }
  }

  lemma {:induction false} RevokingStaysKnown(s: State, steps: seq<Step>)
    requires WellFormed(s) && ValidRun(s, steps) && RevokingIsKnown(s)
    ensures RevokingIsKnown(Run(s, steps))
    decreases |steps|
  {
    if steps != [] {
      StepKeepsRevokingKnown(s, steps[0]);
      RevokingStaysKnown(Next(s, steps[0]), steps[1..]);
    }
  }

  lemma RevocationIsFinalHere(s: State, c: CallId)
    requires WellFormed(s) && c in s.calls && s.calls[c].Revoking? && HasFamily(s.rows, s.calls[c].family)
    ensures var f := s.calls[c].family;
            StaysDead(Next(s, RevokeAll(c, false)), f) <==> forall d :: !HolderOf(s, d, f)
  {
    var f, t := s.calls[c].family, Next(s, RevokeAll(c, false));
    FamiliesPersist(s.rows, t.rows, f);
    StaysDeadIffQuiet(t, f);
    assert forall d :: HolderOf(t, d, f) <==> HolderOf(s, d, f);
  }

  /**
   In every run, a successful family revocation (sign-out, or reuse detection) is final exactly when no
   other refresh of that family is between its lookup and its last statement.
   */
  lemma RevocationIsFinalIffNoHolder(steps: seq<Step>, c: CallId)
    requires ValidRun(START, steps)
    requires c in Run(START, steps).calls && Run(START, steps).calls[c].Revoking?
    ensures var s := Run(START, steps);
            var f := s.calls[c].family;
            StaysDead(Next(s, RevokeAll(c, false)), f) <==> forall d :: !HolderOf(s, d, f)
  {
    RevokingStaysKnown(START, steps);
    RevocationIsFinalHere(Run(START, steps), c);
  }

  /**
   When nothing else is in flight, a sign-out ends the session for every continuation exactly when the
   session was dead before, or the token is one of its own and both statements succeed.
   */
  lemma SignOutIsFinalIff(rows: Table, token: Token, inp: Inputs, f: FamilyId)
    requires UniqueHashes(rows) && token.text != "" && HasFamily(rows, f)
    ensures StaysDead(Alone(Apply(rows, SignOut(token, inp)).rows), f) <==>
            Dead(rows, f) || (BelongsTo(rows, token, f) && !inp.faults.lookup && !inp.faults.revokeFamily)
  {
    var after := Apply(rows, SignOut(token, inp)).rows;
    FamiliesPersist(rows, after, f);
    StaysDeadIffQuiet(Alone(after), f);
    AuthSerial.SignOutRevokesIff(rows, token, inp, f);
  }

  // ---------------------------------------------------------------------------
  // Serial calls are a special case
  // ---------------------------------------------------------------------------

  ghost function Alone(rows: Table): State { State(rows, map[]) }

  /** The statements that can follow a call's lookup. */
  ghost predicate LaterStatement(id: CallId, inp: Inputs, step: Step) {
    || step == Retire(id, inp.faults.rotate)
    || step == StoreSuccessor(id, inp)
    || step == RevokeAll(id, inp.faults.revokeFamily)
  }

  /** The table when a call that got past its lookup runs its other statements now. */
  function Finished(rows: Table, p: Phase, inp: Inputs): Table
    requires Holder(p) ==> p.row < |rows|
  {
    match p
    case Selected(i, token) =>
      if inp.faults.rotate then rows
      else IssueEffect(RevokeRow(rows, i), token.address, rows[i].family, inp).rows
    case Revoking(f) => RevokeFamilyEffect(rows, f, inp.faults.revokeFamily)
    case Rotating(_, _) => rows
  }

  /** After its first statement a call is over, or the rest of it does what is missing. */
  lemma FirstStatement(s: State, id: CallId, c: Call) returns (step: Step)
    requires WellFormed(s) && id !in s.calls && AuthSerial.FreshFamily(s.rows, c)
    ensures step == match c
                    case Login(address, inp) => StoreLogin(address, inp)
                    case Refresh(token, inp) => Lookup(id, token, inp)
                    case SignOut(token, inp) => SignOutLookup(id, token, inp.faults.lookup)
    ensures Enabled(s, step)
    ensures var t := Next(s, step);
            if id in t.calls then
              && !t.calls[id].Rotating? && t.rows == s.rows && t.calls - {id} == s.calls
              && Apply(s.rows, c).rows == Finished(s.rows, t.calls[id], c.inputs)
            else t == State(Apply(s.rows, c).rows, s.calls)
  {
    step := match c
      case Login(address, inp) => StoreLogin(address, inp)
      case Refresh(token, inp) => Lookup(id, token, inp)
      case SignOut(token, inp) => SignOutLookup(id, token, inp.faults.lookup);
    assert Enabled(s, step);
    hide IssueEffect;
    hide RevokeRow;
    hide RevokeFamilyEffect;
    hide Expired;
    hide Find;
  }

  /**
   Whatever other calls are in flight: running one call's own statements back to back has the effect of
   the whole call on the table, and leaves the other calls as they were.
   */
  lemma CallIsInterleaving(s: State, id: CallId, c: Call) returns (steps: seq<Step>)
    requires WellFormed(s) && id !in s.calls && AuthSerial.FreshFamily(s.rows, c)
    ensures ValidRun(s, steps) && Run(s, steps) == State(Apply(s.rows, c).rows, s.calls)
    ensures c.Login? ==> steps == [StoreLogin(c.address, c.inputs)]
    ensures c.Refresh? ==> steps != [] && steps[0] == Lookup(id, c.token, c.inputs)
    ensures c.SignOut? ==> steps != [] && steps[0] == SignOutLookup(id, c.token, c.inputs.faults.lookup)
    ensures forall k | 0 < k < |steps| :: LaterStatement(id, c.inputs, steps[k])
  {
    var first := FirstStatement(s, id, c);
    var t := Next(s, first);
    steps := [first];
    assert steps[1..] == [];
    assert c.Login? ==> t.calls == s.calls;
    hide Next;
    hide Enabled;
    hide Apply;
    if id in t.calls {
      var more := CallFinishes(t, id, c.inputs);
      RunFirst(s, first, more);
      steps := steps + more;
    }
  }

  /** The rest of a call that got past its lookup. */
  lemma CallFinishes(t: State, id: CallId, inp: Inputs) returns (steps: seq<Step>)
    requires WellFormed(t) && id in t.calls && !t.calls[id].Rotating?
    ensures ValidRun(t, steps)
    ensures Run(t, steps) == State(Finished(t.rows, t.calls[id], inp), t.calls - {id})
    ensures forall k | 0 <= k < |steps| :: LaterStatement(id, inp, steps[k])
  {
    if t.calls[id].Revoking? {
      steps := [RevokeAll(id, inp.faults.revokeFamily)];
      assert steps[1..] == [];
    } else {
      var first := [Retire(id, inp.faults.rotate)];
      var u := Next(t, first[0]);
      assert first[1..] == [];
      if inp.faults.rotate {
        steps := first;
      } else {
        var last := [StoreSuccessor(id, inp)];
        assert last[1..] == [] && Next(u, last[0]).calls == t.calls - {id};
        RunsCompose(t, first, last);
        steps := first + last;
      }
    }
  }

  lemma {:induction false} NoOverlapCompose(s: State, a: seq<Step>, b: seq<Step>)
    requires WellFormed(s) && ValidRun(s, a) && NoOverlap(s, a) && ValidRun(Run(s, a), b) && NoOverlap(Run(s, a), b)
    ensures ValidRun(s, a + b) && NoOverlap(s, a + b)
    decreases |a|
  {
    hide Next;
    hide Enabled;
    hide WellFormed;
    hide InFlight;
    RunsCompose(s, a, b);
    if a == [] {
      assert a + b == b;
    } else {
      assert (a + b)[1..] == a[1..] + b;
      NoOverlapCompose(Next(s, a[0]), a[1..], b);
    }
  }

  lemma LoneCallsDoNotOverlap(rows: Table, steps: seq<Step>, c: Call)
    requires ValidRun(Alone(rows), steps) && forall k | 0 < k < |steps| :: LaterStatement(0, c.inputs, steps[k])
    ensures NoOverlap(Alone(rows), steps)
  {
    if steps != [] {
      NoLookupNoOverlap(Next(Alone(rows), steps[0]), steps[1..]);
    }
  }

  /** Every serial run is one of the interleaved runs without overlap. */
  lemma {:induction false} SerialRunIsInterleaving(rows: Table, calls: seq<Call>) returns (steps: seq<Step>)
    requires AuthSerial.ValidRun(rows, calls)
    ensures ValidRun(Alone(rows), steps) && NoOverlap(Alone(rows), steps)
    ensures Run(Alone(rows), steps) == Alone(AuthSerial.Run(rows, calls))
    decreases |calls|
  {
    if calls == [] {
      steps := [];
    } else {
      var first := CallIsInterleaving(Alone(rows), 0, calls[0]);
      LoneCallsDoNotOverlap(rows, first, calls[0]);
      var rest := SerialRunIsInterleaving(Apply(rows, calls[0]).rows, calls[1..]);
      RunsCompose(Alone(rows), first, rest);
      NoOverlapCompose(Alone(rows), first, rest);
      steps := first + rest;
    }
  }
}
