/** Leaving the hypervisor: each CPU that has activated calls `hypervisor_disable`, waits
    for the others at TRY_DISABLE_CPUS, and deactivates. One atomic access per step. */
module Disable {

  datatype Pc =
    | Activating            // before the fetch_add of ACTIVATED_CPUS
    | Guest                 // running the guest
    | HasRead(cpus: int)    // has loaded ACTIVATED_CPUS
    | Spinning(cpus: int)   // has bumped TRY_DISABLE_CPUS
    | Leaving               // out of the loop, before the fetch_sub
    | Gone                  // back in Linux

  datatype State = State(activated: int, tried: nat, cpus: seq<Pc>)

  function Step(s: State, i: nat): State {
    if i >= |s.cpus| then s
    else
      match s.cpus[i]
      case Activating => State(s.activated + 1, s.tried, s.cpus[i := Guest])
      case Guest => State(s.activated, s.tried, s.cpus[i := HasRead(s.activated)])
      case HasRead(k) => State(s.activated, s.tried + 1, s.cpus[i := Spinning(k)])
      case Spinning(k) => if s.tried < k then s else State(s.activated, s.tried, s.cpus[i := Leaving])
      case Leaving => State(s.activated - 1, s.tried, s.cpus[i := Gone])
      case Gone => s
  }

  function Start(n: nat): State {
    State(0, 0, seq(n, _ => Activating))
  }

  function Exec(s: State, trace: seq<nat>): (s': State)
    ensures |s'.cpus| == |s.cpus|
    decreases |trace|
  {
    if trace == [] then s else Exec(Step(s, trace[0]), trace[1..])
  }

  // ---- Counting ---------------------------------------------------------------------------

  datatype Group = Active | Arrived | Departed

  predicate In(pc: Pc, g: Group) {
    match g
    case Active => !pc.Activating? && !pc.Gone?
    case Arrived => pc.Spinning? || pc.Leaving? || pc.Gone?
    case Departed => pc.Gone?
  }

  ghost function Count(cpus: seq<Pc>, g: Group): nat {
    if cpus == [] then 0 else Count(cpus[1..], g) + if In(cpus[0], g) then 1 else 0
  }

  lemma {:induction false} CountUpdate(cpus: seq<Pc>, g: Group, i: nat, pc: Pc)
    requires i < |cpus|
    ensures Count(cpus[i := pc], g) == Count(cpus, g) - (if In(cpus[i], g) then 1 else 0) + if In(pc, g) then 1 else 0
    decreases |cpus|
  {
    hide In;
    if i > 0 {
      CountUpdate(cpus[1..], g, i - 1, pc);
      assert cpus[i := pc][1..] == cpus[1..][i - 1 := pc];
    } else {
      assert cpus[i := pc][1..] == cpus[1..];
    }
  }

  lemma {:induction false} CountAll(cpus: seq<Pc>, g: Group)
    ensures Count(cpus, g) <= |cpus|
    ensures Count(cpus, g) == |cpus| <==> forall i | 0 <= i < |cpus| :: In(cpus[i], g)
    ensures Count(cpus, g) == 0 <==> forall i | 0 <= i < |cpus| :: !In(cpus[i], g)
    decreases |cpus|
  {
    hide In;
    if cpus != [] {
      CountAll(cpus[1..], g);
      assert forall i | 0 < i < |cpus| :: cpus[i] == cpus[1..][i - 1];
      assert forall i | 0 <= i < |cpus| - 1 :: cpus[1..][i] == cpus[i + 1];
    }
  }

  // ---- What every run keeps ------------------------------------------------------------------

  /** No CPU waits for more CPUs than there are. */
  ghost predicate PcOk(n: nat, pc: Pc) {
    pc.HasRead? || pc.Spinning? ==> 0 <= pc.cpus <= n
  }

  ghost predicate Inv(s: State) {
    && s.activated == Count(s.cpus, Active)
    && s.tried == Count(s.cpus, Arrived)
    && forall i | 0 <= i < |s.cpus| :: PcOk(|s.cpus|, s.cpus[i])
  }

  lemma StartInv(n: nat)
    ensures Inv(Start(n))
  {
    CountAll(Start(n).cpus, Active);
    CountAll(Start(n).cpus, Arrived);
  }

  lemma StepInv(s: State, i: nat)
    requires Inv(s)
    ensures Inv(Step(s, i))
  {
    if i < |s.cpus| {
      hide Count;
      CountAll(s.cpus, Active);
      CountUpdate(s.cpus, Active, i, Step(s, i).cpus[i]);
      CountUpdate(s.cpus, Arrived, i, Step(s, i).cpus[i]);
      assert s.cpus[i := s.cpus[i]] == s.cpus;
    }
  }

  lemma {:induction false} ExecInv(s: State, trace: seq<nat>)
    requires Inv(s)
    ensures Inv(Exec(s, trace))
    decreases |trace|
  {
    hide Inv;
    if trace != [] {
      StepInv(s, trace[0]);
      ExecInv(Step(s, trace[0]), trace[1..]);
    }
  }

  // ---- The rendezvous ---------------------------------------------------------------------------

  ghost predicate AllActivated(s: State) {
    forall i | 0 <= i < |s.cpus| :: !s.cpus[i].Activating?
  }

  /** No CPU asks to leave before all have activated. */
  ghost predicate Guarded(s: State, trace: seq<nat>)
    decreases |trace|
  {
    trace == [] || (
      && (trace[0] < |s.cpus| && s.cpus[trace[0]].Guest? ==> AllActivated(s))
      && Guarded(Step(s, trace[0]), trace[1..]))
  }

  /** Every load of ACTIVATED_CPUS in the run gives the number of CPUs. */
  ghost predicate ReadsAll(s: State, trace: seq<nat>)
    decreases |trace|
  {
    trace == [] || (
      && (trace[0] < |s.cpus| && s.cpus[trace[0]].Guest? ==> s.activated == |s.cpus|)
      && ReadsAll(Step(s, trace[0]), trace[1..]))
  }

  /** What guarded runs keep besides: nobody gets out before all have arrived. */
  ghost predicate Together(s: State) {
    && (forall i | 0 <= i < |s.cpus| && (s.cpus[i].HasRead? || s.cpus[i].Spinning?) :: s.cpus[i].cpus == |s.cpus|)
    && (forall i | 0 <= i < |s.cpus| && (s.cpus[i].Leaving? || s.cpus[i].Gone?) :: s.tried == |s.cpus|)
    && ((exists i :: 0 <= i < |s.cpus| && (s.cpus[i].HasRead? || In(s.cpus[i], Arrived))) ==> AllActivated(s))
  }

  /** While some CPU is still in the guest, all that have activated are counted. */
  lemma GuestReads(s: State, i: nat)
    requires Inv(s) && Together(s) && i < |s.cpus| && s.cpus[i].Guest?
    ensures AllActivated(s) <==> s.activated == |s.cpus|
  {
    hide Count;
    CountAll(s.cpus, Active);
    CountAll(s.cpus, Arrived);
  }

  lemma StepTogether(s: State, i: nat)
    requires Inv(s) && Together(s) && (i < |s.cpus| && s.cpus[i].Guest? ==> AllActivated(s))
    ensures Together(Step(s, i))
  {
    hide Count;
    var s' := Step(s, i);
    if i < |s.cpus| {
      if s.cpus[i].Guest? { GuestReads(s, i); }
      CountAll(s.cpus, Arrived);
      assert forall j | 0 <= j < |s.cpus| && j != i :: s'.cpus[j] == s.cpus[j];
      assert AllActivated(s) ==> AllActivated(s');
    }
  }

  /** A run in which nobody asks too early keeps all CPUs together to the end. */
  lemma {:induction false} GuardedTogether(s: State, trace: seq<nat>)
    requires Inv(s) && Together(s) && Guarded(s, trace)
    ensures Inv(Exec(s, trace)) && Together(Exec(s, trace)) && ReadsAll(s, trace)
    decreases |trace|
  {
    if trace != [] {
      if trace[0] < |s.cpus| && s.cpus[trace[0]].Guest? { GuestReads(s, trace[0]); }
      StepInv(s, trace[0]);
      StepTogether(s, trace[0]);
      hide Inv, Together, AllActivated, Step;
      GuardedTogether(Step(s, trace[0]), trace[1..]);
    }
  }

  lemma {:induction false} ReadsAllGuarded(s: State, trace: seq<nat>)
    requires Inv(s) && ReadsAll(s, trace)
    ensures Guarded(s, trace)
    decreases |trace|
  {
    if trace != [] {
      CountAll(s.cpus, Active);
      StepInv(s, trace[0]);
      hide Step, Count;
      ReadsAllGuarded(Step(s, trace[0]), trace[1..]);
    }
  }

  lemma StartTogether(n: nat)
    ensures Together(Start(n))
  {
  }

  /** Every CPU reads the full number exactly in the runs where each asks to leave only
      after all have activated. */
  lemma GuardIsExact(n: nat, trace: seq<nat>)
    ensures Guarded(Start(n), trace) <==> ReadsAll(Start(n), trace)
  {
    hide Inv, Together, Guarded, ReadsAll;
    StartInv(n);
    StartTogether(n);
    if Guarded(Start(n), trace) { GuardedTogether(Start(n), trace); }
    if ReadsAll(Start(n), trace) { ReadsAllGuarded(Start(n), trace); }
  }

  ghost predicate SomeOut(s: State) {
    exists i :: 0 <= i < |s.cpus| && (s.cpus[i].Leaving? || s.cpus[i].Gone?)
  }

  /** The rendezvous: in such a run no CPU is out of the loop before all have arrived, and
      from then on the counter is the number of CPUs less those gone. */
  lemma Rendezvous(n: nat, trace: seq<nat>)
    requires Guarded(Start(n), trace)
    ensures var s := Exec(Start(n), trace);
            && (SomeOut(s) ==> forall i | 0 <= i < n :: In(s.cpus[i], Arrived))
            && (AllActivated(s) ==> s.activated == n - Count(s.cpus, Departed))
  {
    StartInv(n);
    StartTogether(n);
    GuardedTogether(Start(n), trace);
    var s := Exec(Start(n), trace);
    hide Guarded, ReadsAll, Count;
    CountAll(s.cpus, Arrived);
    if AllActivated(s) { ActiveOrGone(s.cpus); }
  }

  lemma {:induction false} ActiveOrGone(cpus: seq<Pc>)
    requires forall i | 0 <= i < |cpus| :: !cpus[i].Activating?
    ensures Count(cpus, Active) + Count(cpus, Departed) == |cpus|
    decreases |cpus|
  {
    if cpus != [] { ActiveOrGone(cpus[1..]); }
  }

  /** The guard is needed: with two CPUs, one that asks before the other has activated is
      gone while the other has not even arrived. */
  lemma TooEarly()
    ensures var trace := [0, 0, 0, 0, 0];
            var s := Exec(Start(2), trace);
            && !Guarded(Start(2), trace)
            && s.cpus[0] == Gone && s.cpus[1] == Activating && s.tried == 1
  {
    var s0 := Start(2);
    var s1 := Step(s0, 0);
    assert s1.cpus == [Guest, Activating];
    assert s1.cpus[1].Activating?;
    var s2 := Step(s1, 0);
    var s3 := Step(s2, 0);
    var s4 := Step(s3, 0);
    assert s4.cpus == [Leaving, Activating];
    var s5 := Step(s4, 0);
    assert [0, 0, 0, 0, 0][1..] == [0, 0, 0, 0];
    assert Exec(s1, [0, 0, 0, 0]) == Exec(s2, [0, 0, 0]) == Exec(s3, [0, 0]) == Exec(s4, [0]) == Exec(s5, []);
    assert !Guarded(s1, [0, 0, 0, 0]);
  }

  /** ACTIVATED_CPUS never goes below zero, guarded or not. */
  lemma NoUnderflow(n: nat, trace: seq<nat>, i: nat)
    requires i < n
    ensures var s := Exec(Start(n), trace); 0 <= s.activated <= n && (s.cpus[i].Leaving? ==> s.activated > 0)
  {
    StartInv(n);
    ExecInv(Start(n), trace);
    hide Count, Exec;
    CountAll(Exec(Start(n), trace).cpus, Active);
  }

  // ---- Progress -----------------------------------------------------------------------------

  function Rank(pc: Pc): nat {
    match pc
    case Activating => 5
    case Guest => 4
    case HasRead(_) => 3
    case Spinning(_) => 2
    case Leaving => 1
    case Gone => 0
  }

  function Measure(cpus: seq<Pc>): nat {
    if cpus == [] then 0 else Rank(cpus[0]) + Measure(cpus[1..])
  }

  lemma {:induction false} MeasureUpdate(cpus: seq<Pc>, i: nat, pc: Pc)
    requires i < |cpus|
    ensures Measure(cpus[i := pc]) == Measure(cpus) - Rank(cpus[i]) + Rank(pc)
    decreases |cpus|
  {
    hide Rank;
    if i > 0 {
      MeasureUpdate(cpus[1..], i - 1, pc);
      assert cpus[i := pc][1..] == cpus[1..][i - 1 := pc];
    } else {
      assert cpus[i := pc][1..] == cpus[1..];
    }
  }

  predicate Unblocked(s: State, i: nat)
    requires i < |s.cpus|
  {
    !s.cpus[i].Gone? && (s.cpus[i].Spinning? ==> s.tried >= s.cpus[i].cpus)
  }

  lemma StepMeasure(s: State, i: nat)
    requires i < |s.cpus|
    ensures Measure(Step(s, i).cpus) <= Measure(s.cpus)
    ensures Unblocked(s, i) ==> Measure(Step(s, i).cpus) < Measure(s.cpus)
    ensures s.tried <= Step(s, i).tried
    ensures forall j | 0 <= j < |s.cpus| && j != i :: Step(s, i).cpus[j] == s.cpus[j]
  {
    hide Measure;
    MeasureUpdate(s.cpus, i, Step(s, i).cpus[i]);
    assert s.cpus[i := s.cpus[i]] == s.cpus;
  }

  lemma {:induction false} MeasureNeverGrows(s: State, trace: seq<nat>)
    ensures Measure(Exec(s, trace).cpus) <= Measure(s.cpus)
    decreases |trace|
  {
    if trace != [] {
      hide Measure, Step;
      if trace[0] < |s.cpus| { StepMeasure(s, trace[0]); } else { StepNone(s, trace[0]); }
      MeasureNeverGrows(Step(s, trace[0]), trace[1..]);
    }
  }

  lemma StepNone(s: State, i: nat)
    requires i >= |s.cpus|
    ensures Step(s, i) == s
  {
  }

  lemma {:induction false} UnblockedLowers(s: State, trace: seq<nat>, i: nat)
    requires i < |s.cpus| && i in trace && Unblocked(s, i)
    ensures Measure(Exec(s, trace).cpus) < Measure(s.cpus)
    decreases |trace|
  {
    var j := trace[0];
    hide Measure, Step;
    MeasureNeverGrows(Step(s, j), trace[1..]);
    if j < |s.cpus| { StepMeasure(s, j); } else { StepNone(s, j); }
    if j != i { UnblockedLowers(Step(s, j), trace[1..], i); }
  }

  /** While some CPU has not gone, some CPU can move: the rendezvous cannot lock up. */
  lemma SomeUnblocked(s: State, u: nat) returns (i: nat)
    requires Inv(s) && u < |s.cpus| && !s.cpus[u].Gone?
    ensures i < |s.cpus| && Unblocked(s, i)
  {
    hide Count;
    CountAll(s.cpus, Arrived);
    if j :| 0 <= j < |s.cpus| && !In(s.cpus[j], Arrived) {
      i := j;
    } else {
      i := u;
    }
  }

  ghost predicate Round(n: nat, trace: seq<nat>) {
    forall i: nat | i < n :: i in trace
  }

  function Run(s: State, rounds: seq<seq<nat>>): (s': State)
    ensures |s'.cpus| == |s.cpus|
    decreases |rounds|
  {
    if rounds == [] then s else Run(Exec(s, rounds[0]), rounds[1..])
  }

  ghost predicate AllGone(s: State) {
    forall i | 0 <= i < |s.cpus| :: s.cpus[i].Gone?
  }

  lemma {:induction false} MeasureZero(cpus: seq<Pc>)
    ensures Measure(cpus) == 0 <==> forall i | 0 <= i < |cpus| :: cpus[i].Gone?
    decreases |cpus|
  {
    if cpus != [] {
      MeasureZero(cpus[1..]);
      assert forall i | 0 < i < |cpus| :: cpus[i] == cpus[1..][i - 1];
      assert forall i | 0 <= i < |cpus| - 1 :: cpus[1..][i] == cpus[i + 1];
    }
  }

  lemma {:induction false} RunLeaves(s: State, rounds: seq<seq<nat>>)
    requires Inv(s) && (forall r | r in rounds :: Round(|s.cpus|, r)) && |rounds| >= Measure(s.cpus)
    ensures Inv(Run(s, rounds)) && AllGone(Run(s, rounds))
    decreases |rounds|
  {
    hide Inv, Measure, Exec;
    MeasureZero(s.cpus);
    if rounds != [] {
      ExecInv(s, rounds[0]);
      MeasureNeverGrows(s, rounds[0]);
      if u :| 0 <= u < |s.cpus| && !s.cpus[u].Gone? {
        var i := SomeUnblocked(s, u);
        assert Round(|s.cpus|, rounds[0]);
        UnblockedLowers(s, rounds[0], i);
      }
      RunLeaves(Exec(s, rounds[0]), rounds[1..]);
    }
  }

  lemma {:induction false} StartMeasure(cpus: seq<Pc>)
    requires forall i | 0 <= i < |cpus| :: cpus[i].Activating?
    ensures Measure(cpus) == 5 * |cpus|
    decreases |cpus|
  {
    if cpus != [] { StartMeasure(cpus[1..]); }
  }

  /** After `5 n` rounds in which every CPU moves, all are back in Linux and none is counted. */
  lemma AllLeave(n: nat, rounds: seq<seq<nat>>)
    requires (forall r | r in rounds :: Round(n, r)) && |rounds| >= 5 * n
    ensures var s := Run(Start(n), rounds); AllGone(s) && s.activated == 0 && s.tried == n
  {
    StartInv(n);
    StartMeasure(Start(n).cpus);
    RunLeaves(Start(n), rounds);
    hide Run, Count;
    CountAll(Run(Start(n), rounds).cpus, Active);
    CountAll(Run(Start(n), rounds).cpus, Arrived);
  }
}
