/** The boot protocol of `entry`: every online CPU enters, the primary prepares memory, all
    initialise, all activate; a sticky error number calls the whole thing off. One atomic
    load, store or fetch-and-add per step, in any interleaving. */
module Boot {

  const EBUSY: int := -16
  const EINVAL: int := -22

  datatype Barrier = AllEntered | EarlyDone | AllInited | LateDone

  /** Where `wait_for` stands: the loop's `has_err`, its condition, the last `has_err`. */
  datatype Phase = LoopError | LoopCondition | LastError

  datatype Pc =
    | CheckMax                        // PerCpu::new: load ENTERED_CPUS
    | Enter                           // fetch_add ENTERED_CPUS
    | Wait(barrier: Barrier, phase: Phase)
    | CheckConfig | MakeTable | MakeCell | StoreEarly   // primary_init_early
    | Init                            // PerCpu::init
    | CountInited                     // fetch_add INITED_CPUS
    | StoreLate                       // primary_init_late
    | Activate                        // fetch_add ACTIVATED_CPUS
    | Running                         // in vcpu.enter, which does not return
    | StoreError(code: int)           // entry: store ERROR_NUM
    | LoadError                       // entry: load ERROR_NUM
    | Returned(code: int)

  /** `got`: how many of the counters ENTERED, INITED, ACTIVATED this CPU has bumped. */
  datatype Cpu = Cpu(id: nat, pc: Pc, got: nat)

  datatype Shared = Shared(
    entered: nat, early: nat, inited: nat, late: nat, activated: nat, error: int,
    table: bool, cell: bool)

  datatype State = State(max: nat, sh: Shared, cpus: seq<Cpu>)

  /** `condition()` is false: the counter has reached its target. */
  predicate Met(sh: Shared, n: nat, b: Barrier) {
    match b
    case AllEntered => sh.entered >= n
    case EarlyDone => sh.early >= 1
    case AllInited => sh.inited >= n
    case LateDone => sh.late >= 1
  }

  /** Where a CPU goes once `wait_for` has returned Ok. */
  function After(id: nat, b: Barrier): Pc {
    match b
    case AllEntered => if id == 0 then CheckConfig else Wait(EarlyDone, LoopError)
    case EarlyDone => Init
    case AllInited => if id == 0 then StoreLate else Wait(LateDone, LoopError)
    case LateDone => Activate
  }

  /** A step that may fail with error number `outcome`; 0 is success. */
  function Try(outcome: int, next: Pc): Pc {
    if outcome == 0 then next else StoreError(outcome)
  }

  /** The next step of one CPU, among `n` that are online. */
  function NextPc(sh: Shared, n: nat, max: nat, c: Cpu, outcome: int): Pc {
    match c.pc
    case CheckMax => if sh.entered >= max then Returned(EINVAL) else Enter
    case Enter => Wait(AllEntered, LoopError)
    case Wait(b, LoopError) => Wait(b, if sh.error != 0 then LastError else LoopCondition)
    case Wait(b, LoopCondition) => Wait(b, if Met(sh, n, b) then LastError else LoopError)
    case Wait(b, LastError) => if sh.error != 0 then StoreError(EBUSY) else After(c.id, b)
    case CheckConfig => Try(outcome, MakeTable)
    case MakeTable => Try(outcome, MakeCell)
    case MakeCell => Try(outcome, StoreEarly)
    case StoreEarly => Init
    case Init => Try(outcome, CountInited)
    case CountInited => Wait(AllInited, LoopError)
    case StoreLate => Activate
    case Activate => Running
    case Running => Running
    case StoreError(_) => LoadError
    case LoadError => Returned(sh.error)
    case Returned(code) => Returned(code)
  }

  function NextShared(sh: Shared, c: Cpu, outcome: int): Shared {
    match c.pc
    case Enter => sh.(entered := sh.entered + 1)
    case MakeTable => if outcome == 0 then sh.(table := true) else sh
    case MakeCell => if outcome == 0 then sh.(cell := true) else sh
    case StoreEarly => sh.(early := 1)
    case CountInited => sh.(inited := sh.inited + 1)
    case StoreLate => sh.(late := 1)
    case Activate => sh.(activated := sh.activated + 1)
    case StoreError(code) => sh.(error := code)
    case _ => sh
  }

  function NextCpu(sh: Shared, n: nat, max: nat, c: Cpu, outcome: int): Cpu {
    Cpu(if c.pc.Enter? then sh.entered else c.id,
        NextPc(sh, n, max, c, outcome),
        if c.pc.Enter? || c.pc.CountInited? || c.pc.Activate? then c.got + 1 else c.got)
  }

  datatype Event = Event(cpu: nat, outcome: int)

  function Step(s: State, e: Event): State {
    if e.cpu >= |s.cpus| then s
    else
      var c := s.cpus[e.cpu];
      State(s.max, NextShared(s.sh, c, e.outcome),
            s.cpus[e.cpu := NextCpu(s.sh, |s.cpus|, s.max, c, e.outcome)])
  }

  function Start(n: nat, max: nat): State {
    State(max, Shared(0, 0, 0, 0, 0, 0, false, false), seq(n, _ => Cpu(0, CheckMax, 0)))
  }

  function Exec(s: State, trace: seq<Event>): (s': State)
    ensures |s'.cpus| == |s.cpus| && s'.max == s.max
    decreases |trace|
  {
    if trace == [] then s else Exec(Step(s, trace[0]), trace[1..])
  }

  // ---- Counting ---------------------------------------------------------------------------

  /** How many CPUs have bumped at least `k` counters. */
  ghost function Count(cpus: seq<Cpu>, k: nat): nat {
    if cpus == [] then 0 else Count(cpus[1..], k) + if cpus[0].got >= k then 1 else 0
  }

  lemma {:induction false} CountUpdate(cpus: seq<Cpu>, k: nat, i: nat, c: Cpu)
    requires i < |cpus|
    ensures Count(cpus[i := c], k)
            == Count(cpus, k) - (if cpus[i].got >= k then 1 else 0) + if c.got >= k then 1 else 0
    decreases |cpus|
  {
    if i > 0 {
      CountUpdate(cpus[1..], k, i - 1, c);
      assert cpus[i := c][1..] == cpus[1..][i - 1 := c];
    } else {
      assert cpus[i := c][1..] == cpus[1..];
    }
  }

  lemma {:induction false} CountAll(cpus: seq<Cpu>, k: nat)
    ensures Count(cpus, k) <= |cpus|
    ensures Count(cpus, k) == |cpus| <==> forall i | 0 <= i < |cpus| :: cpus[i].got >= k
    decreases |cpus|
  {
    if cpus != [] {
      CountAll(cpus[1..], k);
      assert forall i | 0 < i < |cpus| :: cpus[i] == cpus[1..][i - 1];
      assert forall i | 0 <= i < |cpus| - 1 :: cpus[1..][i] == cpus[i + 1];
    }
  }

  lemma {:induction false} CountNone(cpus: seq<Cpu>, k: nat)
    requires forall i | 0 <= i < |cpus| :: cpus[i].got < k
    ensures Count(cpus, k) == 0
    decreases |cpus|
  {
    if cpus != [] { CountNone(cpus[1..], k); }
  }

  // ---- The invariant --------------------------------------------------------------------------

  predicate Failing(pc: Pc) {
    pc.StoreError? || pc.LoadError? || pc.Returned?
  }

  /** How many barriers lie behind a CPU on the way to activation. */
  function Passed(pc: Pc): nat {
    match pc
    case CheckMax => 0
    case Enter => 0
    case Wait(AllEntered, _) => 0
    case Wait(EarlyDone, _) => 1
    case CheckConfig => 1
    case MakeTable => 1
    case MakeCell => 1
    case StoreEarly => 1
    case Init => 2
    case CountInited => 2
    case Wait(AllInited, _) => 2
    case StoreLate => 3
    case Wait(LateDone, _) => 3
    case Activate => 4
    case Running => 4
    case _ => 0
  }

  ghost predicate PassedOk(sh: Shared, n: nat, k: nat) {
    && (k >= 1 ==> Met(sh, n, AllEntered))
    && (k >= 2 ==> Met(sh, n, EarlyDone))
    && (k >= 3 ==> Met(sh, n, AllInited))
    && (k >= 4 ==> Met(sh, n, LateDone))
  }

  predicate PrimaryOnly(pc: Pc) {
    pc.CheckConfig? || pc.MakeTable? || pc.MakeCell? || pc.StoreEarly? || pc.StoreLate?
  }

  ghost predicate GotOk(c: Cpu) {
    match c.pc
    case CheckMax => c.got == 0
    case Enter => c.got == 0
    case Wait(b, _) => c.got == if b == AllEntered || b == EarlyDone then 1 else 2
    case StoreLate => c.got == 2
    case Activate => c.got == 2
    case Running => c.got == 3
    case StoreError(_) => 1 <= c.got <= 2
    case LoadError => 1 <= c.got <= 2
    case Returned(_) => 1 <= c.got <= 2
    case _ => c.got == 1
  }

  /** What holds at each place in the code. */
  ghost predicate PlaceOk(sh: Shared, n: nat, c: Cpu) {
    && (PrimaryOnly(c.pc) ==> c.id == 0)
    && (c.pc.Wait? && (c.pc.barrier == EarlyDone || c.pc.barrier == LateDone) ==> c.id != 0)
    && (c.pc.Wait? && c.pc.phase == LastError ==> sh.error != 0 || Met(sh, n, c.pc.barrier))
    && (c.pc.MakeCell? || c.pc.StoreEarly? ==> sh.table)
    && (c.pc.StoreEarly? ==> sh.cell)
    && (c.pc.StoreError? ==> c.pc.code != 0)
    && (c.pc.LoadError? || c.pc.Returned? ==> sh.error != 0)
    && (c.pc.Returned? ==> c.pc.code != 0)
  }

  /** What holds of one CPU, whatever the others do. */
  ghost predicate CpuOk(sh: Shared, n: nat, c: Cpu) {
    GotOk(c) && (c.got >= 1 ==> c.id < sh.entered) && PassedOk(sh, n, Passed(c.pc)) && PlaceOk(sh, n, c)
  }

  /** The shared words only ever move forward. */
  ghost predicate Grows(sh: Shared, sh': Shared) {
    && sh.entered <= sh'.entered && sh.early <= sh'.early && sh.inited <= sh'.inited && sh.late <= sh'.late
    && (sh.error != 0 ==> sh'.error != 0) && (sh.table ==> sh'.table) && (sh.cell ==> sh'.cell)
  }

  ghost predicate SharedOk(sh: Shared) {
    sh.early <= 1 && sh.late <= 1 && (sh.early == 1 ==> sh.table && sh.cell)
  }

  ghost predicate Counted(s: State) {
    s.sh.entered == Count(s.cpus, 1) && s.sh.inited == Count(s.cpus, 2) && s.sh.activated == Count(s.cpus, 3)
  }

  ghost predicate Ids(s: State) {
    && (forall i, j | 0 <= i < j < |s.cpus| && s.cpus[i].got >= 1 && s.cpus[j].got >= 1 :: s.cpus[i].id != s.cpus[j].id)
    && (s.sh.entered > 0 ==> exists i :: 0 <= i < |s.cpus| && s.cpus[i].got >= 1 && s.cpus[i].id == 0)
  }

  /** A CPU that failed before it was counted as initialised. */
  ghost predicate Cause(cpus: seq<Cpu>) {
    exists i :: 0 <= i < |cpus| && Failing(cpus[i].pc) && cpus[i].got < 2
  }

  ghost predicate Caused(s: State) {
    !Cause(s.cpus) ==> s.sh.error == 0 && forall i | 0 <= i < |s.cpus| :: !Failing(s.cpus[i].pc)
  }

  ghost predicate Inv(s: State) {
    && |s.cpus| <= s.max && SharedOk(s.sh) && Counted(s) && Ids(s) && Caused(s)
    && forall i | 0 <= i < |s.cpus| :: CpuOk(s.sh, |s.cpus|, s.cpus[i])
  }

  lemma StartInv(n: nat, max: nat)
    requires n <= max
    ensures Inv(Start(n, max))
  {
    CountNone(Start(n, max).cpus, 1);
    CountNone(Start(n, max).cpus, 2);
    CountNone(Start(n, max).cpus, 3);
  }

  lemma CpuOkGrows(sh: Shared, sh': Shared, n: nat, c: Cpu)
    requires CpuOk(sh, n, c) && Grows(sh, sh')
    ensures CpuOk(sh', n, c)
  {
    hide Passed, GotOk, PrimaryOnly;
  }

  lemma StepGrows(sh: Shared, n: nat, c: Cpu, outcome: int)
    requires CpuOk(sh, n, c) && SharedOk(sh)
    ensures Grows(sh, NextShared(sh, c, outcome)) && SharedOk(NextShared(sh, c, outcome))
  {
    hide Passed, GotOk, PrimaryOnly;
  }

  lemma StepGot(sh: Shared, n: nat, max: nat, c: Cpu, outcome: int)
    requires CpuOk(sh, n, c) && (c.pc.CheckMax? ==> sh.entered < max)
    ensures GotOk(NextCpu(sh, n, max, c, outcome))
  {
    hide PassedOk, PlaceOk, Met;
  }

  lemma StepPassed(sh: Shared, n: nat, max: nat, c: Cpu, outcome: int)
    requires CpuOk(sh, n, c)
    ensures PassedOk(NextShared(sh, c, outcome), n, Passed(NextPc(sh, n, max, c, outcome)))
  {
    hide GotOk, PrimaryOnly;
  }

  lemma StepPlace(sh: Shared, n: nat, max: nat, c: Cpu, outcome: int)
    requires CpuOk(sh, n, c) && (c.pc.CheckMax? ==> sh.entered < max)
    ensures PlaceOk(NextShared(sh, c, outcome), n, NextCpu(sh, n, max, c, outcome))
  {
    hide PassedOk, GotOk;
  }

  lemma StepCpuOk(sh: Shared, n: nat, max: nat, c: Cpu, outcome: int)
    requires CpuOk(sh, n, c) && SharedOk(sh) && (c.pc.CheckMax? ==> sh.entered < max)
    ensures CpuOk(NextShared(sh, c, outcome), n, NextCpu(sh, n, max, c, outcome))
  {
    StepGot(sh, n, max, c, outcome);
    StepPassed(sh, n, max, c, outcome);
    StepPlace(sh, n, max, c, outcome);
    StepGrows(sh, n, c, outcome);
    hide PassedOk, PlaceOk, GotOk, NextPc;
  }

  lemma StepCounted(s: State, e: Event)
    requires Inv(s) && e.cpu < |s.cpus|
    ensures Counted(Step(s, e))
  {
    hide Count, NextPc, SharedOk, Ids, Caused, PassedOk, PlaceOk;
    var c := s.cpus[e.cpu];
    var c' := NextCpu(s.sh, |s.cpus|, s.max, c, e.outcome);
    assert CpuOk(s.sh, |s.cpus|, c);
    CountUpdate(s.cpus, 1, e.cpu, c');
    CountUpdate(s.cpus, 2, e.cpu, c');
    CountUpdate(s.cpus, 3, e.cpu, c');
  }

  /** A CPU that has not entered yet finds room. */
  lemma RoomToEnter(s: State, i: nat)
    requires Inv(s) && i < |s.cpus| && s.cpus[i].got == 0
    ensures s.sh.entered < s.max
  {
    hide SharedOk, Ids, Caused, CpuOk;
    CountAll(s.cpus, 1);
  }

  lemma StepIds(s: State, e: Event)
    requires Inv(s) && e.cpu < |s.cpus|
    ensures Ids(Step(s, e))
  {
    hide NextPc, SharedOk, Counted, Caused, PassedOk, PlaceOk;
    var s', i := Step(s, e), e.cpu;
    assert CpuOk(s.sh, |s.cpus|, s.cpus[i]);
    if s.sh.entered > 0 {
      var p :| 0 <= p < |s.cpus| && s.cpus[p].got >= 1 && s.cpus[p].id == 0;
      assert s'.cpus[p].got >= 1 && s'.cpus[p].id == 0;
    } else if s'.sh.entered > 0 {
      assert s'.cpus[i].got >= 1 && s'.cpus[i].id == 0;
    }
    forall j, k | 0 <= j < k < |s.cpus| && s'.cpus[j].got >= 1 && s'.cpus[k].got >= 1
      ensures s'.cpus[j].id != s'.cpus[k].id
    {
      assert CpuOk(s.sh, |s.cpus|, s.cpus[j]) && CpuOk(s.sh, |s.cpus|, s.cpus[k]);
    }
  }

  lemma CauseStays(s: State, e: Event)
    requires Cause(s.cpus) && e.cpu < |s.cpus|
    ensures Cause(Step(s, e).cpus)
  {
    var i :| 0 <= i < |s.cpus| && Failing(s.cpus[i].pc) && s.cpus[i].got < 2;
    var c := Step(s, e).cpus[i];
    assert Failing(c.pc) && c.got < 2;
  }

  lemma StepCaused(s: State, e: Event)
    requires Inv(s) && e.cpu < |s.cpus|
    ensures Caused(Step(s, e))
  {
    hide SharedOk, Counted, Ids, PassedOk, PlaceOk, Met;
    var s', i := Step(s, e), e.cpu;
    var c := s.cpus[i];
    assert CpuOk(s.sh, |s.cpus|, c);
    if Cause(s.cpus) {
      CauseStays(s, e);
    } else {
      if c.got == 0 { RoomToEnter(s, i); }
      if Failing(s'.cpus[i].pc) { assert s'.cpus[i].got < 2; }
    }
  }

  lemma StepInv(s: State, e: Event)
    requires Inv(s)
    ensures Inv(Step(s, e))
  {
    if e.cpu < |s.cpus| {
      var s', i := Step(s, e), e.cpu;
      StepCounted(s, e);
      StepIds(s, e);
      StepCaused(s, e);
      hide Counted, Ids, Caused, SharedOk, NextPc, NextShared, NextCpu;
      assert CpuOk(s.sh, |s.cpus|, s.cpus[i]);
      StepGrows(s.sh, |s.cpus|, s.cpus[i], e.outcome);
      if s.cpus[i].pc.CheckMax? { RoomToEnter(s, i); }
      StepCpuOk(s.sh, |s.cpus|, s.max, s.cpus[i], e.outcome);
      hide CpuOk;
      forall j | 0 <= j < |s.cpus| ensures CpuOk(s'.sh, |s.cpus|, s'.cpus[j]) {
        if j != i { CpuOkGrows(s.sh, s'.sh, |s.cpus|, s.cpus[j]); }
      }
    }
  }

  lemma {:induction false} ExecInv(s: State, trace: seq<Event>)
    requires Inv(s)
    ensures Inv(Exec(s, trace))
    decreases |trace|
  {
    hide Inv;
    if trace != [] {
      StepInv(s, trace[0]);
      ExecInv(Step(s, trace[0]), trace[1..]);
    }
  }

  // ---- Safety -------------------------------------------------------------------------------

  ghost predicate Activating(s: State) {
    exists i :: 0 <= i < |s.cpus| && (s.cpus[i].pc.Activate? || s.cpus[i].pc.Running?)
  }

  ghost predicate SomeFailing(s: State) {
    exists i :: 0 <= i < |s.cpus| && Failing(s.cpus[i].pc)
  }

  /** Once one CPU has seen all initialised, nothing has failed. */
  lemma AllInitedNoFailure(s: State)
    requires Inv(s) && s.sh.inited >= |s.cpus|
    ensures s.sh.error == 0 && !SomeFailing(s)
    ensures forall i | 0 <= i < |s.cpus| :: s.cpus[i].got >= 2
  {
    hide SharedOk, Ids, CpuOk;
    CountAll(s.cpus, 2);
  }

  lemma ActivatingNoFailure(s: State)
    requires Inv(s) && Activating(s)
    ensures s.sh.error == 0 && !SomeFailing(s)
    ensures forall i | 0 <= i < |s.cpus| :: s.cpus[i].got >= 2
  {
    var i :| 0 <= i < |s.cpus| && (s.cpus[i].pc.Activate? || s.cpus[i].pc.Running?);
    assert CpuOk(s.sh, |s.cpus|, s.cpus[i]);
    hide Inv;
    AllInitedNoFailure(s);
  }

  lemma {:induction false} ActivatingStays(s: State, trace: seq<Event>)
    ensures Activating(s) ==> Activating(Exec(s, trace))
    ensures SomeFailing(s) ==> SomeFailing(Exec(s, trace))
    decreases |trace|
  {
    if trace != [] {
      var s' := Step(s, trace[0]);
      if i :| 0 <= i < |s.cpus| && (s.cpus[i].pc.Activate? || s.cpus[i].pc.Running?) {
        assert s'.cpus[i].pc.Activate? || s'.cpus[i].pc.Running?;
      }
      if i :| 0 <= i < |s.cpus| && Failing(s.cpus[i].pc) {
        assert Failing(s'.cpus[i].pc);
      }
      ActivatingStays(s', trace[1..]);
    }
  }

  /** All or nothing: over any run, if some CPU activates at some time then none fails or
      returns at any time, before or after. */
  lemma AllOrNothing(n: nat, max: nat, before: seq<Event>, after: seq<Event>)
    requires n <= max
    ensures var s := Exec(Start(n, max), before);
            && !(Activating(s) && SomeFailing(Exec(s, after)))
            && !(SomeFailing(s) && Activating(Exec(s, after)))
  {
    hide Inv, Activating, SomeFailing;
    StartInv(n, max);
    ExecInv(Start(n, max), before);
    var s := Exec(Start(n, max), before);
    ExecInv(s, after);
    ActivatingStays(s, after);
    if Activating(Exec(s, after)) { ActivatingNoFailure(Exec(s, after)); }
  }

  /** Every return carries a non-zero code. */
  lemma ReturnsNonZero(n: nat, max: nat, trace: seq<Event>, i: nat)
    requires n <= max && i < n && Exec(Start(n, max), trace).cpus[i].pc.Returned?
    ensures Exec(Start(n, max), trace).cpus[i].pc.code != 0
  {
    StartInv(n, max);
    ExecInv(Start(n, max), trace);
    var s := Exec(Start(n, max), trace);
    assert CpuOk(s.sh, n, s.cpus[i]);
  }

  /** The first `k` barriers lie behind: all entered, the primary's early part done, all
      initialised, its late part done. */
  ghost predicate Behind(sh: Shared, n: nat, k: nat) {
    && (k >= 1 ==> sh.entered >= n)
    && (k >= 2 ==> sh.early >= 1)
    && (k >= 3 ==> sh.inited >= n)
    && (k >= 4 ==> sh.late >= 1)
  }

  ghost predicate OrderedCpu(sh: Shared, n: nat, c: Cpu) {
    // a CPU about to run PerCpu::init finds the page table and the root cell made
    && (c.pc.Init? ==> sh.table && sh.cell)
    && (PrimaryOnly(c.pc) ==> c.id == 0)
    // one about to activate comes after the last init
    && (c.pc.Activate? || c.pc.Running? ==> sh.inited >= n)
    // a CPU past a barrier, or about to get Ok from it, comes after all it waits for
    && Behind(sh, n, Passed(c.pc))
    && (c.pc.Wait? && c.pc.phase == LastError && sh.error == 0 ==> Behind(sh, n, Passed(c.pc) + 1))
    && (c.got >= 1 ==> c.id < sh.entered)
  }

  /** The order of boot, at every moment of every run. */
  ghost predicate Ordered(s: State) {
    && (forall i | 0 <= i < |s.cpus| :: OrderedCpu(s.sh, |s.cpus|, s.cpus[i]))
    // the counters mean what they say
    && s.sh.entered <= |s.cpus| && s.sh.inited <= |s.cpus|
    && (s.sh.inited == |s.cpus| <==> forall i | 0 <= i < |s.cpus| :: s.cpus[i].got >= 2)
    // ids are distinct, and once all have entered one CPU is primary
    && (forall i, j | 0 <= i < j < |s.cpus| && s.cpus[i].got >= 1 && s.cpus[j].got >= 1 :: s.cpus[i].id != s.cpus[j].id)
    && (s.sh.entered > 0 ==> exists i :: 0 <= i < |s.cpus| && s.cpus[i].got >= 1 && s.cpus[i].id == 0)
  }

  lemma CpuOrdered(sh: Shared, n: nat, c: Cpu)
    requires CpuOk(sh, n, c) && SharedOk(sh)
    ensures OrderedCpu(sh, n, c)
  {
  }

  lemma InvOrdered(s: State)
    requires Inv(s)
    ensures Ordered(s)
  {
    hide Caused, CpuOk, OrderedCpu, SharedOk, Count;
    CountAll(s.cpus, 1);
    CountAll(s.cpus, 2);
    forall i | 0 <= i < |s.cpus| ensures OrderedCpu(s.sh, |s.cpus|, s.cpus[i]) {
      CpuOrdered(s.sh, |s.cpus|, s.cpus[i]);
    }
  }

  lemma BootOrder(n: nat, max: nat, trace: seq<Event>)
    requires n <= max
    ensures Ordered(Exec(Start(n, max), trace))
  {
    hide Inv, Ordered;
    StartInv(n, max);
    ExecInv(Start(n, max), trace);
    InvOrdered(Exec(Start(n, max), trace));
  }

  // ---- Whole runs -------------------------------------------------------------------------------

  lemma {:induction false} ExecConcat(s: State, a: seq<Event>, b: seq<Event>)
    ensures Exec(s, a + b) == Exec(Exec(s, a), b)
    decreases |a|
  {
    hide Step;
    if a == [] {
      assert a + b == b;
    } else {
      assert (a + b)[1..] == a[1..] + b;
      ExecConcat(Step(s, a[0]), a[1..], b);
    }
  }

  lemma ExecLast(s: State, trace: seq<Event>)
    requires trace != []
    ensures var k := |trace| - 1; Exec(s, trace) == Step(Exec(s, trace[..k]), trace[k])
  {
    hide Step;
    var k := |trace| - 1;
    assert trace == trace[..k] + [trace[k]];
    ExecConcat(s, trace[..k], [trace[k]]);
    assert [trace[k]][1..] == [];
  }

  predicate Fallible(pc: Pc) {
    pc.CheckConfig? || pc.MakeTable? || pc.MakeCell? || pc.Init?
  }

  /** In state `s`, event `e` is a step of boot that fails with error number `code`. */
  ghost predicate FailsNow(s: State, e: Event, code: int) {
    e.cpu < |s.cpus| && Fallible(s.cpus[e.cpu].pc) && e.outcome == code != 0
  }

  /** In state `s`, event `e` ends the `main` of CPU `i` with error number `code`: a step of its
      own fails with it, or it leaves a barrier because another CPU has failed. */
  ghost predicate EndsNow(s: State, e: Event, i: nat, code: int) {
    && e.cpu == i < |s.cpus|
    && var pc := s.cpus[i].pc;
       || FailsNow(s, e, code)
       || (pc.Wait? && pc.phase == LastError && s.sh.error != 0 && code == EBUSY)
  }

  /** In state `s`, event `e` is CPU `i` storing its error number. */
  ghost predicate StoresNow(s: State, e: Event, i: nat) {
    e.cpu == i < |s.cpus| && s.cpus[i].pc.StoreError?
  }

  /** In state `s`, event `e` is CPU `i` getting past `pc` with success. */
  ghost predicate Succeeds(s: State, e: Event, i: nat, pc: Pc) {
    e.cpu == i < |s.cpus| && s.cpus[i].pc == pc && e.outcome == 0
  }

  /** In the run of `trace` some step of boot fails with `code`. */
  ghost predicate Failed(s: State, trace: seq<Event>, code: int) {
    exists k | 0 <= k < |trace| :: FailsNow(Exec(s, trace[..k]), trace[k], code)
  }

  ghost predicate AnyFailed(s: State, trace: seq<Event>) {
    exists code :: Failed(s, trace, code)
  }

  ghost predicate Ended(s: State, trace: seq<Event>, i: nat, code: int) {
    exists k | 0 <= k < |trace| :: EndsNow(Exec(s, trace[..k]), trace[k], i, code)
  }

  ghost predicate AnyEnded(s: State, trace: seq<Event>, code: int) {
    exists i :: Ended(s, trace, i, code)
  }

  ghost predicate Stored(s: State, trace: seq<Event>, i: nat) {
    exists k | 0 <= k < |trace| :: StoresNow(Exec(s, trace[..k]), trace[k], i)
  }

  ghost predicate Did(s: State, trace: seq<Event>, i: nat, pc: Pc) {
    exists k | 0 <= k < |trace| :: Succeeds(Exec(s, trace[..k]), trace[k], i, pc)
  }

  ghost predicate AnyDid(s: State, trace: seq<Event>, pc: Pc) {
    exists i :: Did(s, trace, i, pc)
  }

  /** What happened in a run has happened in a longer one. */
  lemma Longer(s: State, trace: seq<Event>)
    requires trace != []
    ensures var k := |trace| - 1;
            && (forall code :: Failed(s, trace, code) <==>
                  Failed(s, trace[..k], code) || FailsNow(Exec(s, trace[..k]), trace[k], code))
            && (forall i, code :: Ended(s, trace, i, code) <==>
                  Ended(s, trace[..k], i, code) || EndsNow(Exec(s, trace[..k]), trace[k], i, code))
            && (forall i :: Stored(s, trace, i) <==>
                  Stored(s, trace[..k], i) || StoresNow(Exec(s, trace[..k]), trace[k], i))
            && (forall i, pc :: Did(s, trace, i, pc) <==>
                  Did(s, trace[..k], i, pc) || Succeeds(Exec(s, trace[..k]), trace[k], i, pc))
  {
    hide Exec, FailsNow, EndsNow, StoresNow, Succeeds;
    var k := |trace| - 1;
    assert forall j | 0 <= j < k :: trace[..k][..j] == trace[..j] && trace[..k][j] == trace[j];
  }

  // ---- Failure ----------------------------------------------------------------------------------

  ghost predicate Clean(s: State) {
    s.sh.error == 0 && !SomeFailing(s)
  }

  lemma CleanStep(s: State, e: Event)
    requires Inv(s) && Clean(s) && forall code :: !FailsNow(s, e, code)
    ensures Clean(Step(s, e))
  {
    hide SharedOk, Counted, Ids, Caused, CpuOk, Met, After;
    if e.cpu < |s.cpus| {
      assert CpuOk(s.sh, |s.cpus|, s.cpus[e.cpu]);
      if s.cpus[e.cpu].pc.CheckMax? {
        StartsAtZero(s.sh, |s.cpus|, s.cpus[e.cpu]);
        RoomToEnter(s, e.cpu);
      }
      assert !FailsNow(s, e, e.outcome);
      NeverFails(s.sh, |s.cpus|, s.max, s.cpus[e.cpu], e.outcome);
    }
  }

  lemma StartsAtZero(sh: Shared, n: nat, c: Cpu)
    requires CpuOk(sh, n, c) && c.pc.CheckMax?
    ensures c.got == 0
  {
  }

  lemma NeverFails(sh: Shared, n: nat, max: nat, c: Cpu, outcome: int)
    requires !Failing(c.pc) && sh.error == 0 && (Fallible(c.pc) ==> outcome == 0)
    requires c.pc.CheckMax? ==> sh.entered < max
    ensures !Failing(NextPc(sh, n, max, c, outcome)) && NextShared(sh, c, outcome).error == 0
  {
  }

  /** A run is clean as long as no step of boot has failed, and never again after one has. */
  lemma {:induction false} CleanExactly(n: nat, max: nat, trace: seq<Event>)
    requires n <= max
    ensures AnyFailed(Start(n, max), trace) <==> SomeFailing(Exec(Start(n, max), trace))
    ensures !AnyFailed(Start(n, max), trace) ==> Clean(Exec(Start(n, max), trace))
    decreases |trace|
  {
    var s := Start(n, max);
    if trace != [] {
      hide Inv, Step, SomeFailing, Start, Failed;
      var k := |trace| - 1;
      var t := Exec(s, trace[..k]);
      CleanExactly(n, max, trace[..k]);
      ExecLast(s, trace);
      Longer(s, trace);
      StartInv(n, max);
      ExecInv(s, trace[..k]);
      if SomeFailing(t) { FailingStays(t, trace[k]); }
      if code :| FailsNow(t, trace[k], code) {
        FailureShows(t, trace[k], code);
        assert Failed(s, trace, code);
      } else if AnyFailed(s, trace[..k]) {
        var code :| Failed(s, trace[..k], code);
        assert Failed(s, trace, code);
      } else {
        CleanStep(t, trace[k]);
      }
    }
  }

  lemma FailingStays(s: State, e: Event)
    requires SomeFailing(s)
    ensures SomeFailing(Step(s, e))
  {
    var i :| 0 <= i < |s.cpus| && Failing(s.cpus[i].pc);
    assert Failing(Step(s, e).cpus[i].pc);
  }

  lemma FailureShows(s: State, e: Event, code: int)
    requires FailsNow(s, e, code)
    ensures SomeFailing(Step(s, e))
  {
    assert Failing(Step(s, e).cpus[e.cpu].pc);
  }

  /** If a step of boot fails, at any time, no CPU activates at any time of that run. */
  lemma FailureStopsAll(n: nat, max: nat, trace: seq<Event>, k: nat)
    requires n <= max && AnyFailed(Start(n, max), trace) && k <= |trace|
    ensures !Activating(Exec(Start(n, max), trace[..k]))
  {
    hide Inv, AnyFailed, Activating, SomeFailing;
    CleanExactly(n, max, trace);
    assert trace == trace[..k] + trace[k..];
    ExecConcat(Start(n, max), trace[..k], trace[k..]);
    AllOrNothing(n, max, trace[..k], trace[k..]);
  }

  // ---- Error numbers ------------------------------------------------------------------------------

  /** The error number stored last, by whatever CPU; 0 if none. */
  ghost function LastStored(s: State, trace: seq<Event>): int
    decreases |trace|
  {
    if trace == [] then 0
    else
      var k := |trace| - 1;
      var t, e := Exec(s, trace[..k]), trace[k];
      if e.cpu < |t.cpus| && t.cpus[e.cpu].pc.StoreError? then t.cpus[e.cpu].pc.code else LastStored(s, trace[..k])
  }

  /** At some moment after its own store, `code` was the number stored last. */
  ghost predicate Reported(s: State, trace: seq<Event>, i: nat, code: int) {
    exists k | 0 <= k <= |trace| :: Stored(s, trace[..k], i) && LastStored(s, trace[..k]) == code
  }

  /** Where the error numbers of state `t`, reached by `trace`, come from. */
  ghost predicate Sourced(s: State, trace: seq<Event>, t: State) {
    && |t.cpus| == |s.cpus| && t.sh.error == LastStored(s, trace)
    && (t.sh.error != 0 ==> AnyEnded(s, trace, t.sh.error))
    && forall i | 0 <= i < |t.cpus| :: SourcedCpu(s, trace, i, t.cpus[i].pc)
  }

  ghost predicate SourcedCpu(s: State, trace: seq<Event>, i: nat, pc: Pc) {
    && (pc.StoreError? ==> Ended(s, trace, i, pc.code))
    && (pc.LoadError? ==> Stored(s, trace, i))
    && (pc.Returned? ==> Reported(s, trace, i, pc.code) && AnyEnded(s, trace, pc.code))
  }

  lemma SourcedStays(s: State, trace: seq<Event>, i: nat, pc: Pc)
    requires trace != [] && SourcedCpu(s, trace[..|trace| - 1], i, pc)
    ensures SourcedCpu(s, trace, i, pc)
  {
    hide Exec, Ended, Stored, LastStored;
    Longer(s, trace);
    var k := |trace| - 1;
    assert forall j | 0 <= j <= k :: trace[..k][..j] == trace[..j];
  }

  /** One step of one CPU: where its new place gets its error number from. */
  lemma NewCode(t: State, e: Event)
    requires e.cpu < |t.cpus| && (t.cpus[e.cpu].pc.CheckMax? ==> t.sh.entered < t.max)
    ensures var c, pc' := t.cpus[e.cpu], Step(t, e).cpus[e.cpu].pc;
            && (pc'.StoreError? ==> EndsNow(t, e, e.cpu, pc'.code))
            && (pc'.LoadError? ==> StoresNow(t, e, e.cpu))
            && (pc'.Returned? ==> c.pc == pc' || (c.pc.LoadError? && pc'.code == t.sh.error))
  {
    hide Met;
  }

  lemma SourcedMover(s: State, trace: seq<Event>, t: State)
    requires trace != [] && t == Exec(s, trace[..|trace| - 1]) && Sourced(s, trace[..|trace| - 1], t) && Inv(t)
    requires trace[|trace| - 1].cpu < |t.cpus|
    ensures var e := trace[|trace| - 1]; SourcedCpu(s, trace, e.cpu, Step(t, e).cpus[e.cpu].pc)
  {
    hide Exec, Ended, Stored, LastStored, Step, EndsNow, StoresNow, SharedOk, Counted, Ids, Caused, CpuOk;
    var k := |trace| - 1;
    var e := trace[k];
    var c := t.cpus[e.cpu];
    assert CpuOk(t.sh, |t.cpus|, c);
    if c.pc.CheckMax? {
      StartsAtZero(t.sh, |t.cpus|, c);
      RoomToEnter(t, e.cpu);
    }
    NewCode(t, e);
    SourcedStays(s, trace, e.cpu, c.pc);
    Longer(s, trace);
    if c.pc.LoadError? {
      LoadedNonZero(t.sh, |t.cpus|, c);
      assert Stored(s, trace[..k], e.cpu) && LastStored(s, trace[..k]) == t.sh.error;
    }
  }

  lemma LoadedNonZero(sh: Shared, n: nat, c: Cpu)
    requires CpuOk(sh, n, c) && c.pc.LoadError?
    ensures sh.error != 0
  {
  }

  lemma SourcedStep(s: State, trace: seq<Event>, t: State)
    requires trace != [] && t == Exec(s, trace[..|trace| - 1]) && Sourced(s, trace[..|trace| - 1], t) && Inv(t)
    ensures Sourced(s, trace, Step(t, trace[|trace| - 1]))
  {
    hide Exec, Inv, Ended, SourcedCpu, EndsNow, StoresNow, NextPc;
    var e := trace[|trace| - 1];
    Longer(s, trace);
    forall i | 0 <= i < |t.cpus| ensures SourcedCpu(s, trace, i, Step(t, e).cpus[i].pc) {
      if i == e.cpu { SourcedMover(s, trace, t); } else { SourcedStays(s, trace, i, t.cpus[i].pc); }
    }
    if e.cpu < |t.cpus| && t.cpus[e.cpu].pc.StoreError? {
      EndedCode(s, trace[..|trace| - 1], e.cpu, t.cpus[e.cpu].pc);
    }
  }

  lemma EndedCode(s: State, trace: seq<Event>, i: nat, pc: Pc)
    requires SourcedCpu(s, trace, i, pc) && pc.StoreError?
    ensures Ended(s, trace, i, pc.code)
  {
  }

  lemma {:induction false} RunSourced(n: nat, max: nat, trace: seq<Event>)
    requires n <= max
    ensures Sourced(Start(n, max), trace, Exec(Start(n, max), trace))
    decreases |trace|
  {
    if trace != [] {
      hide Sourced, Start, Step, Inv;
      var k := |trace| - 1;
      RunSourced(n, max, trace[..k]);
      StartInv(n, max);
      ExecInv(Start(n, max), trace[..k]);
      SourcedStep(Start(n, max), trace, Exec(Start(n, max), trace[..k]));
      ExecLast(Start(n, max), trace);
    }
  }

  /** A CPU returns what was stored last at some moment after its own store, and that is an
      error number with which the `main` of some CPU really ended. */
  lemma CodesAreReal(n: nat, max: nat, trace: seq<Event>, i: nat)
    requires n <= max && i < n && Exec(Start(n, max), trace).cpus[i].pc.Returned?
    ensures var code := Exec(Start(n, max), trace).cpus[i].pc.code;
            && code != 0
            && Reported(Start(n, max), trace, i, code)
            && AnyEnded(Start(n, max), trace, code)
            && (Failed(Start(n, max), trace, code) || code == EBUSY)
  {
    hide Reported, Ended, Exec;
    RunSourced(n, max, trace);
    ReturnsNonZero(n, max, trace, i);
    var code := Exec(Start(n, max), trace).cpus[i].pc.code;
    var j :| Ended(Start(n, max), trace, j, code);
    EndedOrBusy(Start(n, max), trace, j, code);
  }

  lemma EndedOrBusy(s: State, trace: seq<Event>, i: nat, code: int)
    requires Ended(s, trace, i, code)
    ensures Failed(s, trace, code) || code == EBUSY
  {
    hide Exec, FailsNow;
    var k :| 0 <= k < |trace| && EndsNow(Exec(s, trace[..k]), trace[k], i, code);
  }

  // ---- Nothing is skipped ---------------------------------------------------------------------------

  predicate PastInit(pc: Pc) {
    || pc.CountInited? || (pc.Wait? && (pc.barrier == AllInited || pc.barrier == LateDone))
    || pc.StoreLate? || pc.Activate? || pc.Running?
  }

  predicate PastCheck(pc: Pc) {
    pc.MakeTable? || pc.MakeCell? || pc.StoreEarly?
  }

  /** What has been done shows in the trace. */
  ghost predicate Shown(s: State, trace: seq<Event>, t: State) {
    && |t.cpus| == |s.cpus|
    && (t.sh.table ==> AnyDid(s, trace, CheckConfig) && AnyDid(s, trace, MakeTable))
    && (t.sh.cell ==> AnyDid(s, trace, MakeCell))
    && forall i | 0 <= i < |t.cpus| ::
         && (PastCheck(t.cpus[i].pc) ==> AnyDid(s, trace, CheckConfig))
         && (PastInit(t.cpus[i].pc) ==> Did(s, trace, i, Init))
  }

  lemma ShownStep(s: State, trace: seq<Event>, t: State)
    requires trace != [] && Shown(s, trace[..|trace| - 1], t) && t == Exec(s, trace[..|trace| - 1])
    ensures Shown(s, trace, Step(t, trace[|trace| - 1]))
  {
    hide Exec, Did, AnyDid, Met, NextPc, NextShared, PastInit, PastCheck;
    var e := trace[|trace| - 1];
    DidStays(s, trace);
    if e.cpu < |t.cpus| {
      var c := t.cpus[e.cpu];
      if e.outcome == 0 { DidNow(s, trace, t); }
      Progressed(t.sh, |t.cpus|, t.max, c, e.outcome);
    }
  }

  lemma DidStays(s: State, trace: seq<Event>)
    requires trace != []
    ensures forall i, pc | Did(s, trace[..|trace| - 1], i, pc) :: Did(s, trace, i, pc)
    ensures forall pc | AnyDid(s, trace[..|trace| - 1], pc) :: AnyDid(s, trace, pc)
  {
    hide Exec, Did, Succeeds;
    Longer(s, trace);
  }

  lemma DidNow(s: State, trace: seq<Event>, t: State)
    requires trace != [] && t == Exec(s, trace[..|trace| - 1])
    requires trace[|trace| - 1].cpu < |t.cpus| && trace[|trace| - 1].outcome == 0
    ensures var e := trace[|trace| - 1]; Did(s, trace, e.cpu, t.cpus[e.cpu].pc) && AnyDid(s, trace, t.cpus[e.cpu].pc)
  {
    hide Exec;
    var k := |trace| - 1;
    assert Succeeds(Exec(s, trace[..k]), trace[k], trace[k].cpu, t.cpus[trace[k].cpu].pc);
  }

  /** What a CPU has behind it after a step it had before, or has just done. */
  lemma Progressed(sh: Shared, n: nat, max: nat, c: Cpu, outcome: int)
    ensures var pc', sh' := NextPc(sh, n, max, c, outcome), NextShared(sh, c, outcome);
            && (PastInit(pc') ==> PastInit(c.pc) || (c.pc == Init && outcome == 0))
            && (PastCheck(pc') ==> PastCheck(c.pc) || (c.pc == CheckConfig && outcome == 0))
            && (sh'.table ==> sh.table || (c.pc == MakeTable && outcome == 0))
            && (sh'.cell ==> sh.cell || (c.pc == MakeCell && outcome == 0))
    ensures c.pc == MakeTable ==> PastCheck(c.pc)
  {
    hide Met;
  }

  lemma {:induction false} WorkShown(n: nat, max: nat, trace: seq<Event>)
    ensures Shown(Start(n, max), trace, Exec(Start(n, max), trace))
    decreases |trace|
  {
    if trace != [] {
      hide Shown, Start, Step;
      var k := |trace| - 1;
      WorkShown(n, max, trace[..k]);
      ShownStep(Start(n, max), trace, Exec(Start(n, max), trace[..k]));
      ExecLast(Start(n, max), trace);
    }
  }

  lemma PastInitReady(sh: Shared, n: nat, c: Cpu)
    requires CpuOk(sh, n, c) && SharedOk(sh)
    ensures c.pc.Init? || PastInit(c.pc) ==> sh.table && sh.cell
    ensures c.got >= 2 && !Failing(c.pc) ==> PastInit(c.pc)
  {
  }

  /** No step is skipped: a CPU gets to `PerCpu::init` only after the configuration was found
      good and table and root cell were made, past it only by its own success, and to
      activation only after every CPU's. */
  lemma NothingSkipped(n: nat, max: nat, trace: seq<Event>, i: nat)
    requires n <= max && i < n
    ensures var s := Start(n, max);
            var pc := Exec(s, trace).cpus[i].pc;
            && (pc.Init? || PastInit(pc) ==>
                  AnyDid(s, trace, CheckConfig) && AnyDid(s, trace, MakeTable) && AnyDid(s, trace, MakeCell))
            && (PastInit(pc) ==> Did(s, trace, i, Init))
            && (pc.Activate? || pc.Running? ==> forall j: nat | j < n :: Did(s, trace, j, Init))
  {
    hide Did, AnyDid, Exec, Failing;
    var s := Start(n, max);
    var t := Exec(s, trace);
    WorkShown(n, max, trace);
    StartInv(n, max);
    ExecInv(s, trace);
    PastInitReady(t.sh, n, t.cpus[i]);
    if t.cpus[i].pc.Activate? || t.cpus[i].pc.Running? {
      ActivatingNoFailure(t);
      forall j: nat | j < n ensures Did(s, trace, j, Init) {
        PastInitReady(t.sh, n, t.cpus[j]);
      }
    }
  }

  // ---- Too many CPUs --------------------------------------------------------------------------------

  /** With all slots taken, a CPU that has not looked yet only ever finds EINVAL. */
  lemma {:induction false} FullTurnsAway(s: State, trace: seq<Event>, i: nat)
    requires i < |s.cpus| && s.sh.entered >= s.max && s.cpus[i].pc in {CheckMax, Returned(EINVAL)}
    ensures Exec(s, trace).cpus[i].pc in {CheckMax, Returned(EINVAL)} && Exec(s, trace).cpus[i].got == s.cpus[i].got
    decreases |trace|
  {
    if trace != [] { FullTurnsAway(Step(s, trace[0]), trace[1..], i); }
  }

  // ---- Progress -------------------------------------------------------------------------------

  predicate Finished(pc: Pc) {
    pc.Running? || pc.Returned?
  }

  /** How far a CPU is from finishing; turning once in a spin loop changes nothing. */
  function Rank(pc: Pc): nat {
    match pc
    case CheckMax => 17
    case Enter => 16
    case Wait(AllEntered, p) => if p == LastError then 14 else 15
    case CheckConfig => 13
    case MakeTable => 12
    case MakeCell => 11
    case StoreEarly => 10
    case Wait(EarlyDone, p) => if p == LastError then 10 else 11
    case Init => 9
    case CountInited => 8
    case Wait(AllInited, p) => if p == LastError then 6 else 7
    case StoreLate => 4
    case Wait(LateDone, p) => if p == LastError then 4 else 5
    case Activate => 3
    case StoreError(_) => 2
    case LoadError => 1
    case Running => 0
    case Returned(_) => 0
  }

  function Measure(cpus: seq<Cpu>): nat {
    if cpus == [] then 0 else Rank(cpus[0].pc) + Measure(cpus[1..])
  }

  lemma {:induction false} MeasureUpdate(cpus: seq<Cpu>, i: nat, c: Cpu)
    requires i < |cpus|
    ensures Measure(cpus[i := c]) == Measure(cpus) - Rank(cpus[i].pc) + Rank(c.pc)
    decreases |cpus|
  {
    hide Rank;
    if i > 0 {
      MeasureUpdate(cpus[1..], i - 1, c);
      assert cpus[i := c][1..] == cpus[1..][i - 1 := c];
    } else {
      assert cpus[i := c][1..] == cpus[1..];
    }
  }

  /** Not stuck in a spin loop: its next two steps take it further, whatever the others do. */
  predicate Unblocked(sh: Shared, n: nat, pc: Pc) {
    !Finished(pc) && (pc.Wait? && pc.phase != LastError ==> sh.error != 0 || Met(sh, n, pc.barrier))
  }

  /** How many steps it needs for that. */
  function Need(sh: Shared, n: nat, pc: Pc): nat {
    if pc.Wait? && pc.phase == LoopError && sh.error == 0 then 2
    else if pc.Wait? && pc.phase == LoopCondition && !Met(sh, n, pc.barrier) then 2
    else 1
  }

  lemma StepRank(sh: Shared, n: nat, max: nat, c: Cpu, outcome: int)
    ensures var pc' := NextPc(sh, n, max, c, outcome);
            && Rank(pc') <= Rank(c.pc)
            && (Unblocked(sh, n, c.pc) && Rank(pc') == Rank(c.pc) ==>
                  Unblocked(sh, n, pc') && Need(sh, n, pc') < Need(sh, n, c.pc))
  {
  }

  lemma StepMeasure(s: State, e: Event)
    requires e.cpu < |s.cpus|
    ensures var c := s.cpus[e.cpu];
            Measure(Step(s, e).cpus) == Measure(s.cpus) - Rank(c.pc) + Rank(NextPc(s.sh, |s.cpus|, s.max, c, e.outcome))
    ensures Measure(Step(s, e).cpus) <= Measure(s.cpus)
  {
    hide Measure, NextPc, Rank;
    var c := s.cpus[e.cpu];
    MeasureUpdate(s.cpus, e.cpu, NextCpu(s.sh, |s.cpus|, s.max, c, e.outcome));
    StepRank(s.sh, |s.cpus|, s.max, c, e.outcome);
  }

  lemma {:induction false} MeasureNeverGrows(s: State, trace: seq<Event>)
    ensures Measure(Exec(s, trace).cpus) <= Measure(s.cpus)
    decreases |trace|
  {
    if trace != [] {
      hide Measure;
      if trace[0].cpu < |s.cpus| { StepMeasure(s, trace[0]); }
      MeasureNeverGrows(Step(s, trace[0]), trace[1..]);
    }
  }

  /** How often a CPU moves in a trace. */
  function Moves(trace: seq<Event>, i: nat): nat {
    if trace == [] then 0 else Moves(trace[1..], i) + if trace[0].cpu == i then 1 else 0
  }

  lemma UnblockedGrows(sh: Shared, sh': Shared, n: nat, pc: Pc)
    requires Grows(sh, sh') && Unblocked(sh, n, pc)
    ensures Unblocked(sh', n, pc) && Need(sh', n, pc) <= Need(sh, n, pc)
  {
  }

  /** A CPU that is not blocked brings the measure down as soon as it has moved enough. */
  lemma {:induction false} UnblockedLowers(s: State, trace: seq<Event>, i: nat)
    requires Inv(s) && i < |s.cpus| && Unblocked(s.sh, |s.cpus|, s.cpus[i].pc)
    requires Moves(trace, i) >= Need(s.sh, |s.cpus|, s.cpus[i].pc)
    ensures Measure(Exec(s, trace).cpus) < Measure(s.cpus)
    decreases |trace|
  {
    var e, n := trace[0], |s.cpus|;
    if e.cpu >= n {
      UnblockedLowers(s, trace[1..], i);
    } else {
      var s', c := Step(s, e), s.cpus[e.cpu];
      StepInv(s, e);
      StepMeasure(s, e);
      MeasureNeverGrows(s', trace[1..]);
      assert CpuOk(s.sh, n, c);
      StepGrows(s.sh, n, c, e.outcome);
      StepRank(s.sh, n, s.max, c, e.outcome);
      hide Inv, Measure, Rank, NextPc, CpuOk, NextShared, Need, Unblocked, Grows;
      if Measure(s'.cpus) == Measure(s.cpus) {
        UnblockedGrows(s.sh, s'.sh, n, s'.cpus[i].pc);
        UnblockedLowers(s', trace[1..], i);
      }
    }
  }

  lemma NotInitedMoves(sh: Shared, n: nat, c: Cpu)
    requires CpuOk(sh, n, c) && sh.error == 0 && c.got < 2 && (c.got == 1 ==> sh.entered >= n && sh.early >= 1)
    ensures Unblocked(sh, n, c.pc)
  {
    hide PassedOk;
  }

  lemma PrimaryMoves(sh: Shared, n: nat, c: Cpu)
    requires CpuOk(sh, n, c) && sh.error == 0 && sh.entered >= n && c.id == 0 && c.got >= 1
    ensures Unblocked(sh, n, c.pc) || sh.early >= 1
    ensures Unblocked(sh, n, c.pc) || sh.inited < n || sh.late >= 1
  {
  }

  lemma EveryBarrierMet(sh: Shared, n: nat, pc: Pc)
    requires sh.entered >= n && sh.early >= 1 && sh.inited >= n && sh.late >= 1 && !Finished(pc)
    ensures Unblocked(sh, n, pc)
  {
  }

  /** While any CPU is unfinished, some CPU is not blocked. */
  lemma SomeUnblocked(s: State, u: nat) returns (i: nat)
    requires Inv(s) && u < |s.cpus| && !Finished(s.cpus[u].pc)
    ensures i < |s.cpus| && Unblocked(s.sh, |s.cpus|, s.cpus[i].pc)
  {
    hide CpuOk, SharedOk, Caused, Count;
    var n := |s.cpus|;
    CountAll(s.cpus, 1);
    CountAll(s.cpus, 2);
    if s.sh.error != 0 {
      i := u;
    } else if j :| 0 <= j < n && s.cpus[j].got == 0 {
      NotInitedMoves(s.sh, n, s.cpus[j]);
      i := j;
    } else {
      var p :| 0 <= p < n && s.cpus[p].got >= 1 && s.cpus[p].id == 0;
      hide Unblocked, Finished;
      PrimaryMoves(s.sh, n, s.cpus[p]);
      if Unblocked(s.sh, n, s.cpus[p].pc) {
        i := p;
      } else if j :| 0 <= j < n && s.cpus[j].got == 1 {
        NotInitedMoves(s.sh, n, s.cpus[j]);
        i := j;
      } else {
        EveryBarrierMet(s.sh, n, s.cpus[u].pc);
        i := u;
      }
    }
  }

  ghost predicate AllFinished(s: State) {
    forall i | 0 <= i < |s.cpus| :: Finished(s.cpus[i].pc)
  }

  /** A stretch of a run in which every CPU moves at least twice. */
  ghost predicate Round(n: nat, trace: seq<Event>) {
    forall i: nat | i < n :: Moves(trace, i) >= 2
  }

  /** Progress: such a stretch brings the measure down, unless all have finished. */
  lemma RoundLowers(s: State, trace: seq<Event>)
    requires Inv(s) && Round(|s.cpus|, trace) && !AllFinished(s)
    ensures Measure(Exec(s, trace).cpus) < Measure(s.cpus)
  {
    hide Inv, Finished, Unblocked, Measure, Exec;
    var u :| 0 <= u < |s.cpus| && !Finished(s.cpus[u].pc);
    var i := SomeUnblocked(s, u);
    UnblockedLowers(s, trace, i);
  }

  function Run(s: State, rounds: seq<seq<Event>>): (s': State)
    ensures |s'.cpus| == |s.cpus| && s'.max == s.max
    decreases |rounds|
  {
    if rounds == [] then s else Run(Exec(s, rounds[0]), rounds[1..])
  }

  lemma {:induction false} FinishedStays(s: State, trace: seq<Event>)
    requires AllFinished(s)
    ensures AllFinished(Exec(s, trace))
    decreases |trace|
  {
    if trace != [] { FinishedStays(Step(s, trace[0]), trace[1..]); }
  }

  lemma {:induction false} RunFinishes(s: State, rounds: seq<seq<Event>>)
    requires Inv(s) && (forall r | r in rounds :: Round(|s.cpus|, r)) && (AllFinished(s) || |rounds| >= Measure(s.cpus))
    ensures Inv(Run(s, rounds)) && AllFinished(Run(s, rounds))
    decreases |rounds|
  {
    hide Inv, AllFinished, Measure, Exec, Round;
    if rounds == [] {
      if !AllFinished(s) { UnfinishedMeasure(s); }
    } else {
      ExecInv(s, rounds[0]);
      if AllFinished(s) { FinishedStays(s, rounds[0]); } else { RoundLowers(s, rounds[0]); }
      RunFinishes(Exec(s, rounds[0]), rounds[1..]);
    }
  }

  lemma {:induction false} MeasureAt(cpus: seq<Cpu>, i: nat)
    requires i < |cpus|
    ensures Measure(cpus) >= Rank(cpus[i].pc)
    decreases |cpus|
  {
    hide Rank;
    if i > 0 { MeasureAt(cpus[1..], i - 1); }
  }

  lemma UnfinishedMeasure(s: State)
    requires !AllFinished(s)
    ensures Measure(s.cpus) > 0
  {
    var i :| 0 <= i < |s.cpus| && !Finished(s.cpus[i].pc);
    MeasureAt(s.cpus, i);
  }

  lemma {:induction false} StartMeasure(cpus: seq<Cpu>)
    requires forall i | 0 <= i < |cpus| :: cpus[i].pc == CheckMax
    ensures Measure(cpus) == 17 * |cpus|
    decreases |cpus|
  {
    if cpus != [] { StartMeasure(cpus[1..]); }
  }

  /** All CPUs run their guests. */
  ghost predicate AllRunning(s: State) {
    s.sh.activated == |s.cpus| && s.sh.error == 0 && forall i | 0 <= i < |s.cpus| :: s.cpus[i].pc.Running?
  }

  /** All have returned to Linux with an error. */
  ghost predicate AllReturned(s: State) {
    s.sh.activated == 0 && forall i | 0 <= i < |s.cpus| :: s.cpus[i].pc.Returned? && s.cpus[i].pc.code != 0
  }

  lemma FinishedSettled(s: State)
    requires Inv(s) && AllFinished(s)
    ensures AllRunning(s) || (AllReturned(s) && SomeFailing(s))
  {
    CountAll(s.cpus, 3);
    assert forall i | 0 <= i < |s.cpus| :: CpuOk(s.sh, |s.cpus|, s.cpus[i]);
    if i :| 0 <= i < |s.cpus| && s.cpus[i].pc.Running? {
      ActivatingNoFailure(s);
    } else {
      CountNone(s.cpus, 3);
    }
  }

  function Flat(rounds: seq<seq<Event>>): seq<Event> {
    if rounds == [] then [] else rounds[0] + Flat(rounds[1..])
  }

  lemma {:induction false} RunIsExec(s: State, rounds: seq<seq<Event>>)
    ensures Run(s, rounds) == Exec(s, Flat(rounds))
    decreases |rounds|
  {
    hide Exec;
    if rounds == [] {
      assert Exec(s, []) == s by { ExecNothing(s); }
    } else {
      RunIsExec(Exec(s, rounds[0]), rounds[1..]);
      ExecConcat(s, rounds[0], Flat(rounds[1..]));
    }
  }

  lemma ExecNothing(s: State)
    ensures Exec(s, []) == s
  {
  }

  /** Boot ends: however the CPUs interleave, a run of `17 n` rounds in which every CPU gets to
      move ends with all CPUs activated if no step of boot failed, and with all returned if one
      did, each with an error number that is real. */
  lemma BootEnds(n: nat, max: nat, rounds: seq<seq<Event>>)
    requires n <= max && (forall r | r in rounds :: Round(n, r)) && |rounds| >= 17 * n
    ensures var s, trace := Start(n, max), Flat(rounds);
            var t := Exec(s, trace);
            if AnyFailed(s, trace) then
              && AllReturned(t)
              && forall i | 0 <= i < n :: Failed(s, trace, t.cpus[i].pc.code) || t.cpus[i].pc.code == EBUSY
            else AllRunning(t)
  {
    hide Inv, AllFinished, Measure, Round, AnyFailed, Failed, Exec, SomeFailing, AnyEnded, Reported;
    var s, trace := Start(n, max), Flat(rounds);
    var t := Exec(s, trace);
    StartInv(n, max);
    StartMeasure(s.cpus);
    RunFinishes(s, rounds);
    RunIsExec(s, rounds);
    FinishedSettled(t);
    CleanExactly(n, max, trace);
    if AnyFailed(s, trace) {
      NotRunningToo(t);
      forall i | 0 <= i < n ensures Failed(s, trace, t.cpus[i].pc.code) || t.cpus[i].pc.code == EBUSY {
        CodesAreReal(n, max, trace, i);
      }
    }
  }

  lemma NotRunningToo(s: State)
    requires SomeFailing(s)
    ensures !AllRunning(s)
  {
  }
}
