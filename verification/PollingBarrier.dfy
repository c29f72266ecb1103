/** The strict polling barrier: the coordinator and the polled CPUs meet through three shared
    counters (ready, start, done), round after round, every load and store its own step. */
module PollingBarrier {
  import opened SetFacts

  /** HRP_POLL_POLLER_CORE, the CPU selection and the poller's CPU. */
  datatype Config = Config(selected: set<int>, poller: int, pollPoller: bool)

  /** CPUs that run the polling function by interrupt: a cross-call never reaches its caller. */
  function Remote(cfg: Config): set<int> {
    cfg.selected - {cfg.poller}
  }

  /** CPUs that run the polling function at all. */
  function Polled(cfg: Config): set<int> {
    Remote(cfg) + if cfg.pollPoller then {cfg.poller} else {}
  }

  /** N_POLLING_CPUS as the module computes it at start. */
  function PollingCount(cfg: Config): nat {
    if !cfg.pollPoller && cfg.poller in cfg.selected then |cfg.selected| - 1 else |cfg.selected|
  }

  /** The count is right unless the poller polls itself without being selected. */
  lemma CountMatches(cfg: Config)
    ensures PollingCount(cfg) == |Polled(cfg)| <==> (cfg.pollPoller ==> cfg.poller in cfg.selected)
    ensures PollingCount(cfg) <= |Polled(cfg)| <= PollingCount(cfg) + 1
  {
    if cfg.poller in cfg.selected {
      assert cfg.selected == Remote(cfg) + {cfg.poller};
    } else {
      assert cfg.selected == Remote(cfg);
    }
  }

  // ---------------------------------------------------------------- steps

  /** How far a CPU is in the current round. */
  datatype Phase = Quiet | Called | Ready | Released | Loaded(kts: int) | Sampled | Done

  datatype Coordinator =
    | Between | ResetReady | ResetStart | ResetDone | Call | JoinIn | AwaitReady | Release | PollSelf | AwaitDone

  datatype Sample = Sample(round: nat, cpu: int, kts: int)

  /** `stamps` records the timestamp of every round begun; `enqueuing` are the CPUs that have
      counted themselves done but not yet left the handler. */
  datatype State = State(
    coordinator: Coordinator, ready: nat, start: bool, done: nat, kts: int,
    phase: map<int, Phase>, enqueuing: set<int>, stamps: seq<int>, samples: seq<Sample>)

  datatype Action = Begin(kts: int) | Coordinate | Cpu(cpu: int) | Leave(cpu: int)

  function Init(cfg: Config): State {
    State(Between, 0, false, 0, 0, map c | c in Polled(cfg) :: Quiet, {}, [], [])
  }

  function AllIn(cfg: Config, p: Phase): map<int, Phase> {
    map c | c in Polled(cfg) :: p
  }

  function CoordinatorStep(cfg: Config, s: State): State {
    match s.coordinator
    case Between => s
    case ResetReady => s.(ready := 0, coordinator := ResetStart)
    case ResetStart => s.(start := false, coordinator := ResetDone)
    case ResetDone => s.(done := 0, coordinator := Call)
    case Call => s.(phase := AllIn(cfg, Called), coordinator := if cfg.pollPoller then JoinIn else AwaitReady)
    case JoinIn => s.(ready := s.ready + 1, phase := s.phase[cfg.poller := Ready], coordinator := AwaitReady)
    case AwaitReady => if s.ready < PollingCount(cfg) then s else s.(coordinator := Release)
    case Release => s.(start := true, coordinator := if cfg.pollPoller then PollSelf else AwaitDone)
    case PollSelf =>
      if cfg.poller in s.phase && s.phase[cfg.poller].Done? then s.(coordinator := AwaitDone) else s
    case AwaitDone => if s.done < PollingCount(cfg) then s else s.(coordinator := Between)
  }

  /** One step of the polling function on a CPU. The poller's own run happens inside the
      coordinator, between the release and the wait for the others; it counts itself ready again. */
  function CpuStep(cfg: Config, s: State, c: int): State
    requires c in s.phase
  {
    var own := cfg.pollPoller && c == cfg.poller;
    if own && !s.coordinator.PollSelf? then s
    else
      match s.phase[c]
      case Quiet => s
      case Called => if own || c in s.enqueuing then s else s.(ready := s.ready + 1, phase := s.phase[c := Ready])
      case Ready =>
        if !s.start then s
        else s.(ready := if own then s.ready + 1 else s.ready, phase := s.phase[c := Released])
      case Released => s.(phase := s.phase[c := Loaded(s.kts)])
      case Loaded(kts) => s.(phase := s.phase[c := Sampled], samples := s.samples + [Sample(|s.stamps|, c, kts)])
      case Sampled => s.(done := s.done + 1, phase := s.phase[c := Done], enqueuing := s.enqueuing + {c})
      case Done => s
  }

  function Step(cfg: Config, s: State, a: Action): State {
    match a
    case Begin(kts) =>
      if s.coordinator.Between? then
        s.(kts := kts, stamps := s.stamps + [kts], phase := AllIn(cfg, Quiet), coordinator := ResetReady)
      else s
    case Coordinate => CoordinatorStep(cfg, s)
    case Cpu(c) => if c in s.phase then CpuStep(cfg, s, c) else s
    case Leave(c) => s.(enqueuing := s.enqueuing - {c})
  }

  function Run(cfg: Config, s: State, actions: seq<Action>): State
    decreases actions
  {
    if actions == [] then s else Run(cfg, Step(cfg, s, actions[0]), actions[1..])
  }

  /** This step reads the counters of CPU c. */
  predicate Samples(cfg: Config, s: State, a: Action) {
    a.Cpu? && a.cpu in s.phase && s.phase[a.cpu].Loaded? && Step(cfg, s, a).samples != s.samples
  }

  // ------------------------------------------------------------- invariant

  function Rank(p: Phase): nat {
    match p
    case Quiet => 0 case Called => 1 case Ready => 2 case Released => 3
    case Loaded(_) => 4 case Sampled => 5 case Done => 6
  }

  /** The CPUs that have come at least this far in the round. */
  function Reached(phase: map<int, Phase>, rank: nat): set<int> {
    set c | c in phase && Rank(phase[c]) >= rank
  }

  function Count(samples: seq<Sample>, round: nat, cpu: int): nat {
    if samples == [] then 0
    else Count(samples[..|samples| - 1], round, cpu)
         + (var last := samples[|samples| - 1]; if last.round == round && last.cpu == cpu then 1 else 0)
  }

  /** What holds of counters and phases at each point of the coordinator. */
  ghost predicate RoundOk(cfg: Config, s: State)
    requires s.phase.Keys == Polled(cfg)
  {
    match s.coordinator
    case Between => s.stamps != [] ==> Reached(s.phase, 6) == Polled(cfg)
    case ResetReady => Reached(s.phase, 1) == {}
    case ResetStart => Reached(s.phase, 1) == {} && s.ready == 0
    case ResetDone => Reached(s.phase, 1) == {} && s.ready == 0 && !s.start
    case Call => Reached(s.phase, 1) == {} && s.ready == 0 && !s.start && s.done == 0
    case JoinIn =>
      cfg.pollPoller && Gathering(s) && Rank(s.phase[cfg.poller]) == 1
    case AwaitReady => Gathering(s)
    case Release => Gathering(s) && Reached(s.phase, 2) == Polled(cfg)
    case PollSelf => cfg.pollPoller && Polling(cfg, s)
    case AwaitDone => Polling(cfg, s)
  }

  ghost predicate Gathering(s: State) {
    !s.start && s.done == 0 && Reached(s.phase, 3) == {} && s.ready == |Reached(s.phase, 2)|
  }

  ghost predicate Polling(cfg: Config, s: State) {
    s.start && Reached(s.phase, 2) == Polled(cfg) && s.done == |Reached(s.phase, 6)|
  }

  ghost predicate SamplesOk(cfg: Config, s: State) {
    && (forall i :: 0 <= i < |s.samples| ==>
          && 1 <= s.samples[i].round <= |s.stamps|
          && s.samples[i].cpu in Polled(cfg)
          && s.samples[i].kts == s.stamps[s.samples[i].round - 1])
    && (forall r, c :: 1 <= r <= |s.stamps| && c in Polled(cfg) ==>
          Count(s.samples, r, c) == if r < |s.stamps| || c in Reached(s.phase, 5) then 1 else 0)
  }

  ghost predicate Inv(cfg: Config, s: State) {
    && s.phase.Keys == Polled(cfg)
    && RoundOk(cfg, s)
    && SamplesOk(cfg, s)
    && (s.stamps == [] ==> s.coordinator.Between? && Reached(s.phase, 1) == {})
    && (s.stamps != [] ==> s.kts == s.stamps[|s.stamps| - 1])
    && (forall c :: c in s.phase && s.phase[c].Loaded? ==> s.phase[c].kts == s.kts)
  }

  lemma CountSnoc(samples: seq<Sample>, x: Sample, round: nat, cpu: int)
    ensures Count(samples + [x], round, cpu)
            == Count(samples, round, cpu) + if x.round == round && x.cpu == cpu then 1 else 0
  {
    assert (samples + [x])[..|samples|] == samples;
  }

  /** One CPU's phase moves from rank k - 1 to rank k: only that set grows. */
  lemma ReachedUpdate(phase: map<int, Phase>, c: int, p: Phase, k: nat)
    requires c in phase && 0 < k == Rank(p) == Rank(phase[c]) + 1
    ensures Reached(phase[c := p], k) == Reached(phase, k) + {c} && c !in Reached(phase, k)
    ensures forall r: nat :: r != k ==> Reached(phase[c := p], r) == Reached(phase, r)
    ensures phase[c := p].Keys == phase.Keys
  {
  }

  lemma AllInReached(cfg: Config, p: Phase, r: nat)
    ensures AllIn(cfg, p).Keys == Polled(cfg)
    ensures Reached(AllIn(cfg, p), r) == if Rank(p) >= r then Polled(cfg) else {}
  {
  }

  lemma BeginInv(cfg: Config, s: State, kts: int)
    requires Inv(cfg, s) && s.coordinator.Between?
    ensures Inv(cfg, Step(cfg, s, Begin(kts)))
  {
    var next := Step(cfg, s, Begin(kts));
    forall r: nat ensures Reached(next.phase, r) == if r == 0 then Polled(cfg) else {} {
      AllInReached(cfg, Quiet, r);
    }
    forall c | c in Polled(cfg) ensures Count(s.samples, |next.stamps|, c) == 0 {
      NoneInFuture(s.samples, |next.stamps|, c);
    }
    if s.stamps != [] {
      RankSubset(s.phase, 5, 6);
    }
  }

  lemma RankSubset(phase: map<int, Phase>, r: nat, t: nat)
    requires r <= t
    ensures Reached(phase, t) <= Reached(phase, r) <= phase.Keys
  {
  }

  lemma {:induction false} NoneInFuture(samples: seq<Sample>, round: nat, c: int)
    requires forall i :: 0 <= i < |samples| ==> samples[i].round < round
    ensures Count(samples, round, c) == 0
  {
    if samples != [] {
      NoneInFuture(samples[..|samples| - 1], round, c);
    }
  }

  /** What the samples satisfy depends on the phases only through who has sampled. */
  lemma SamplesKept(cfg: Config, s: State, next: State)
    requires SamplesOk(cfg, s)
    requires next.samples == s.samples && next.stamps == s.stamps
    requires Reached(next.phase, 5) == Reached(s.phase, 5)
    ensures SamplesOk(cfg, next)
  {
  }

  lemma CallShape(cfg: Config, s: State)
    requires s.coordinator.Call?
    ensures CoordinatorStep(cfg, s)
            == s.(phase := AllIn(cfg, Called), coordinator := if cfg.pollPoller then JoinIn else AwaitReady)
    ensures forall c :: c in AllIn(cfg, Called) ==> AllIn(cfg, Called)[c] == Called
  {
  }

  lemma CallInv(cfg: Config, s: State)
    requires Inv(cfg, s) && s.coordinator.Call?
    ensures Inv(cfg, CoordinatorStep(cfg, s))
  {
    PollerIsPolled(cfg);
    hide SamplesOk, Reached, Polled, PollingCount, AllIn, CoordinatorStep;
    CallShape(cfg, s);
    AllInReached(cfg, Called, 1);
    AllInReached(cfg, Called, 2);
    AllInReached(cfg, Called, 3);
    AllInReached(cfg, Called, 5);
    RankSubset(s.phase, 1, 5);
    SamplesKept(cfg, s, CoordinatorStep(cfg, s));
  }

  lemma PollerIsPolled(cfg: Config)
    ensures cfg.pollPoller ==> cfg.poller in Polled(cfg)
  {
  }

  lemma JoinInv(cfg: Config, s: State)
    requires Inv(cfg, s) && s.coordinator.JoinIn?
    ensures Inv(cfg, CoordinatorStep(cfg, s))
  {
    PollerIsPolled(cfg);
    hide SamplesOk, Reached, Polled, PollingCount;
    ReachedUpdate(s.phase, cfg.poller, Ready, 2);
    SamplesKept(cfg, s, CoordinatorStep(cfg, s));
  }

  lemma AwaitInv(cfg: Config, s: State)
    requires Inv(cfg, s) && PollingCount(cfg) == |Polled(cfg)|
    requires s.coordinator.AwaitReady? || s.coordinator.AwaitDone? || s.coordinator.Release?
    ensures Inv(cfg, CoordinatorStep(cfg, s))
  {
    hide SamplesOk, PollingCount, Reached, Polled;
    OnlyCounters(cfg, s);
    SamplesKept(cfg, s, CoordinatorStep(cfg, s));
    RankSubset(s.phase, 0, 2);
    RankSubset(s.phase, 0, 6);
    RankSubset(s.phase, 3, 6);
    if s.coordinator.AwaitReady? && s.ready >= PollingCount(cfg) {
      SameSize(Reached(s.phase, 2), Polled(cfg));
    } else if s.coordinator.AwaitDone? && s.done >= PollingCount(cfg) {
      SameSize(Reached(s.phase, 6), Polled(cfg));
    }
  }

  lemma OnlyCounters(cfg: Config, s: State)
    requires !s.coordinator.Call? && !s.coordinator.JoinIn?
    ensures var next := CoordinatorStep(cfg, s);
      next == s.(coordinator := next.coordinator, ready := next.ready, start := next.start, done := next.done)
  {
  }

  lemma CoordinatorInv(cfg: Config, s: State)
    requires Inv(cfg, s) && PollingCount(cfg) == |Polled(cfg)|
    ensures Inv(cfg, CoordinatorStep(cfg, s))
  {
    hide *;
    if s.coordinator.Call? {
      CallInv(cfg, s);
    } else if s.coordinator.JoinIn? {
      JoinInv(cfg, s);
    } else if s.coordinator.AwaitReady? || s.coordinator.AwaitDone? || s.coordinator.Release? {
      AwaitInv(cfg, s);
    } else {
      CountersInv(cfg, s);
    }
  }

  /** The coordinator's other steps touch the counters only. */
  lemma CountersInv(cfg: Config, s: State)
    requires Inv(cfg, s) && PollingCount(cfg) == |Polled(cfg)|
    requires var c := s.coordinator; !c.Call? && !c.JoinIn? && !c.AwaitReady? && !c.AwaitDone? && !c.Release?
    ensures Inv(cfg, CoordinatorStep(cfg, s))
  {
    hide SamplesOk, Reached, PollingCount, Polled;
    OnlyCounters(cfg, s);
    SamplesKept(cfg, s, CoordinatorStep(cfg, s));
  }

  /** A CPU moves one phase on without sampling; `p` says how the counters move with it. */
  lemma CpuMoves(cfg: Config, s: State, c: int, p: Phase)
    requires Inv(cfg, s) && c in s.phase && Rank(p) == Rank(s.phase[c]) + 1 && !p.Sampled?
    requires CpuStep(cfg, s, c) != s && CpuStep(cfg, s, c).phase == s.phase[c := p]
    ensures Inv(cfg, CpuStep(cfg, s, c))
  {
    hide SamplesOk, Reached, Polled, PollingCount, CpuStep;
    MoveShape(cfg, s, c, p);
    ReachedUpdate(s.phase, c, p, Rank(p));
    SamplesKept(cfg, s, CpuStep(cfg, s, c));
    MoveInRound(cfg, s, c);
  }

  lemma MoveShape(cfg: Config, s: State, c: int, p: Phase)
    requires c in s.phase && Rank(p) == Rank(s.phase[c]) + 1 && !p.Sampled?
    requires CpuStep(cfg, s, c) != s && CpuStep(cfg, s, c).phase == s.phase[c := p]
    ensures var next := CpuStep(cfg, s, c);
      && next == s.(phase := s.phase[c := p], enqueuing := next.enqueuing, done := next.done, ready := next.ready)
      && next.done == s.done + (if p.Done? then 1 else 0)
      && (p.Ready? ==> next.ready == s.ready + 1)
      && (p.Loaded? ==> p.kts == s.kts)
  {
    assert s.phase[c := p][c] == p;
  }

  /** A CPU that moves is in a round: called before the start, or past it. */
  lemma MoveInRound(cfg: Config, s: State, c: int)
    requires Inv(cfg, s) && c in s.phase && CpuStep(cfg, s, c) != s
    ensures s.phase[c].Called? ==>
      (s.coordinator.JoinIn? || s.coordinator.AwaitReady?) && !(cfg.pollPoller && c == cfg.poller)
    ensures !s.phase[c].Called? ==> s.coordinator.PollSelf? || s.coordinator.AwaitDone?
    ensures s.coordinator.AwaitDone? ==> Polling(cfg, s) && !(cfg.pollPoller && c == cfg.poller)
  {
    InReached(s.phase, c, 1);
    InReached(s.phase, c, 2);
    InReached(s.phase, c, 3);
    InReached(s.phase, c, 6);
    assert c in Polled(cfg);
    hide SamplesOk, Reached, Polled, PollingCount;
  }

  lemma InReached(phase: map<int, Phase>, c: int, r: nat)
    requires c in phase
    ensures c in Reached(phase, r) <==> Rank(phase[c]) >= r
  {
  }

  lemma LoadedShape(cfg: Config, s: State, c: int)
    requires c in s.phase && s.phase[c].Loaded? && CpuStep(cfg, s, c) != s
    ensures CpuStep(cfg, s, c)
            == s.(phase := s.phase[c := Sampled], samples := s.samples + [Sample(|s.stamps|, c, s.phase[c].kts)])
  {
  }

  lemma LoadedInv(cfg: Config, s: State, c: int)
    requires Inv(cfg, s) && c in s.phase && s.phase[c].Loaded? && CpuStep(cfg, s, c) != s
    ensures Inv(cfg, CpuStep(cfg, s, c))
  {
    hide SamplesOk, Reached, Polled, PollingCount, CpuStep;
    LoadedShape(cfg, s, c);
    ReachedUpdate(s.phase, c, Sampled, 5);
    MoveInRound(cfg, s, c);
    SampleTaken(cfg, s, c);
  }

  lemma SampleTaken(cfg: Config, s: State, c: int)
    requires SamplesOk(cfg, s) && c in s.phase && s.phase.Keys == Polled(cfg) && s.phase[c].Loaded?
    requires s.stamps != [] && s.phase[c].kts == s.stamps[|s.stamps| - 1]
    requires CpuStep(cfg, s, c) != s
    ensures SamplesOk(cfg, CpuStep(cfg, s, c))
  {
    var next, x := CpuStep(cfg, s, c), Sample(|s.stamps|, c, s.phase[c].kts);
    ReachedUpdate(s.phase, c, Sampled, 5);
    forall r, d | 1 <= r <= |s.stamps| && d in Polled(cfg)
      ensures Count(next.samples, r, d) == if r < |s.stamps| || d in Reached(next.phase, 5) then 1 else 0
    {
      CountSnoc(s.samples, x, r, d);
    }
  }

  lemma CpuInv(cfg: Config, s: State, c: int)
    requires Inv(cfg, s) && c in s.phase
    ensures Inv(cfg, CpuStep(cfg, s, c))
  {
    hide Inv;
    if CpuStep(cfg, s, c) != s {
      match s.phase[c]
      case Called => CpuMoves(cfg, s, c, Ready);
      case Ready => CpuMoves(cfg, s, c, Released);
      case Released => CpuMoves(cfg, s, c, Loaded(s.kts));
      case Loaded(_) => LoadedInv(cfg, s, c);
      case Sampled => CpuMoves(cfg, s, c, Done);
      case _ =>
    }
  }

  lemma LeaveInv(cfg: Config, s: State, c: int)
    requires Inv(cfg, s)
    ensures Inv(cfg, Step(cfg, s, Leave(c)))
  {
    hide SamplesOk, Reached, Polled, PollingCount;
    SamplesKept(cfg, s, Step(cfg, s, Leave(c)));
  }

  lemma StepInv(cfg: Config, s: State, a: Action)
    requires Inv(cfg, s) && PollingCount(cfg) == |Polled(cfg)|
    ensures Inv(cfg, Step(cfg, s, a))
  {
    hide Inv, CoordinatorStep, CpuStep, PollingCount, Polled;
    match a
    case Begin(kts) => if s.coordinator.Between? { BeginInv(cfg, s, kts); }
    case Coordinate => CoordinatorInv(cfg, s);
    case Cpu(c) => if c in s.phase { CpuInv(cfg, s, c); }
    case Leave(c) => LeaveInv(cfg, s, c);
  }

  // -------------------------------------------------------------- theorems

  lemma InitInv(cfg: Config)
    ensures Inv(cfg, Init(cfg))
  {
    AllInReached(cfg, Quiet, 1);
    assert Init(cfg).phase == AllIn(cfg, Quiet);
  }

  lemma {:induction false} RunInv(cfg: Config, s: State, actions: seq<Action>)
    requires Inv(cfg, s) && PollingCount(cfg) == |Polled(cfg)|
    ensures Inv(cfg, Run(cfg, s, actions))
    decreases actions
  {
    hide Inv, Step, PollingCount, Polled;
    if actions != [] {
      StepInv(cfg, s, actions[0]);
      RunInv(cfg, Step(cfg, s, actions[0]), actions[1..]);
    }
  }

  /** Every polled CPU is at the barrier or past it. */
  ghost predicate AllReady(cfg: Config, s: State) {
    Reached(s.phase, 2) == Polled(cfg)
  }

  /** Some run lets a CPU read its counters before every polled CPU is ready. */
  ghost predicate CanSampleEarly(cfg: Config) {
    exists actions, c :: EarlyRun(cfg, actions, c)
  }

  ghost predicate EarlyRun(cfg: Config, actions: seq<Action>, c: int) {
    var s := Run(cfg, Init(cfg), actions);
    Samples(cfg, s, Cpu(c)) && !AllReady(cfg, s)
  }

  lemma SampleAfterRelease(cfg: Config, s: State, c: int)
    requires Inv(cfg, s) && Samples(cfg, s, Cpu(c))
    ensures AllReady(cfg, s) && s.phase[c].kts == s.kts
  {
    MoveInRound(cfg, s, c);
  }

  /** With the count right, no CPU ever reads a counter before all polled CPUs are ready, and what it
      records then is the timestamp of the round that is under way. */
  lemma NoEarlySample(cfg: Config, actions: seq<Action>, c: int)
    requires cfg.pollPoller ==> cfg.poller in cfg.selected
    ensures !EarlyRun(cfg, actions, c)
    ensures var s := Run(cfg, Init(cfg), actions);
      Samples(cfg, s, Cpu(c)) ==> s.stamps != [] && s.phase[c].kts == s.stamps[|s.stamps| - 1]
  {
    CountMatches(cfg);
    InitInv(cfg);
    RunInv(cfg, Init(cfg), actions);
    var s := Run(cfg, Init(cfg), actions);
    if Samples(cfg, s, Cpu(c)) {
      SampleAfterRelease(cfg, s, c);
    }
  }

  /** After any run: every round that is over was sampled exactly once by every polled CPU and
      nobody else, with that round's timestamp; and the coordinator is between rounds only when
      the last round is over too. */
  lemma SampledOncePerRound(cfg: Config, actions: seq<Action>, round: nat, c: int)
    requires cfg.pollPoller ==> cfg.poller in cfg.selected
    requires var s := Run(cfg, Init(cfg), actions);
      1 <= round && (round < |s.stamps| || (round == |s.stamps| && s.coordinator.Between?))
    ensures var s := Run(cfg, Init(cfg), actions);
      && Count(s.samples, round, c) == (if c in Polled(cfg) then 1 else 0)
      && (forall i :: 0 <= i < |s.samples| && s.samples[i].round == round ==> s.samples[i].kts == s.stamps[round - 1])
  {
    hide *;
    CountMatches(cfg);
    InitInv(cfg);
    RunInv(cfg, Init(cfg), actions);
    SampledOnce(cfg, Run(cfg, Init(cfg), actions), round, c);
  }

  lemma SampledOnce(cfg: Config, s: State, round: nat, c: int)
    requires Inv(cfg, s)
    requires 1 <= round && (round < |s.stamps| || (round == |s.stamps| && s.coordinator.Between?))
    ensures Count(s.samples, round, c) == (if c in Polled(cfg) then 1 else 0)
    ensures forall i :: 0 <= i < |s.samples| && s.samples[i].round == round ==> s.samples[i].kts == s.stamps[round - 1]
  {
    if c in Polled(cfg) {
      RankSubset(s.phase, 5, 6);
      assert Reached(s.phase, 6) <= Reached(s.phase, 5);
    } else {
      NobodyElse(s.samples, Polled(cfg), round, c);
    }
  }

  lemma {:induction false} NobodyElse(samples: seq<Sample>, cpus: set<int>, round: nat, c: int)
    requires c !in cpus && forall i :: 0 <= i < |samples| ==> samples[i].cpu in cpus
    ensures Count(samples, round, c) == 0
  {
    if samples != [] {
      NobodyElse(samples[..|samples| - 1], cpus, round, c);
    }
  }

  // ------------------------------------------------------- no deadlock

  predicate InRound(c: Coordinator) {
    c.JoinIn? || c.AwaitReady? || c.Release? || c.PollSelf? || c.AwaitDone?
  }

  /** Who has been called stays in the round until it is over, the poller ahead of what the
      coordinator does next. */
  ghost predicate Live(cfg: Config, s: State) {
    && s.phase.Keys == Polled(cfg)
    && (InRound(s.coordinator) ==> forall c :: c in s.phase ==> Rank(s.phase[c]) >= 1)
    && (cfg.pollPoller ==>
          && cfg.poller in s.phase
          && (InRound(s.coordinator) && !s.coordinator.JoinIn? ==> Rank(s.phase[cfg.poller]) >= 2)
          && (s.coordinator.AwaitDone? ==> s.phase[cfg.poller].Done?))
  }

  lemma LiveCoordinator(cfg: Config, s: State)
    requires Live(cfg, s) && Inv(cfg, s)
    ensures Live(cfg, CoordinatorStep(cfg, s))
  {
    hide SamplesOk, Reached, PollingCount;
    AllInReached(cfg, Called, 1);
  }

  lemma LiveCpu(cfg: Config, s: State, c: int)
    requires Live(cfg, s) && c in s.phase
    ensures Live(cfg, CpuStep(cfg, s, c))
  {
    hide Polled;
  }

  lemma LiveStep(cfg: Config, s: State, a: Action)
    requires Live(cfg, s) && Inv(cfg, s)
    ensures Live(cfg, Step(cfg, s, a))
  {
    hide Inv, CoordinatorStep, CpuStep, Polled;
    match a
    case Begin(kts) =>
      AllInReached(cfg, Quiet, 0);
      LiveAtBegin(cfg, s, kts);
    case Coordinate => LiveCoordinator(cfg, s);
    case Cpu(c) => if c in s.phase { LiveCpu(cfg, s, c); }
    case Leave(_) =>
  }

  lemma LiveAtBegin(cfg: Config, s: State, kts: int)
    requires Live(cfg, s)
    ensures Live(cfg, Step(cfg, s, Begin(kts)))
  {
    AllInReached(cfg, Quiet, 0);
  }

  lemma {:induction false} LiveRun(cfg: Config, s: State, actions: seq<Action>)
    requires Live(cfg, s) && Inv(cfg, s) && PollingCount(cfg) == |Polled(cfg)|
    ensures Live(cfg, Run(cfg, s, actions)) && Inv(cfg, Run(cfg, s, actions))
    decreases actions
  {
    hide Inv, Live, Step, PollingCount, Polled;
    if actions != [] {
      StepInv(cfg, s, actions[0]);
      LiveStep(cfg, s, actions[0]);
      LiveRun(cfg, Step(cfg, s, actions[0]), actions[1..]);
    }
  }

  /** How far the coordinator is from the end of the round. */
  function Stage(c: Coordinator): nat {
    match c
    case Between => 0 case AwaitDone => 1 case PollSelf => 2 case Release => 3 case AwaitReady => 4
    case JoinIn => 5 case Call => 6 case ResetDone => 7 case ResetStart => 8 case ResetReady => 9
  }

  /** Phases the CPUs still have before them, each counted twice, and handlers still to leave. */
  function ToGo(cfg: Config, s: State): int {
    2 * (6 * |Polled(cfg)| - Advanced(s.phase)) + |s.enqueuing|
  }

  function Advanced(phase: map<int, Phase>): nat {
    |Reached(phase, 1)| + |Reached(phase, 2)| + |Reached(phase, 3)| + |Reached(phase, 4)| + |Reached(phase, 5)|
    + |Reached(phase, 6)|
  }

  lemma AdvancedBound(cfg: Config, s: State)
    requires s.phase.Keys == Polled(cfg)
    ensures ToGo(cfg, s) >= 0
  {
    SubsetSize(Reached(s.phase, 1), Polled(cfg));
    SubsetSize(Reached(s.phase, 2), Polled(cfg));
    SubsetSize(Reached(s.phase, 3), Polled(cfg));
    SubsetSize(Reached(s.phase, 4), Polled(cfg));
    SubsetSize(Reached(s.phase, 5), Polled(cfg));
    SubsetSize(Reached(s.phase, 6), Polled(cfg));
  }

  lemma Advances(phase: map<int, Phase>, c: int, p: Phase)
    requires c in phase && Rank(p) == Rank(phase[c]) + 1
    ensures Advanced(phase[c := p]) == Advanced(phase) + 1
  {
    hide Reached;
    ReachedUpdate(phase, c, p, Rank(p));
  }

  lemma AllCame(phase: map<int, Phase>, rank: nat)
    ensures (forall d :: d in phase ==> Rank(phase[d]) >= rank) ==> Reached(phase, rank) == phase.Keys
  {
    if forall d :: d in phase ==> Rank(phase[d]) >= rank {
      assert Reached(phase, rank) == phase.Keys;
    }
  }

  /** Some CPU has not come that far. */
  lemma Behind(cfg: Config, s: State, rank: nat) returns (c: int)
    requires s.phase.Keys == Polled(cfg) && |Reached(s.phase, rank)| < |Polled(cfg)|
    ensures c in s.phase && Rank(s.phase[c]) < rank
  {
    AllCame(s.phase, rank);
    c :| c in s.phase && Rank(s.phase[c]) < rank;
  }

  /** A CPU that may move does so, or leaves the handler of the round before. */
  lemma CpuGoesOn(cfg: Config, s: State, c: int) returns (a: Action)
    requires s.phase.Keys == Polled(cfg) && c in s.phase && 1 <= Rank(s.phase[c]) < 6
    requires cfg.pollPoller && c == cfg.poller ==> s.coordinator.PollSelf? && Rank(s.phase[c]) >= 2
    requires Rank(s.phase[c]) >= 2 ==> s.start
    ensures var next := Step(cfg, s, a);
      next.coordinator == s.coordinator && next.stamps == s.stamps && ToGo(cfg, next) < ToGo(cfg, s)
  {
    hide Polled, Reached, Advanced;
    if s.phase[c].Called? && c in s.enqueuing {
      a := Leave(c);
      assert |s.enqueuing - {c}| < |s.enqueuing|;
    } else {
      a := Cpu(c);
      var p := CpuStep(cfg, s, c).phase[c];
      assert CpuStep(cfg, s, c).phase == s.phase[c := p];
      Advances(s.phase, c, p);
      assert |s.enqueuing + {c}| <= |s.enqueuing| + 1;
    }
  }

  /** In a round something can always move it on. */
  lemma GoesOn(cfg: Config, s: State) returns (a: Action)
    requires Live(cfg, s) && Inv(cfg, s) && PollingCount(cfg) == |Polled(cfg)| && !s.coordinator.Between?
    ensures var next := Step(cfg, s, a);
      && next.stamps == s.stamps
      && (Stage(next.coordinator) < Stage(s.coordinator)
          || (next.coordinator == s.coordinator && ToGo(cfg, next) < ToGo(cfg, s)))
  {
    hide SamplesOk, ToGo, Reached, Polled, PollingCount;
    a := Coordinate;
    if s.coordinator.AwaitReady? && s.ready < PollingCount(cfg) {
      var c := Behind(cfg, s, 2);
      a := CpuGoesOn(cfg, s, c);
    } else if s.coordinator.PollSelf? && !s.phase[cfg.poller].Done? {
      a := CpuGoesOn(cfg, s, cfg.poller);
    } else if s.coordinator.AwaitDone? && s.done < PollingCount(cfg) {
      var c := Behind(cfg, s, 6);
      InReached(s.phase, c, 2);
      a := CpuGoesOn(cfg, s, c);
    }
  }

  lemma {:induction false} RoundEnds(cfg: Config, s: State) returns (actions: seq<Action>)
    requires Live(cfg, s) && Inv(cfg, s) && PollingCount(cfg) == |Polled(cfg)|
    ensures var end := Run(cfg, s, actions); end.coordinator.Between? && end.stamps == s.stamps
    decreases Stage(s.coordinator), ToGo(cfg, s)
  {
    hide Inv, Step, PollingCount, Polled, ToGo, Stage;
    if s.coordinator.Between? {
      actions := [];
    } else {
      var a := GoesOn(cfg, s);
      StepInv(cfg, s, a);
      LiveStep(cfg, s, a);
      var next := Step(cfg, s, a);
      ToGoBound(cfg, s);
      var rest := RoundEnds(cfg, next);
      actions := [a] + rest;
      assert actions[0] == a && actions[1..] == rest;
    }
  }

  lemma ToGoBound(cfg: Config, s: State)
    requires Live(cfg, s)
    ensures ToGo(cfg, s) >= 0
  {
    AdvancedBound(cfg, s);
  }

  /** With the count right no run can get stuck: whatever has happened, the round under way can
      still end, with no other timestamp than its own. */
  lemma RoundCanEnd(cfg: Config, actions: seq<Action>) returns (more: seq<Action>)
    requires cfg.pollPoller ==> cfg.poller in cfg.selected
    ensures var s, end := Run(cfg, Init(cfg), actions), Run(cfg, Init(cfg), actions + more);
      end.coordinator.Between? && end.stamps == s.stamps
  {
    hide Inv, Run, PollingCount;
    CountMatches(cfg);
    InitInv(cfg);
    LiveRun(cfg, Init(cfg), actions);
    more := RoundEnds(cfg, Run(cfg, Init(cfg), actions));
    RunConcat(cfg, Init(cfg), actions, more);
  }

  // ---------------------------- the configuration in which the barrier fails

  lemma {:induction false} RunConcat(cfg: Config, s: State, a: seq<Action>, b: seq<Action>)
    ensures Run(cfg, s, a + b) == Run(cfg, Run(cfg, s, a), b)
    decreases a
  {
    if a == [] {
      assert a + b == b;
    } else {
      RunConcat(cfg, Step(cfg, s, a[0]), a[1..], b);
      assert (a + b)[1..] == a[1..] + b;
    }
  }

  /** The opening of a round up to the wait for the others, the poller having counted itself. */
  const OPENING: seq<Action> := [Begin(0), Coordinate, Coordinate, Coordinate, Coordinate, Coordinate]

  function Opened(cfg: Config): State {
    State(AwaitReady, 1, false, 0, 0, AllIn(cfg, Called)[cfg.poller := Ready], {}, [0], [])
  }

  lemma OpeningRuns(cfg: Config)
    requires cfg.pollPoller
    ensures Run(cfg, Init(cfg), OPENING) == Opened(cfg)
  {
    hide AllIn, Run, Polled, PollingCount;
    var s0 := Init(cfg);
    var s1 := State(ResetReady, 0, false, 0, 0, AllIn(cfg, Quiet), {}, [0], []);
    var s2 := s1.(coordinator := ResetStart);
    var s3 := s1.(coordinator := ResetDone);
    var s4 := s1.(coordinator := Call);
    var s5 := s1.(coordinator := JoinIn, phase := AllIn(cfg, Called));
    assert Step(cfg, s0, Begin(0)) == s1;
    assert Step(cfg, s1, Coordinate) == s2;
    assert Step(cfg, s2, Coordinate) == s3;
    assert Step(cfg, s3, Coordinate) == s4;
    assert Step(cfg, s4, Coordinate) == s5;
    assert Step(cfg, s5, Coordinate) == Opened(cfg);
    RunSix(cfg, s0, Begin(0), Coordinate, Coordinate, Coordinate, Coordinate, Coordinate);
  }

  lemma RunSix(cfg: Config, s: State, a: Action, b: Action, c: Action, d: Action, e: Action, f: Action)
    ensures Run(cfg, s, [a, b, c, d, e, f])
            == Step(cfg, Step(cfg, Step(cfg, Step(cfg, Step(cfg, Step(cfg, s, a), b), c), d), e), f)
  {
    hide Step;
    assert [a, b, c, d, e, f] == [a] + ([b] + ([c] + ([d] + ([e] + [f]))));
    RunConcat(cfg, s, [a], [b] + ([c] + ([d] + ([e] + [f]))));
    RunConcat(cfg, Step(cfg, s, a), [b], [c] + ([d] + ([e] + [f])));
    RunConcat(cfg, Step(cfg, Step(cfg, s, a), b), [c], [d] + ([e] + [f]));
    RunConcat(cfg, Step(cfg, Step(cfg, Step(cfg, s, a), b), c), [d], [e] + [f]);
    RunConcat(cfg, Step(cfg, Step(cfg, Step(cfg, Step(cfg, s, a), b), c), d), [e], [f]);
  }

  /** The CPUs of `cpus` arrive one after the other. */
  lemma {:induction false} Arrivals(cfg: Config, s: State, cpus: set<int>) returns (actions: seq<Action>)
    requires s.coordinator.AwaitReady? && cpus <= s.phase.Keys - s.enqueuing - {cfg.poller}
    requires forall c :: c in cpus ==> s.phase[c].Called?
    ensures var end := Run(cfg, s, actions);
      end == s.(ready := s.ready + |cpus|, phase := map c | c in s.phase :: if c in cpus then Ready else s.phase[c])
    decreases cpus
  {
    if cpus == {} {
      actions := [];
      assert (map c | c in s.phase :: if c in cpus then Ready else s.phase[c]) == s.phase;
    } else {
      var c := Pick(cpus);
      var next := Step(cfg, s, Cpu(c));
      assert next == s.(ready := s.ready + 1, phase := s.phase[c := Ready]);
      var rest := Arrivals(cfg, next, cpus - {c});
      actions := [Cpu(c)] + rest;
      assert actions[1..] == rest;
      assert (map d | d in next.phase :: if d in cpus - {c} then Ready else next.phase[d])
             == (map d | d in s.phase :: if d in cpus then Ready else s.phase[d]);
    }
  }

  /** When the poller polls itself without being selected, its own count stands in for a CPU that
      has not arrived, and the poller samples too early. */
  lemma EarlySampleExists(cfg: Config)
    requires cfg.pollPoller && cfg.poller !in cfg.selected && cfg.selected != {}
    ensures CanSampleEarly(cfg)
  {
    var late := Pick(cfg.selected);
    var s := Opened(cfg);
    OpeningRuns(cfg);
    assert Remote(cfg) == cfg.selected;
    var arrive := Arrivals(cfg, s, cfg.selected - {late});
    var waited := Run(cfg, s, arrive);
    assert waited.ready == |cfg.selected|;
    RunConcat(cfg, Init(cfg), OPENING, arrive);
    PollerJumpsIn(cfg, waited, late, OPENING + arrive);
  }

  /** The count is met while `late` has not arrived: the release follows, and the poller samples. */
  lemma PollerJumpsIn(cfg: Config, s: State, late: int, before: seq<Action>)
    requires cfg.pollPoller && late in Polled(cfg) && late != cfg.poller
    requires s.phase.Keys == Polled(cfg) && s.phase[late].Called? && s.phase[cfg.poller].Ready?
    requires s.coordinator.AwaitReady? && s.ready >= PollingCount(cfg)
    requires s == Run(cfg, Init(cfg), before)
    ensures CanSampleEarly(cfg)
  {
    assert cfg.poller in s.phase;
    hide AllIn, Run, Polled, PollingCount, Reached;
    var me := Cpu(cfg.poller);
    var s2 := s.(start := true, coordinator := PollSelf);
    var s3 := s2.(ready := s.ready + 1, phase := s.phase[cfg.poller := Released]);
    var s4 := s3.(phase := s.phase[cfg.poller := Loaded(s.kts)]);
    ReleaseFollows(cfg, s);
    assert Step(cfg, s2, me) == s3;
    assert s3.phase[cfg.poller := Loaded(s.kts)] == s4.phase;
    assert Step(cfg, s3, me) == s4;
    assert |Step(cfg, s4, me).samples| == |s4.samples| + 1;
    var ending := [Coordinate, Coordinate, me, me];
    RunFour(cfg, s, Coordinate, Coordinate, me, me);
    RunConcat(cfg, Init(cfg), before, ending);
    InReached(s4.phase, late, 2);
    assert EarlyRun(cfg, before + ending, cfg.poller);
  }

  lemma ReleaseFollows(cfg: Config, s: State)
    requires cfg.pollPoller && s.coordinator.AwaitReady? && s.ready >= PollingCount(cfg)
    ensures Step(cfg, Step(cfg, s, Coordinate), Coordinate) == s.(start := true, coordinator := PollSelf)
  {
  }

  lemma RunFour(cfg: Config, s: State, a: Action, b: Action, c: Action, d: Action)
    ensures Run(cfg, s, [a, b, c, d]) == Step(cfg, Step(cfg, Step(cfg, Step(cfg, s, a), b), c), d)
  {
    hide Step;
    assert [a, b, c, d] == [a] + ([b] + ([c] + [d]));
    RunConcat(cfg, s, [a], [b] + ([c] + [d]));
    RunConcat(cfg, Step(cfg, s, a), [b], [c] + [d]);
    RunConcat(cfg, Step(cfg, Step(cfg, s, a), b), [c], [d]);
  }

  /** The barrier holds in exactly the configurations where a poller that polls itself is among
      the selected CPUs (with at least one CPU to poll, which the module insists on). */
  lemma BarrierHoldsExactly(cfg: Config)
    requires PollingCount(cfg) > 0
    ensures !CanSampleEarly(cfg) <==> (cfg.pollPoller ==> cfg.poller in cfg.selected)
  {
    if cfg.pollPoller && cfg.poller !in cfg.selected {
      EarlySampleExists(cfg);
    } else if CanSampleEarly(cfg) {
      var actions, c :| EarlyRun(cfg, actions, c);
      NoEarlySample(cfg, actions, c);
    }
  }
}
