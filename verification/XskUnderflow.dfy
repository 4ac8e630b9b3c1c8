/** A run of advanced03-AF_XDP/af_xdp_user.c, in program order, that hands INVALID_UMEM_FRAME to the
    kernel, if the kernel holds frames between FILL and RX; and for which configurations there is one. */
module XskUnderflow {
  import opened Bytes
  import opened XskMachine
  import opened XskInvariants
  import opened XskProgram

  /** es is a run up to a point between batches: its user steps fill the ring completely and then
      handle any number of batches, each of which leaves the local copy showing no free slot. */
  ghost predicate ProgramRun(cfg: Config, es: seq<Event>)
    requires cfg.Valid()
    decreases |es|
  {
    StateAfter(cfg, es).Some? &&
    (|| UserSteps(es) == RefillSteps(cfg.fillSize)
     || (StateAfter(cfg, es).value.spare == 0 &&
         exists k: nat, n: nat, m: nat, done: nat :: k < |es| && ProgramRun(cfg, es[..k]) && n > 0 &&
           IsBatch(UserSteps(es[k..]), StateAfter(cfg, es[..k]).value, n, m, done, cfg.replies)))
  }

  // ----- reaching a state

  /** The run front goes on to s with these user steps. */
  ghost predicate Via(cfg: Config, front: seq<Event>, user: seq<Event>, s: State)
    requires cfg.Valid()
  {
    exists part: seq<Event> :: Leads(cfg, front, part, user, s)
  }

  predicate Leads(cfg: Config, front: seq<Event>, part: seq<Event>, user: seq<Event>, s: State)
    requires cfg.Valid()
  {
    StateAfter(cfg, front + part) == Some(s) && UserSteps(part) == user
  }

  lemma ViaStart(cfg: Config, front: seq<Event>, s: State)
    requires cfg.Valid() && StateAfter(cfg, front) == Some(s)
    ensures Via(cfg, front, [], s)
  {
    assert front + [] == front && Leads(cfg, front, [], [], s);
  }

  lemma UserStepsNext(part: seq<Event>, e: Event)
    ensures UserSteps(part + [e]) == if IsKernelEvent(e) then UserSteps(part) else UserSteps(part) + [e]
  {
    assert (part + [e])[..|part|] == part;
  }

  lemma ViaNext(cfg: Config, front: seq<Event>, user: seq<Event>, s: State, e: Event, t: State)
    requires cfg.Valid() && Via(cfg, front, user, s) && Enabled(cfg, s, e) && t == Apply(cfg, s, e)
    ensures Via(cfg, front, if IsKernelEvent(e) then user else user + [e], t)
  {
    var part :| Leads(cfg, front, part, user, s);
    LeadsNext(cfg, front, part, user, s, e);
  }

  lemma LeadsNext(cfg: Config, front: seq<Event>, part: seq<Event>, user: seq<Event>, s: State, e: Event)
    requires cfg.Valid() && Leads(cfg, front, part, user, s) && Enabled(cfg, s, e)
    ensures Leads(cfg, front, part + [e], if IsKernelEvent(e) then user else user + [e], Apply(cfg, s, e))
  {
    Extend(cfg, front + part, s, e);
    assert front + part + [e] == front + (part + [e]);
    UserStepsNext(part, e);
  }

  // ----- the refill and what the kernel makes of it

  /** The state after n of the reserved slots have been written. */
  function Staged(s: State, n: nat): State
    requires n <= s.todo
  {
    s.(todo := s.todo - n, staged := s.staged + Served(s.free, n), free := Left(s.free, n))
  }

  lemma StagedNext(cfg: Config, s: State, n: nat)
    requires cfg.Valid() && n < s.todo
    ensures Staged(s, n + 1) == Apply(cfg, Staged(s, n), StageFrame)
  {
    ServedNext(s.free, n);
  }

  lemma NoneStaged(s: State, user: seq<Event>)
    ensures Staged(s, 0) == s && user + Repeated(StageFrame, 0) == user
  {
    assert s.staged + Served(s.free, 0) == s.staged;
  }

  lemma ViaStage(cfg: Config, front: seq<Event>, user: seq<Event>, s: State, n: nat)
    requires cfg.Valid() && n < s.todo && Via(cfg, front, user + Repeated(StageFrame, n), Staged(s, n))
    ensures Via(cfg, front, user + Repeated(StageFrame, n + 1), Staged(s, n + 1))
  {
    StagedNext(cfg, s, n);
    ViaNext(cfg, front, user + Repeated(StageFrame, n), Staged(s, n), StageFrame, Staged(s, n + 1));
    RepeatedAfter(user, n);
  }

  lemma RepeatedAfter(user: seq<Event>, n: nat)
    ensures user + Repeated(StageFrame, n) + [StageFrame] == user + Repeated(StageFrame, n + 1)
  {
    RepeatedNext(StageFrame, n);
  }

  lemma {:induction false} ViaStaged(cfg: Config, front: seq<Event>, user: seq<Event>, s: State, n: nat)
    requires cfg.Valid() && Via(cfg, front, user, s) && n <= s.todo
    ensures Via(cfg, front, user + Repeated(StageFrame, n), Staged(s, n))
  {
    if n == 0 {
      NoneStaged(s, user);
    } else {
      ViaStaged(cfg, front, user, s, n - 1);
      ViaStage(cfg, front, user, s, n - 1);
    }
  }

  lemma ViaRefilled(cfg: Config, front: seq<Event>, user: seq<Event>, s: State, n: nat, t: State)
    requires cfg.Valid() && Via(cfg, front, user, s)
    requires s.todo == 0 && s.staged == [] && s.fill == [] && 0 < n <= s.spare
    requires t == s.(spare := s.spare - n, free := Left(s.free, n), fill := Served(s.free, n))
    ensures Via(cfg, front, user + RefillSteps(n), t)
  {
    var reserved := s.(todo := n, spare := s.spare - n);
    var written := Staged(reserved, n);
    var steps := user + [ReserveFill(n)];
    ViaNext(cfg, front, user, s, ReserveFill(n), reserved);
    ViaStaged(cfg, front, steps, reserved, n);
    assert written.staged == Served(s.free, n);
    ViaNext(cfg, front, steps + Repeated(StageFrame, n), written, SubmitFill, t);
    FilledTrace(user, n);
  }

  /** The state after the kernel has taken n entries. */
  function Taken(s: State, n: nat): State
    requires n <= |s.fill|
  {
    s.(fill := s.fill[n..], krx := s.krx + s.fill[..n])
  }

  lemma NoneTaken(s: State)
    ensures Taken(s, 0) == s
  {
  }

  lemma TakenNext(cfg: Config, s: State, n: nat)
    requires cfg.Valid() && !cfg.atomicRx && n < |s.fill| && s.fill[n] != INVALID_UMEM_FRAME
    ensures Enabled(cfg, Taken(s, n), KernelTakesFill)
    ensures Taken(s, n + 1) == Apply(cfg, Taken(s, n), KernelTakesFill)
  {
    assert s.fill[n..][1..] == s.fill[n + 1..];
    assert s.krx + s.fill[..n] + [s.fill[n]] == s.krx + s.fill[..n + 1];
  }

  lemma {:induction false} ViaTaken(cfg: Config, front: seq<Event>, user: seq<Event>, s: State, n: nat)
    requires cfg.Valid() && !cfg.atomicRx && Via(cfg, front, user, s)
    requires n <= |s.fill| && INVALID_UMEM_FRAME !in s.fill
    ensures Via(cfg, front, user, Taken(s, n))
  {
    if n == 0 {
      NoneTaken(s);
    } else {
      ViaTaken(cfg, front, user, s, n - 1);
      TakenNext(cfg, s, n - 1);
      ViaNext(cfg, front, user, Taken(s, n - 1), KernelTakesFill, Taken(s, n));
    }
  }

  /** A look at the consumer index of an empty ring. */
  lemma ViaLooked(cfg: Config, front: seq<Event>, user: seq<Event>, s: State, t: State)
    requires cfg.Valid() && Via(cfg, front, user, s) && s.fill == [] && s.staged == [] && s.todo == 0
    requires t == s.(spare := cfg.fillSize)
    ensures Via(cfg, front, user + [RefreshFill], t)
  {
    ViaNext(cfg, front, user, s, RefreshFill, t);
  }

  lemma StackIsReal(cfg: Config, es: seq<Event>, s: State)
    requires cfg.Valid() && StateAfter(cfg, es) == Some(s)
    ensures INVALID_UMEM_FRAME !in s.free
  {
    RunInv(cfg, es);
  }

  /** A refill that the stack can serve, and the kernel taking all of it. */
  lemma ViaCycled(cfg: Config, front: seq<Event>, user: seq<Event>, s: State, n: nat, t: State)
    requires cfg.Valid() && !cfg.atomicRx && Via(cfg, front, user, s)
    requires s.todo == 0 && s.staged == [] && s.fill == [] && 0 < n == s.spare && n <= |s.free|
    requires INVALID_UMEM_FRAME !in s.free
    requires t == s.(spare := 0, free := Left(s.free, n), krx := s.krx + Served(s.free, n))
    ensures Via(cfg, front, user + RefillSteps(n), t)
  {
    var u := s.(spare := 0, free := Left(s.free, n), fill := Served(s.free, n));
    ViaRefilled(cfg, front, user, s, n, u);
    ServedInvalid(s.free, n);
    ViaTaken(cfg, front, user + RefillSteps(n), u, n);
    assert u.fill[n..] == [] && u.fill[..n] == u.fill;
  }

  // ----- one batch

  /** Between batches, with every frame on the stack or at the kernel, which can deliver one. */
  predicate Ready(s: State) {
    && s.todo == 0 && s.staged == [] && s.spare == 0 && s.fill == []
    && s.rx == [] && s.rxBatch == [] && s.rxDone == 0
    && s.krx != [] && |s.free| + |s.krx| >= 2
  }

  /** The state after the kernel has delivered its first frame and the program has peeked it. */
  function Peeked(s: State, d: Desc): State
    requires s.krx != []
  {
    s.(krx := s.krx[1..], rxBatch := [d], rxDone := 0)
  }

  lemma DeliverEnabled(cfg: Config, es: seq<Event>, s: State)
    requires cfg.Valid() && StateAfter(cfg, es) == Some(s) && Ready(s) && cfg.rxSize > 0 && cfg.frameSize >= 14
    ensures Enabled(cfg, s, KernelDelivers(0, 0, 14))
  {
    RunInv(cfg, es);
    DeliveredFits(cfg, s, s.krx[0], 0, 14);
  }

  lemma DeliverThenPeek(cfg: Config, s: State) returns (u: State, d: Desc)
    requires cfg.Valid() && Ready(s) && Enabled(cfg, s, KernelDelivers(0, 0, 14))
    ensures u == Apply(cfg, s, KernelDelivers(0, 0, 14))
    ensures Enabled(cfg, u, PeekRx(1)) && Peeked(s, d) == Apply(cfg, u, PeekRx(1))
  {
    u := Apply(cfg, s, KernelDelivers(0, 0, 14));
    d := u.rx[|u.rx| - 1];
    assert u.rx == [d] && u.rx[1..] == [] && u.rx[..1] == [d];
    assert u.krx == s.krx[..0] + s.krx[1..] == s.krx[1..];
  }

  lemma ViaPeeked(cfg: Config, es: seq<Event>, s: State) returns (d: Desc)
    requires cfg.Valid() && StateAfter(cfg, es) == Some(s) && Ready(s) && cfg.rxSize > 0 && cfg.frameSize >= 14
    ensures Via(cfg, es, [PeekRx(1)], Peeked(s, d))
  {
    DeliverEnabled(cfg, es, s);
    var u;
    u, d := DeliverThenPeek(cfg, s);
    ViaStart(cfg, es, s);
    ViaNext(cfg, es, [], s, KernelDelivers(0, 0, 14), u);
    ViaNext(cfg, es, [], u, PeekRx(1), Peeked(s, d));
    assert [] + [PeekRx(1)] == [PeekRx(1)];
  }

  /** The end of a batch of one packet, which is freed. */
  function Freed(s: State, d: Desc): State {
    s.(free := s.free + [d.addr], rxBatch := [], rxDone := 0,
       freedAtOnce := s.freedAtOnce + 1, rxPackets := s.rxPackets + 1)
  }

  lemma ViaFreed(cfg: Config, front: seq<Event>, user: seq<Event>, s: State, d: Desc)
    requires cfg.Valid() && Via(cfg, front, user, s) && s.rxBatch == [d] && s.rxDone == 0
    ensures Via(cfg, front, user + [FreePacket] + [ReleaseRx], Freed(s, d))
  {
    var u := s.(free := s.free + [d.addr], rxDone := 1, freedAtOnce := s.freedAtOnce + 1);
    ViaNext(cfg, front, user, s, FreePacket, u);
    ViaNext(cfg, front, user + [FreePacket], u, ReleaseRx, Freed(s, d));
  }

  lemma BatchEnds(cfg: Config, es: seq<Event>, s: State, m: nat, user: seq<Event>, u: State, d: Desc)
      returns (next: seq<Event>)
    requires cfg.Valid() && ProgramRun(cfg, es) && StateAfter(cfg, es) == Some(s)
    requires user == [PeekRx(1)] + (LookSteps(s) + RefillSteps(m))
    requires Via(cfg, es, user, u) && u.rxBatch == [d] && u.rxDone == 0 && u.spare == 0
    ensures ProgramRun(cfg, next) && StateAfter(cfg, next) == Some(Freed(u, d))
  {
    ViaFreed(cfg, es, user, u, d);
    var steps := user + [FreePacket] + [ReleaseRx];
    var part :| Leads(cfg, es, part, steps, Freed(u, d));
    next := es + part;
    BatchOfOne(s, m, user, steps, cfg.replies);
    Follows(cfg, es, part, s, m);
  }

  lemma BatchOfOne(s: State, m: nat, user: seq<Event>, steps: seq<Event>, replies: bool)
    requires user == [PeekRx(1)] + (LookSteps(s) + RefillSteps(m)) && steps == user + [FreePacket] + [ReleaseRx]
    ensures IsBatch(steps, s, 1, m, 0, replies)
  {
    assert AllHandled([FreePacket], replies) && CompletionSteps(0) == [];
    assert steps == user + [FreePacket] + [ReleaseRx] + CompletionSteps(0);
  }

  lemma Follows(cfg: Config, es: seq<Event>, part: seq<Event>, s: State, m: nat)
    requires cfg.Valid() && ProgramRun(cfg, es) && StateAfter(cfg, es) == Some(s)
    requires IsBatch(UserSteps(part), s, 1, m, 0, cfg.replies)
    requires StateAfter(cfg, es + part).Some? && StateAfter(cfg, es + part).value.spare == 0
    ensures ProgramRun(cfg, es + part)
  {
    assert (es + part)[..|es|] == es && (es + part)[|es|..] == part;
    assert part != [];
  }

  // ----- the run

  /** A program run that ends in a state of Ready, after the ring was filled and the kernel took all. */
  lemma Configured(cfg: Config) returns (es: seq<Event>, s: State)
    requires cfg.Valid() && !cfg.atomicRx && 2 <= cfg.fillSize <= cfg.frames
    ensures ProgramRun(cfg, es) && StateAfter(cfg, es) == Some(s) && Ready(s)
  {
    var init, n := Init(cfg), cfg.fillSize;
    InitialCount(cfg, cfg.frames, Every);
    ViaStart(cfg, [], init);
    s := init.(spare := 0, free := Left(init.free, n), krx := init.krx + Served(init.free, n));
    ViaCycled(cfg, [], [], init, n, s);
    var steps := [] + RefillSteps(n);
    es :| Leads(cfg, [], es, steps, s);
    assert [] + es == es && steps == RefillSteps(n);
  }

  lemma ViaServed(cfg: Config, es: seq<Event>, s: State, p: State, t: State)
    requires cfg.Valid() && !cfg.atomicRx && StateAfter(cfg, es) == Some(s) && Via(cfg, es, [PeekRx(1)], p)
    requires p.todo == 0 && p.staged == [] && p.fill == [] && p.spare == 0 && p.free == s.free
    requires 0 < cfg.fillSize <= |s.free|
    requires t == p.(free := Left(s.free, cfg.fillSize), krx := p.krx + Served(s.free, cfg.fillSize))
    ensures Via(cfg, es, [PeekRx(1)] + [RefreshFill] + RefillSteps(cfg.fillSize), t)
  {
    StackIsReal(cfg, es, s);
    var looked := p.(spare := cfg.fillSize);
    ViaLooked(cfg, es, [PeekRx(1)], p, looked);
    ViaCycled(cfg, es, [PeekRx(1)] + [RefreshFill], looked, cfg.fillSize, t);
  }

  lemma BatchBegins(s: State, n: nat)
    requires s.spare == 0
    ensures s.free == [] ==> [PeekRx(1)] == [PeekRx(1)] + (LookSteps(s) + RefillSteps(0))
    ensures s.free != [] ==>
              [PeekRx(1)] + [RefreshFill] + RefillSteps(n) == [PeekRx(1)] + (LookSteps(s) + RefillSteps(n))
  {
  }

  /** A batch that finds the stack empty. */
  lemma EmptyStackBatch(cfg: Config, es: seq<Event>, s: State) returns (next: seq<Event>, t: State)
    requires cfg.Valid() && cfg.rxSize > 0 && cfg.frameSize >= 14 && s.free == []
    requires ProgramRun(cfg, es) && StateAfter(cfg, es) == Some(s) && Ready(s)
    ensures ProgramRun(cfg, next) && StateAfter(cfg, next) == Some(t) && Ready(t) && |t.free| == 1
  {
    var d := ViaPeeked(cfg, es, s);
    BatchBegins(s, 0);
    next := BatchEnds(cfg, es, s, 0, [PeekRx(1)], Peeked(s, d), d);
    t := Freed(Peeked(s, d), d);
  }

  /** A batch whose refill can be served, and after which the kernel takes all of it. */
  lemma ServedBatch(cfg: Config, es: seq<Event>, s: State) returns (next: seq<Event>, t: State)
    requires cfg.Valid() && !cfg.atomicRx && cfg.rxSize > 0 && cfg.frameSize >= 14 && 2 <= cfg.fillSize <= |s.free|
    requires ProgramRun(cfg, es) && StateAfter(cfg, es) == Some(s) && Ready(s)
    ensures ProgramRun(cfg, next) && StateAfter(cfg, next) == Some(t) && Ready(t)
    ensures |t.free| == |s.free| - cfg.fillSize + 1
  {
    var d := ViaPeeked(cfg, es, s);
    var n := cfg.fillSize;
    var u := Peeked(s, d).(free := Left(s.free, n), krx := s.krx[1..] + Served(s.free, n));
    ViaServed(cfg, es, s, Peeked(s, d), u);
    BatchBegins(s, n);
    next := BatchEnds(cfg, es, s, n, [PeekRx(1)] + [RefreshFill] + RefillSteps(n), u, d);
    t := Freed(u, d);
  }

  /** The program run that leads to a stack neither empty nor high enough for the ring. */
  lemma StackRunsLow(cfg: Config, es: seq<Event>, s: State) returns (next: seq<Event>, t: State)
    requires cfg.Valid() && !cfg.atomicRx && cfg.rxSize > 0 && cfg.frameSize >= 14 && 2 <= cfg.fillSize
    requires ProgramRun(cfg, es) && StateAfter(cfg, es) == Some(s) && Ready(s)
    ensures ProgramRun(cfg, next) && StateAfter(cfg, next) == Some(t) && Ready(t) && 0 < |t.free| < cfg.fillSize
    decreases if s.free == [] then 1 else if |s.free| < cfg.fillSize then 0 else |s.free|
  {
    if 0 < |s.free| < cfg.fillSize {
      return es, s;
    }
    if s.free == [] {
      next, t := EmptyStackBatch(cfg, es, s);
    } else {
      next, t := ServedBatch(cfg, es, s);
    }
    next, t := StackRunsLow(cfg, next, t);
  }

  /** Without the assumption on the kernel the program can hand INVALID_UMEM_FRAME to it, however many
      frames there are and with replies on or off, if the FILL ring has at least two slots: it
      configures the socket, handles some batches, and then, in the batch that begins after es, peeks
      a packet and refills. s is the state at line 349, t the one after line 367. */
  lemma RefillCanUnderflow(cfg: Config) returns (es: seq<Event>, before: State, part: seq<Event>, s: State, t: State)
    requires cfg.Valid() && !cfg.atomicRx && 2 <= cfg.fillSize <= cfg.frames && cfg.rxSize > 0 && cfg.frameSize >= 14
    ensures ProgramRun(cfg, es) && StateAfter(cfg, es) == Some(before)
    ensures StateAfter(cfg, es + part) == Some(s) && UserSteps(part) == [PeekRx(1)]
    ensures Via(cfg, es + part, LookSteps(before) + RefillSteps(cfg.fillSize), t)
    ensures Refilled(cfg, s, t, cfg.fillSize) && INVALID_UMEM_FRAME in t.fill
  {
    es, before := Configured(cfg);
    es, before := StackRunsLow(cfg, es, before);
    var d := ViaPeeked(cfg, es, before);
    s := Peeked(before, d);
    part :| Leads(cfg, es, part, [PeekRx(1)], s);
    t := Underflows(cfg, es + part, s);
  }

  lemma Underflows(cfg: Config, es: seq<Event>, s: State) returns (t: State)
    requires cfg.Valid() && StateAfter(cfg, es) == Some(s) && 0 < |s.free| < cfg.fillSize
    requires s.todo == 0 && s.staged == [] && s.fill == [] && s.spare == 0
    ensures Via(cfg, es, [RefreshFill] + RefillSteps(cfg.fillSize), t)
    ensures Refilled(cfg, s, t, cfg.fillSize) && INVALID_UMEM_FRAME in t.fill
  {
    var n := cfg.fillSize;
    t := s.(free := Left(s.free, n), fill := Served(s.free, n));
    ViaStart(cfg, es, s);
    ViaLooked(cfg, es, [], s, s.(spare := n));
    assert [] + [RefreshFill] == [RefreshFill];
    ViaRefilled(cfg, es, [RefreshFill], s.(spare := n), n, t);
    StackIsReal(cfg, es, s);
    ServedInvalid(s.free, n);
    assert t.fill[|t.fill| - n..] == t.fill;
  }

  // ----- exactly when

  /** es is a run in program order, up to any point: in the configuration, or in a batch. */
  ghost predicate InProgramOrder(cfg: Config, es: seq<Event>)
    requires cfg.Valid()
  {
    StateAfter(cfg, es).Some? &&
    (|| UserSteps(es) <= RefillSteps(cfg.fillSize)
     || exists k: nat, batch: seq<Event>, n: nat, m: nat, done: nat :: k <= |es| && ProgramRun(cfg, es[..k]) &&
          IsBatch(batch, StateAfter(cfg, es[..k]).value, n, m, done, cfg.replies) && UserSteps(es[k..]) <= batch)
  }

  lemma Parts(es: seq<Event>, k: nat)
    requires k <= |es|
    ensures es[..k] + es[k..] == es
  {
  }

  lemma {:induction false} UserStepsConcat(a: seq<Event>, b: seq<Event>)
    ensures UserSteps(a + b) == UserSteps(a) + UserSteps(b)
  {
    if |b| == 0 {
      assert a + b == a;
    } else {
      var front, e := b[..|b| - 1], b[|b| - 1];
      UserStepsConcat(a, front);
      UserStepsNext(front, e);
      UserStepsNext(a + front, e);
      Regroup(a, front, [e]);
      Parts(b, |b| - 1);
      assert b[|b| - 1..] == [e];
    }
  }

  lemma LastStep(cfg: Config, front: seq<Event>, part: seq<Event>) returns (rest: seq<Event>, e: Event)
    requires cfg.Valid() && part != [] && StateAfter(cfg, front + part).Some?
    ensures part == rest + [e] && UserSteps(part) == UserSteps(rest) + if IsKernelEvent(e) then [] else [e]
    ensures StateAfter(cfg, front + rest).Some? && Enabled(cfg, StateAfter(cfg, front + rest).value, e)
    ensures StateAfter(cfg, front + part) == Some(Apply(cfg, StateAfter(cfg, front + rest).value, e))
  {
    rest, e := part[..|part| - 1], part[|part| - 1];
    assert part == rest + [e];
    Regroup(front, rest, [e]);
    StateOfLast(cfg, front + rest, e);
    UserStepsNext(rest, e);
  }

  lemma StateOfLast(cfg: Config, es: seq<Event>, e: Event)
    requires cfg.Valid() && StateAfter(cfg, es + [e]).Some?
    ensures StateAfter(cfg, es).Some? && Enabled(cfg, StateAfter(cfg, es).value, e)
    ensures StateAfter(cfg, es + [e]) == Some(Apply(cfg, StateAfter(cfg, es).value, e))
  {
    assert (es + [e])[..|es|] == es;
  }

  /** A step, with what the first steps of a refill leave alone. */
  lemma StepLeaves(cfg: Config, s: State, e: Event)
    requires cfg.Valid() && Enabled(cfg, s, e)
    ensures IsKernelEvent(e) || e.PeekRx? || e.RefreshFill? ==> Apply(cfg, s, e).free == s.free
    ensures IsKernelEvent(e) || !(e.RefreshFill? || e.ReserveFill?) ==> Apply(cfg, s, e).spare == s.spare
  {
  }

  /** Filling the ring at the start takes only frames that are there. */
  lemma {:induction false} ConfigurationClean(cfg: Config, es: seq<Event>)
    requires cfg.Valid() && StateAfter(cfg, es).Some? && 0 < cfg.fillSize <= cfg.frames
    requires UserSteps(es) <= RefillSteps(cfg.fillSize)
    ensures var s := StateAfter(cfg, es).value;
            && Clean(s) && (UserSteps(es) == [] ==> s.free == Init(cfg).free && s.spare == cfg.fillSize)
            && (UserSteps(es) != [] ==> s.spare == 0)
  {
    if es == [] {
    } else {
      assert [] + es == es;
      var rest, e := LastStep(cfg, [], es);
      assert [] + rest == rest;
      var s := StateAfter(cfg, rest).value;
      ConfigurationClean(cfg, rest);
      RunInv(cfg, rest);
      StepLeaves(cfg, s, e);
      if !IsKernelEvent(e) {
        FillingStep(UserSteps(rest), e, cfg.fillSize);
      }
      if !e.ReserveFill? {
        StepClean(cfg, s, e);
      }
    }
  }

  lemma FillingStep(before: seq<Event>, e: Event, n: nat)
    requires n > 0 && before + [e] <= RefillSteps(n)
    ensures e.ReserveFill? || e.StageFrame? || e.SubmitFill?
    ensures e.ReserveFill? <==> before == []
    ensures before == [] ==> e == ReserveFill(n)
  {
    assert RefillSteps(n)[|before|] == e;
  }

  /** The steps of a batch, one by one: a reservation is only behind the look. */
  lemma BatchStep(before: seq<Event>, e: Event, batch: seq<Event>, s: State, n: nat, m: nat, done: nat,
                  replies: bool)
    requires IsBatch(batch, s, n, m, done, replies) && before + [e] <= batch
    ensures |before| < 1 + |LookSteps(s)| ==> e == if |before| == 0 then PeekRx(n) else RefreshFill
    ensures e.ReserveFill? ==> |before| == 1 + |LookSteps(s)| && e == ReserveFill(m) && m > 0
    ensures e.RefreshFill? ==> |LookSteps(s)| == 1
  {
    var handled: seq<Event> :|
      && |handled| == n && AllHandled(handled, replies)
      && batch == [PeekRx(n)] + (LookSteps(s) + RefillSteps(m)) + handled + [ReleaseRx] + CompletionSteps(done);
    assert batch[|before|] == e;
    BatchPart(batch, LookSteps(s) + RefillSteps(m), handled, CompletionSteps(done), n, |before|);
    if 1 <= |before| < 1 + |LookSteps(s) + RefillSteps(m)| {
      RefillStepAt(s, m, |before| - 1);
    } else if |before| > 0 {
      LaterSteps(handled, done, replies, e);
    }
  }

  lemma LaterSteps(handled: seq<Event>, done: nat, replies: bool, e: Event)
    requires AllHandled(handled, replies) && (e in handled || e == ReleaseRx || e in CompletionSteps(done))
    ensures !e.ReserveFill? && !e.RefreshFill?
  {
    CompletionStepsOnly(done);
  }

  lemma RefillStepAt(s: State, m: nat, i: nat)
    requires i < |LookSteps(s) + RefillSteps(m)|
    ensures var e := (LookSteps(s) + RefillSteps(m))[i];
            if i < |LookSteps(s)| then e == RefreshFill
            else if i == |LookSteps(s)| then m > 0 && e == ReserveFill(m)
            else e.StageFrame? || e.SubmitFill?
  {
  }

  lemma CompletionStepsOnly(done: nat)
    ensures forall e :: e in CompletionSteps(done) ==> e.PeekComp? || e.FreeCompleted? || e.ReleaseComp?
  {
  }

  lemma BatchPart(batch: seq<Event>, refill: seq<Event>, handled: seq<Event>, done: seq<Event>, n: nat, i: nat)
    requires batch == [PeekRx(n)] + refill + handled + [ReleaseRx] + done && i < |batch|
    ensures if i == 0 then batch[i] == PeekRx(n)
            else if i < 1 + |refill| then batch[i] == refill[i - 1]
            else batch[i] in handled || batch[i] == ReleaseRx || batch[i] in done
  {
    PartOf([PeekRx(n)], refill, handled, [ReleaseRx], done, i);
  }

  lemma PartOf(a: seq<Event>, b: seq<Event>, c: seq<Event>, d: seq<Event>, z: seq<Event>, i: nat)
    requires i < |a + b + c + d + z|
    ensures var e := (a + b + c + d + z)[i];
            if i < |a| then e == a[i]
            else if i < |a| + |b| then e == b[i - |a|]
            else if i < |a| + |b| + |c| then e == c[i - |a| - |b|]
            else if i < |a| + |b| + |c| + |d| then e == d[i - |a| - |b| - |c|]
            else e == z[i - |a| - |b| - |c| - |d|]
  {
  }

  /** With a single slot, a batch that begins with no slot shown reserves one only if the stack was
      found not to be empty, and nothing pops it in between. */
  lemma {:induction false} SingleSlotBatch(cfg: Config, es: seq<Event>, part: seq<Event>, batch: seq<Event>, n: nat,
                                           m: nat, done: nat)
    requires cfg.Valid() && cfg.fillSize == 1 && StateAfter(cfg, es).Some? && StateAfter(cfg, es + part).Some?
    requires Clean(StateAfter(cfg, es).value) && StateAfter(cfg, es).value.spare == 0
    requires IsBatch(batch, StateAfter(cfg, es).value, n, m, done, cfg.replies) && UserSteps(part) <= batch
    ensures var s, t := StateAfter(cfg, es).value, StateAfter(cfg, es + part).value;
            && Clean(t)
            && (|UserSteps(part)| <= 1 + |LookSteps(s)| ==> t.free == s.free && (LookSteps(s) == [] ==> t.spare == 0))
  {
    if part == [] {
      assert es + part == es;
    } else {
      var rest, e := LastStep(cfg, es, part);
      SingleSlotBatch(cfg, es, rest, batch, n, m, done);
      var s, t := StateAfter(cfg, es).value, StateAfter(cfg, es + rest).value;
      RunInv(cfg, es + rest);
      StepLeaves(cfg, t, e);
      if !IsKernelEvent(e) {
        BatchStep(UserSteps(rest), e, batch, s, n, m, done, cfg.replies);
      }
      if !e.ReserveFill? {
        StepClean(cfg, t, e);
      }
    }
  }

  lemma {:induction false} SingleSlotRun(cfg: Config, es: seq<Event>)
    requires cfg.Valid() && cfg.fillSize == 1 <= cfg.frames && ProgramRun(cfg, es)
    ensures Clean(StateAfter(cfg, es).value) && StateAfter(cfg, es).value.spare == 0
    decreases |es|
  {
    if UserSteps(es) == RefillSteps(cfg.fillSize) {
      ConfigurationClean(cfg, es);
    } else {
      var k: nat, n: nat, m: nat, done: nat :| k < |es| && ProgramRun(cfg, es[..k]) && n > 0 &&
        IsBatch(UserSteps(es[k..]), StateAfter(cfg, es[..k]).value, n, m, done, cfg.replies);
      SingleSlotRun(cfg, es[..k]);
      SingleSlotNext(cfg, es, k, UserSteps(es[k..]), n, m, done);
    }
  }

  lemma SingleSlotNext(cfg: Config, es: seq<Event>, k: nat, batch: seq<Event>, n: nat, m: nat, done: nat)
    requires cfg.Valid() && cfg.fillSize == 1 && k <= |es|
    requires StateAfter(cfg, es[..k]).Some? && StateAfter(cfg, es).Some?
    requires Clean(StateAfter(cfg, es[..k]).value) && StateAfter(cfg, es[..k]).value.spare == 0
    requires IsBatch(batch, StateAfter(cfg, es[..k]).value, n, m, done, cfg.replies) && UserSteps(es[k..]) <= batch
    ensures Clean(StateAfter(cfg, es).value)
  {
    Parts(es, k);
    SingleSlotBatch(cfg, es[..k], es[k..], batch, n, m, done);
  }

  lemma SingleSlotClean(cfg: Config, es: seq<Event>)
    requires cfg.Valid() && cfg.fillSize == 1 <= cfg.frames && InProgramOrder(cfg, es)
    ensures INVALID_UMEM_FRAME !in StateAfter(cfg, es).value.fill
  {
    if UserSteps(es) <= RefillSteps(cfg.fillSize) {
      ConfigurationClean(cfg, es);
    } else {
      var k: nat, batch: seq<Event>, n: nat, m: nat, done: nat :| k <= |es| && ProgramRun(cfg, es[..k]) &&
        IsBatch(batch, StateAfter(cfg, es[..k]).value, n, m, done, cfg.replies) && UserSteps(es[k..]) <= batch;
      SingleSlotRun(cfg, es[..k]);
      SingleSlotNext(cfg, es, k, batch, n, m, done);
    }
  }

  /** Some run in program order shows the kernel an INVALID_UMEM_FRAME. */
  ghost predicate CanUnderflow(cfg: Config)
    requires cfg.Valid()
  {
    exists es: seq<Event> :: InProgramOrder(cfg, es) && INVALID_UMEM_FRAME in StateAfter(cfg, es).value.fill
  }

  lemma UnderflowsInOrder(cfg: Config)
    requires cfg.Valid() && !cfg.atomicRx && 2 <= cfg.fillSize <= cfg.frames && cfg.rxSize > 0 && cfg.frameSize >= 14
    ensures CanUnderflow(cfg)
  {
    var es, before, part, s, t := RefillCanUnderflow(cfg);
    var more :| Leads(cfg, es + part, more, LookSteps(before) + RefillSteps(cfg.fillSize), t);
    InTheBatch(cfg, es, before, part, more, cfg.fillSize);
  }

  /** With more slots than frames already the configuration does. */
  lemma ConfigurationUnderflows(cfg: Config)
    requires cfg.Valid() && cfg.frames < cfg.fillSize
    ensures CanUnderflow(cfg)
  {
    var init, n := Init(cfg), cfg.fillSize;
    var t := init.(spare := 0, free := Left(init.free, n), fill := Served(init.free, n));
    ViaStart(cfg, [], init);
    ViaRefilled(cfg, [], [], init, n, t);
    var steps := [] + RefillSteps(n);
    var es :| Leads(cfg, [], es, steps, t);
    assert [] + es == es && steps == RefillSteps(n);
    InitialCount(cfg, cfg.frames, Every);
    ServedInvalid(init.free, n);
    assert InProgramOrder(cfg, es);
  }

  /** So, for a kernel that holds frames between FILL and RX, the program in its order hands
      INVALID_UMEM_FRAME to it in some run unless, and only unless, the FILL ring has a single slot
      and there is a frame for it. */
  lemma UnderflowExact(cfg: Config)
    requires cfg.Valid() && !cfg.atomicRx && cfg.fillSize > 0 && cfg.rxSize > 0 && cfg.frameSize >= 14
    ensures CanUnderflow(cfg) <==> cfg.fillSize > 1 || cfg.frames == 0
  {
    if cfg.frames < cfg.fillSize {
      ConfigurationUnderflows(cfg);
    } else if cfg.fillSize == 1 {
      forall es | InProgramOrder(cfg, es) ensures INVALID_UMEM_FRAME !in StateAfter(cfg, es).value.fill {
        SingleSlotClean(cfg, es);
      }
    } else {
      UnderflowsInOrder(cfg);
    }
  }

  lemma InTheBatch(cfg: Config, es: seq<Event>, before: State, part: seq<Event>, more: seq<Event>, m: nat)
    requires cfg.Valid() && ProgramRun(cfg, es) && StateAfter(cfg, es) == Some(before)
    requires UserSteps(part) == [PeekRx(1)] && UserSteps(more) == LookSteps(before) + RefillSteps(m)
    requires StateAfter(cfg, es + part + more).Some?
    ensures InProgramOrder(cfg, es + part + more)
  {
    var user := [PeekRx(1)] + (LookSteps(before) + RefillSteps(m));
    var batch := user + [FreePacket] + [ReleaseRx];
    BatchOfOne(before, m, user, batch, cfg.replies);
    UserStepsConcat(part, more);
    Regroup(es, part, more);
    OrderedBy(cfg, es, part + more, batch, 1, m, 0);
  }

  lemma OrderedBy(cfg: Config, front: seq<Event>, part: seq<Event>, batch: seq<Event>, n: nat, m: nat, done: nat)
    requires cfg.Valid() && ProgramRun(cfg, front) && StateAfter(cfg, front + part).Some?
    requires IsBatch(batch, StateAfter(cfg, front).value, n, m, done, cfg.replies) && UserSteps(part) <= batch
    ensures InProgramOrder(cfg, front + part)
  {
    var es := front + part;
    assert es[..|front|] == front && es[|front|..] == part;
  }
}
