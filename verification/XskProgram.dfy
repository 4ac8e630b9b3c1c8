/** The order in which advanced03-AF_XDP/af_xdp_user.c takes the steps of the frame-ownership machine,
    and what its refill stages. */
module XskProgram {
  import opened Bytes
  import opened XskMachine
  import opened XskInvariants

  predicate IsKernelEvent(e: Event) {
    e.KernelTakesFill? || e.KernelDelivers? || e.KernelReceives? || e.KernelTakesTx? || e.KernelCompletes?
  }

  /** What the kernel cannot change. */
  function UserPart(s: State): State {
    s.(fill := [], krx := [], rx := [], tx := [], ktx := [], comp := [])
  }

  /** The steps of user space in a run, in their order. */
  function UserSteps(es: seq<Event>): seq<Event> {
    if |es| == 0 then []
    else UserSteps(es[..|es| - 1]) + if IsKernelEvent(es[|es| - 1]) then [] else [es[|es| - 1]]
  }

  function Repeated(e: Event, n: nat): (r: seq<Event>)
    ensures |r| == n
  {
    seq(n, _ => e)
  }

  lemma RepeatedNext(e: Event, n: nat)
    ensures Repeated(e, n + 1) == Repeated(e, n) + [e]
  {
  }

  /** The fresh look at the consumer index with which a refill begins, unless the local copy shows a
      free slot for every frame on the stack. */
  function LookSteps(s: State): seq<Event> {
    if s.spare >= |s.free| then [] else [RefreshFill]
  }

  /** The rest of a refill: if there is room, a reservation, exactly that many slots written, and one
      submission. */
  function RefillSteps(n: nat): seq<Event> {
    if n == 0 then [] else [ReserveFill(n)] + Repeated(StageFrame, n) + [SubmitFill]
  }

  /** The steps of collecting n completions. */
  function CompletionSteps(n: nat): seq<Event> {
    if n == 0 then [] else [PeekComp(n)] + Repeated(FreeCompleted, n) + [ReleaseComp]
  }

  predicate AllHandled(t: seq<Event>, replies: bool) {
    forall i :: 0 <= i < |t| ==> t[i] == FreePacket || (replies && t[i] == ReplyPacket)
  }

  /** The steps of handle_receive_packets for a batch of n packets that began in s, with a refill of
      m slots and done completions collected. */
  ghost predicate IsBatch(t: seq<Event>, s: State, n: nat, m: nat, done: nat, replies: bool) {
    exists handled: seq<Event> ::
      && |handled| == n && AllHandled(handled, replies)
      && t == [PeekRx(n)] + (LookSteps(s) + RefillSteps(m)) + handled + [ReleaseRx] + CompletionSteps(done)
  }

  lemma Regroup(a: seq<Event>, b: seq<Event>, c: seq<Event>)
    ensures a + b + c == a + (b + c)
  {
  }

  lemma FiveAppended(before: seq<Event>, a: seq<Event>, b: seq<Event>, c: seq<Event>, d: seq<Event>, e: seq<Event>)
    ensures before + a + b + c + d + e == before + (a + b + c + d + e)
  {
    Regroup(before, a, b);
    Regroup(before, a + b, c);
    Regroup(before, a + b + c, d);
    Regroup(before, a + b + c + d, e);
  }

  lemma Tail(before: seq<Event>, after: seq<Event>)
    ensures before <= before + after && (before + after)[|before|..] == after
  {
  }

  lemma BatchSteps(before: seq<Event>, s: State, refill: seq<Event>, m: nat, handled: seq<Event>, done: nat, n: nat,
                   replies: bool)
    requires refill == LookSteps(s) + RefillSteps(m) && |handled| == n && AllHandled(handled, replies)
    ensures var after := before + [PeekRx(n)] + refill + handled + [ReleaseRx] + CompletionSteps(done);
            before <= after && IsBatch(after[|before|..], s, n, m, done, replies)
  {
    var batch := [PeekRx(n)] + refill + handled + [ReleaseRx] + CompletionSteps(done);
    assert IsBatch(batch, s, n, m, done, replies);
    FiveAppended(before, [PeekRx(n)], refill, handled, [ReleaseRx], CompletionSteps(done));
    Tail(before, batch);
  }

  lemma RefillTrace(before: seq<Event>, look: seq<Event>, n: nat)
    ensures before + look + RefillSteps(n) == before + (look + RefillSteps(n))
    ensures n == 0 ==> before + look == before + (look + RefillSteps(n))
  {
    if n == 0 {
      assert look + RefillSteps(n) == look;
    }
  }

  lemma EmptyRefill(before: seq<Event>, t: State)
    ensures before == before + RefillSteps(0)
    ensures TookFrom(t.free, t, 0)
  {
  }

  lemma FilledTrace(before: seq<Event>, n: nat)
    requires n > 0
    ensures before + [ReserveFill(n)] + Repeated(StageFrame, n) + [SubmitFill] == before + RefillSteps(n)
  {
  }

  /** The steps of one reservation of n slots: a look at the consumer index unless the local copy
      shows them, and the reservation if it succeeds. */
  function ReserveSteps(n: nat, shown: bool, ok: bool): seq<Event> {
    (if shown then [] else [RefreshFill]) + if ok then [ReserveFill(n)] else []
  }

  /** The steps of filling the ring completely. */
  function StuffSteps(n: nat, shown: bool, ok: bool): seq<Event> {
    (if shown then [] else [RefreshFill]) + if ok then RefillSteps(n) else []
  }

  lemma StuffTrace(before: seq<Event>, n: nat, shown: bool)
    requires n > 0
    ensures before + ReserveSteps(n, shown, true) + Repeated(StageFrame, n) + [SubmitFill]
         == before + StuffSteps(n, shown, true)
    ensures ReserveSteps(n, shown, false) == StuffSteps(n, shown, false)
    ensures ReserveSteps(n, true, true) == [ReserveFill(n)]
  {
    var look := if shown then [] else [RefreshFill];
    FilledTrace(before + look, n);
    assert before + ReserveSteps(n, shown, true) == before + look + [ReserveFill(n)];
    assert before + look + RefillSteps(n) == before + StuffSteps(n, shown, true);
  }

  lemma CompletionTrace(before: seq<Event>, n: nat)
    ensures n == 0 ==> before == before + CompletionSteps(n)
    ensures n > 0 ==> before + [PeekComp(n)] + Repeated(FreeCompleted, n) + [ReleaseComp] == before + CompletionSteps(n)
  {
  }

  // ----- what the refill stages

  /** The slots that lines 349 to 351 ask for: those the local copy shows free, if it shows one for
      every frame on the stack, and else those that are free in truth. */
  function RefillCount(cfg: Config, s: State): int {
    if s.spare >= |s.free| then s.spare else cfg.fillSize - |s.fill|
  }

  /** What n calls of xsk_alloc_umem_frame return, the first one first. */
  function Served(free: seq<u64>, n: nat): (r: seq<u64>)
    ensures |r| == n
  {
    seq(n, i => if 0 <= i < |free| then free[|free| - 1 - i] else INVALID_UMEM_FRAME)
  }

  /** The stack after them. */
  function Left(free: seq<u64>, n: nat): seq<u64> {
    if n <= |free| then free[..|free| - n] else []
  }

  lemma ServedNext(free: seq<u64>, n: nat)
    ensures var stack := Left(free, n);
            && Served(free, n + 1) == Served(free, n) + [if stack == [] then INVALID_UMEM_FRAME else stack[|stack| - 1]]
            && Left(free, n + 1) == if stack == [] then [] else stack[..|stack| - 1]
  {
  }

  lemma ServedInvalid(free: seq<u64>, n: nat)
    requires INVALID_UMEM_FRAME !in free
    ensures INVALID_UMEM_FRAME in Served(free, n) <==> n > |free|
  {
    if n > |free| {
      assert Served(free, n)[|free|] == INVALID_UMEM_FRAME;
    }
  }

  /** In t n entries have been taken from the stack, and they are the last n of the FILL ring. */
  predicate TookFrom(free: seq<u64>, t: State, n: nat) {
    t.free == Left(free, n) && n <= |t.fill| && t.fill[|t.fill| - n..] == Served(free, n)
  }

  /** t is the state a refill of n slots ends in when it began in s. */
  predicate Refilled(cfg: Config, s: State, t: State, n: nat) {
    n == RefillCount(cfg, s) && TookFrom(s.free, t, n)
  }

  /** The refill hands INVALID_UMEM_FRAME to the kernel unless the local copy shows exactly as many
      slots as there are frames on the stack, or no more slots are free than that. If none was
      handed over before, the second case is that at most frames - fillSize frames are outside
      stack and FILL ring. */
  lemma RefillExact(cfg: Config, s: State)
    requires cfg.Valid() && Inv(cfg, s) && s.todo == 0 && s.staged == []
    ensures 0 <= RefillCount(cfg, s)
    ensures INVALID_UMEM_FRAME in Served(s.free, RefillCount(cfg, s)) <==>
              !(s.spare == |s.free| || cfg.fillSize - |s.fill| <= |s.free|)
    ensures Clean(s) ==>
              (INVALID_UMEM_FRAME in Served(s.free, RefillCount(cfg, s)) <==>
               !(s.spare == |s.free| || Outside(cfg, s, Every) + cfg.fillSize <= cfg.frames))
  {
    ServedInvalid(s.free, RefillCount(cfg, s));
    if Clean(s) {
      CleanTotal(cfg, s);
    }
  }

  // ----- what the kernel does on its own

  /** The address the kernel writes into a ring in step e. */
  function AddressOf(cfg: Config, s: State, e: Event): u64
    requires cfg.Valid() && Enabled(cfg, s, e)
  {
    match e
    case KernelDelivers(i, off, len) => DeliveredAt(cfg, s.krx[i], off)
    case KernelReceives(off, len) => DeliveredAt(cfg, s.fill[0], off)
    case KernelCompletes(i) => s.ktx[i].addr
    case _ => 0
  }
}
