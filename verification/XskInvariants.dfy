/** What every run of the frame-ownership machine keeps. */
module XskInvariants {
  import opened Bytes
  import opened Division
  import opened Word32
  import opened XskMachine

  // ----- runs

  /** umem_frame_addr after xsk_configure_socket has filled it. */
  function InitialStack(cfg: Config, n: nat): (stack: seq<u64>)
    requires cfg.Valid() && n <= cfg.frames
    ensures |stack| == n
  {
    if n == 0 then []
    else
      Below(n - 1, cfg.frames, cfg.frameSize);
      InitialStack(cfg, n - 1) + [(n - 1) * cfg.frameSize]
  }

  lemma Below(c: nat, n: nat, f: nat)
    requires c < n && f > 0
    ensures c * f < n * f
    ensures c * f + f <= n * f
  {
    assert n * f == c * f + (n - c) * f;
    MulMonotonic(c + 1, n, f);
  }

  function Init(cfg: Config): State
    requires cfg.Valid()
  {
    State(InitialStack(cfg, cfg.frames), [], [], 0, cfg.fillSize, [], [], [], 0, [], [], [], [], 0, 0, 0, 0, 0, 0)
  }

  /** The state after the steps es from the initial one, if each is enabled in its turn. */
  function StateAfter(cfg: Config, es: seq<Event>): Option<State>
    requires cfg.Valid()
  {
    if |es| == 0 then Some(Init(cfg))
    else
      match StateAfter(cfg, es[..|es| - 1])
      case None => None
      case Some(s) => if Enabled(cfg, s, es[|es| - 1]) then Some(Apply(cfg, s, es[|es| - 1])) else None
  }

  lemma Extend(cfg: Config, es: seq<Event>, s: State, e: Event)
    requires cfg.Valid() && StateAfter(cfg, es) == Some(s) && Enabled(cfg, s, e)
    ensures StateAfter(cfg, es + [e]) == Some(Apply(cfg, s, e))
  {
    assert (es + [e])[..|es|] == es;
  }

  // ----- the invariant

  /** Every chunk is held exactly once, none is lost and none invented. */
  ghost predicate Partitioned(cfg: Config, s: State)
    requires cfg.Valid()
  {
    && Owned(cfg, s, Every) == cfg.frames
    && forall c: nat :: Owned(cfg, s, Only(c)) == if c < cfg.frames then 1 else 0
  }

  predicate WithinRings(cfg: Config, s: State) {
    && |s.fill| + |s.staged| + s.todo + s.spare <= cfg.fillSize
    && |s.rx| + |s.rxBatch| <= cfg.rxSize && s.rxDone <= |s.rxBatch|
    && |s.tx| <= cfg.txSize
    && |s.comp| + |s.compBatch| <= cfg.compSize && s.compDone <= |s.compBatch|
  }

  /** The pools that never contain INVALID_UMEM_FRAME, whatever the refill does. */
  predicate RealFrames(s: State) {
    && INVALID_UMEM_FRAME !in s.free && INVALID_UMEM_FRAME !in s.krx
    && INVALID_UMEM_FRAME !in Addrs(s.rx) && INVALID_UMEM_FRAME !in Addrs(s.rxBatch)
    && INVALID_UMEM_FRAME !in Addrs(s.tx) && INVALID_UMEM_FRAME !in Addrs(s.ktx)
    && INVALID_UMEM_FRAME !in s.comp && INVALID_UMEM_FRAME !in s.compBatch
  }

  predicate CountersAgree(s: State) {
    && s.outstandingTx == s.replied % TWO32
    && s.txPackets == s.replied
    && |s.tx| + |s.ktx| + |s.comp| + |CompHeld(s)| <= s.replied
    && s.rxPackets + s.rxDone == s.replied + s.freedAtOnce
  }

  /** A received packet lies inside the UMEM area and has at least an Ethernet header. */
  predicate Fits(cfg: Config, d: Desc) {
    14 <= d.len && d.addr + d.len <= cfg.frames * cfg.frameSize
  }

  predicate PacketsFit(cfg: Config, s: State) {
    (forall d :: d in s.rx ==> Fits(cfg, d)) && (forall d :: d in s.rxBatch ==> Fits(cfg, d))
  }

  ghost predicate Inv(cfg: Config, s: State)
    requires cfg.Valid()
  {
    Partitioned(cfg, s) && WithinRings(cfg, s) && RealFrames(s) && CountersAgree(s) && PacketsFit(cfg, s)
  }

  lemma {:induction false} InitialCount(cfg: Config, n: nat, sel: Selection)
    requires cfg.Valid() && n <= cfg.frames
    ensures INVALID_UMEM_FRAME !in InitialStack(cfg, n)
    ensures Count(cfg, InitialStack(cfg, n), sel) == match sel case Every => n case Only(c) => if c < n then 1 else 0
  {
    if n > 0 {
      InitialCount(cfg, n - 1, sel);
      Below(n - 1, cfg.frames, cfg.frameSize);
      CountSnoc(cfg, InitialStack(cfg, n - 1), (n - 1) * cfg.frameSize, sel);
      QuotientUnique((n - 1) * cfg.frameSize, n - 1, 0, cfg.frameSize);
    }
  }

  lemma InitInv(cfg: Config)
    requires cfg.Valid()
    ensures Inv(cfg, Init(cfg))
  {
    var s := Init(cfg);
    InitialCount(cfg, cfg.frames, Every);
    forall c: nat ensures Owned(cfg, s, Only(c)) == if c < cfg.frames then 1 else 0 {
      InitialCount(cfg, cfg.frames, Only(c));
    }
  }

  lemma StepPartitioned(cfg: Config, s: State, e: Event)
    requires cfg.Valid() && Partitioned(cfg, s) && WithinRings(cfg, s) && Enabled(cfg, s, e)
    ensures Partitioned(cfg, Apply(cfg, s, e))
  {
    StepConserves(cfg, s, e, Every);
    forall c: nat ensures Owned(cfg, Apply(cfg, s, e), Only(c)) == if c < cfg.frames then 1 else 0 {
      StepConserves(cfg, s, e, Only(c));
    }
  }

  lemma StepWithinRings(cfg: Config, s: State, e: Event)
    requires cfg.Valid() && WithinRings(cfg, s) && Enabled(cfg, s, e)
    ensures WithinRings(cfg, Apply(cfg, s, e))
  {
  }

  lemma StepRealFrames(cfg: Config, s: State, e: Event)
    requires cfg.Valid() && WithinRings(cfg, s) && RealFrames(s) && Enabled(cfg, s, e)
    ensures RealFrames(Apply(cfg, s, e))
  {
    var t := Apply(cfg, s, e);
    match e
    case PeekRx(n) => AddrsParts(s.rx, n);
    case FreePacket => assert s.rxBatch[s.rxDone].addr == Addrs(s.rxBatch)[s.rxDone];
    case ReplyPacket =>
      assert s.rxBatch[s.rxDone].addr == Addrs(s.rxBatch)[s.rxDone];
      AddrsSnoc(s.tx, s.rxBatch[s.rxDone]);
    case KernelDelivers(i, off, len) => AddrsSnoc(s.rx, t.rx[|t.rx| - 1]);
    case KernelReceives(off, len) => AddrsSnoc(s.rx, t.rx[|t.rx| - 1]);
    case KernelTakesTx =>
      AddrsParts(s.tx, 1);
      AddrsSnoc(s.ktx, s.tx[0]);
      assert s.tx[0].addr == Addrs(s.tx)[0];
    case KernelCompletes(i) =>
      assert s.ktx[i].addr == Addrs(s.ktx)[i];
      assert Addrs(Without(s.ktx, i)) == Without(Addrs(s.ktx), i);
    case _ =>
  }

  lemma AddrsParts(ds: seq<Desc>, n: nat)
    requires n <= |ds|
    ensures Addrs(ds[..n]) == Addrs(ds)[..n] && Addrs(ds[n..]) == Addrs(ds)[n..]
  {
  }

  lemma AddrsSnoc(ds: seq<Desc>, d: Desc)
    ensures Addrs(ds + [d]) == Addrs(ds) + [d.addr]
  {
  }

  lemma StepCounters(cfg: Config, s: State, e: Event)
    requires cfg.Valid() && WithinRings(cfg, s) && CountersAgree(s) && Enabled(cfg, s, e)
    ensures CountersAgree(Apply(cfg, s, e))
  {
    if e.ReplyPacket? {
      ReplyCounters(cfg, s);
    } else {
      OtherCounters(cfg, s, e);
    }
  }

  lemma ReplyCounters(cfg: Config, s: State)
    requires cfg.Valid() && CountersAgree(s) && Enabled(cfg, s, ReplyPacket)
    ensures CountersAgree(Apply(cfg, s, ReplyPacket))
  {
  }

  lemma OtherCounters(cfg: Config, s: State, e: Event)
    requires cfg.Valid() && WithinRings(cfg, s) && CountersAgree(s) && Enabled(cfg, s, e) && !e.ReplyPacket?
    ensures CountersAgree(Apply(cfg, s, e))
  {
    assert Apply(cfg, s, e).replied == s.replied && Apply(cfg, s, e).outstandingTx == s.outstandingTx;
  }

  lemma DeliveredFits(cfg: Config, s: State, addr: u64, off: nat, len: nat)
    requires cfg.Valid() && Partitioned(cfg, s) && Deliverable(cfg, addr, off, len)
    requires addr in s.krx || addr in s.fill
    ensures DeliveredAt(cfg, addr, off) + len <= cfg.frames * cfg.frameSize
  {
    var c := ChunkOf(cfg, addr);
    if addr in s.krx {
      var i :| 0 <= i < |s.krx| && s.krx[i] == addr;
      Present(cfg, s.krx, i);
    } else {
      var i :| 0 <= i < |s.fill| && s.fill[i] == addr;
      Present(cfg, s.fill, i);
    }
    assert Owned(cfg, s, Only(c)) >= 1;
    Below(c, cfg.frames, cfg.frameSize);
  }

  lemma StepPacketsFit(cfg: Config, s: State, e: Event)
    requires cfg.Valid() && Partitioned(cfg, s) && PacketsFit(cfg, s) && Enabled(cfg, s, e)
    ensures PacketsFit(cfg, Apply(cfg, s, e))
  {
    match e
    case KernelDelivers(i, off, len) => DeliveredFits(cfg, s, s.krx[i], off, len);
    case KernelReceives(off, len) => DeliveredFits(cfg, s, s.fill[0], off, len);
    case _ =>
  }

  /** One step, of either side, keeps the invariant. */
  lemma StepInv(cfg: Config, s: State, e: Event)
    requires cfg.Valid() && Inv(cfg, s) && Enabled(cfg, s, e)
    ensures Inv(cfg, Apply(cfg, s, e))
  {
    StepPartitioned(cfg, s, e);
    StepWithinRings(cfg, s, e);
    StepRealFrames(cfg, s, e);
    StepCounters(cfg, s, e);
    StepPacketsFit(cfg, s, e);
  }

  /** So every state of every run, however user space and the kernel interleave, satisfies it. */
  lemma {:induction false} RunInv(cfg: Config, es: seq<Event>)
    requires cfg.Valid() && StateAfter(cfg, es).Some?
    ensures Inv(cfg, StateAfter(cfg, es).value)
  {
    if |es| == 0 {
      InitInv(cfg);
    } else {
      var front := es[..|es| - 1];
      RunInv(cfg, front);
      StepInv(cfg, StateAfter(cfg, front).value, es[|es| - 1]);
    }
  }

  // ----- what the invariant means

  lemma {:induction false} AllReal(cfg: Config, pool: seq<u64>)
    requires cfg.Valid() && INVALID_UMEM_FRAME !in pool
    ensures Count(cfg, pool, Every) == |pool|
  {
    if |pool| > 0 {
      AllReal(cfg, pool[..|pool| - 1]);
    }
  }

  lemma {:induction false} CountAtMost(cfg: Config, pool: seq<u64>)
    requires cfg.Valid()
    ensures Count(cfg, pool, Every) <= |pool|
  {
    if |pool| > 0 {
      CountAtMost(cfg, pool[..|pool| - 1]);
    }
  }

  lemma {:induction false} Present(cfg: Config, pool: seq<u64>, i: nat)
    requires cfg.Valid() && i < |pool| && pool[i] != INVALID_UMEM_FRAME
    ensures Count(cfg, pool, Only(ChunkOf(cfg, pool[i]))) >= 1
  {
    if i < |pool| - 1 {
      Present(cfg, pool[..|pool| - 1], i);
    }
  }

  /** A user-space step that frees a frame finds room: the assert in xsk_free_umem_frame never
      fires. */
  lemma FreeNeverOverflows(cfg: Config, s: State)
    requires cfg.Valid() && Inv(cfg, s)
    ensures |s.free| <= cfg.frames
    ensures s.rxDone < |s.rxBatch| || s.compDone < |s.compBatch| ==> |s.free| < cfg.frames
  {
    AllReal(cfg, s.free);
    if s.rxDone < |s.rxBatch| {
      assert Addrs(s.rxBatch)[s.rxDone] != INVALID_UMEM_FRAME;
      DescsFirst(cfg, RxHeld(s), Every);
    }
    if s.compDone < |s.compBatch| {
      CountFirst(cfg, CompHeld(s), Every);
    }
  }

  /** The stack holds real frames of pairwise different chunks, and no chunk on the stack is
      anywhere else. */
  lemma StackIsDistinct(cfg: Config, s: State, i: nat, j: nat)
    requires cfg.Valid() && Inv(cfg, s) && i < j < |s.free|
    ensures ChunkOf(cfg, s.free[i]) != ChunkOf(cfg, s.free[j])
  {
    var c := ChunkOf(cfg, s.free[j]);
    assert Count(cfg, s.free, Only(c)) <= Owned(cfg, s, Only(c)) <= 1;
    CountSplit(cfg, s.free, j, Only(c));
    Present(cfg, s.free[j..], 0);
    if ChunkOf(cfg, s.free[i]) == c {
      Present(cfg, s.free[..j], i);
      assert false;
    }
  }

  lemma StackIsExclusive(cfg: Config, s: State, i: nat)
    requires cfg.Valid() && Inv(cfg, s) && i < |s.free|
    ensures var c := Only(ChunkOf(cfg, s.free[i]));
            && s.free[i] != INVALID_UMEM_FRAME && c.chunk < cfg.frames
            && Count(cfg, s.free, c) == 1 && Outside(cfg, s, c) == 0
            && Count(cfg, s.fill, c) == 0 && Count(cfg, s.staged, c) == 0
  {
    Present(cfg, s.free, i);
    assert Owned(cfg, s, Only(ChunkOf(cfg, s.free[i]))) <= 1;
  }

  /** In runs with fewer than 2^32 replies the early return of complete_tx strands nothing: a zero
      outstanding_tx means that TX, the kernel and COMPLETION hold no frame to collect. */
  lemma NothingStranded(cfg: Config, s: State)
    requires cfg.Valid() && Inv(cfg, s) && s.outstandingTx == 0
    ensures s.replied < TWO32 ==> s.tx == [] && s.ktx == [] && s.comp == [] && CompHeld(s) == []
    ensures s.replied % TWO32 == 0
  {
  }

  /** How often step e was made. */
  function Times(es: seq<Event>, e: Event): nat {
    if |es| == 0 then 0 else Times(es[..|es| - 1], e) + if es[|es| - 1] == e then 1 else 0
  }

  /** The counters count: every packet sent counts once in tx_packets and, modulo 2^32, in
      outstanding_tx, and every packet dealt with once in rx_packets when its batch is released. */
  lemma RunCounters(cfg: Config, es: seq<Event>)
    requires cfg.Valid() && StateAfter(cfg, es).Some?
    ensures var s, sent, freed := StateAfter(cfg, es).value, Times(es, ReplyPacket), Times(es, FreePacket);
            && s.replied == s.txPackets == sent && s.outstandingTx == sent % TWO32
            && s.freedAtOnce == freed && s.rxPackets + s.rxDone == sent + freed
  {
    RunInv(cfg, es);
    PacketsCounted(cfg, es);
  }

  lemma {:induction false} PacketsCounted(cfg: Config, es: seq<Event>)
    requires cfg.Valid() && StateAfter(cfg, es).Some?
    ensures StateAfter(cfg, es).value.replied == Times(es, ReplyPacket)
    ensures StateAfter(cfg, es).value.freedAtOnce == Times(es, FreePacket)
  {
    if |es| > 0 {
      var front, e := es[..|es| - 1], es[|es| - 1];
      PacketsCounted(cfg, front);
      StepCounts(cfg, StateAfter(cfg, front).value, e);
      assert Times(es, ReplyPacket) == Times(front, ReplyPacket) + if e == ReplyPacket then 1 else 0;
      assert Times(es, FreePacket) == Times(front, FreePacket) + if e == FreePacket then 1 else 0;
    }
  }

  lemma StepCounts(cfg: Config, s: State, e: Event)
    requires cfg.Valid() && Enabled(cfg, s, e)
    ensures Apply(cfg, s, e).replied == s.replied + if e == ReplyPacket then 1 else 0
    ensures Apply(cfg, s, e).freedAtOnce == s.freedAtOnce + if e == FreePacket then 1 else 0
  {
  }

  /** Between batches the receive counter is the number of packets answered plus the number freed
      at once, so it is never behind the transmit counter. */
  lemma PacketsBalance(cfg: Config, s: State)
    requires cfg.Valid() && Inv(cfg, s) && s.rxBatch == []
    ensures s.rxPackets == s.replied + s.freedAtOnce && s.txPackets <= s.rxPackets
  {
  }

  // ----- the refill

  /** No INVALID_UMEM_FRAME is in the FILL ring, and the reserved slots can all be served. */
  predicate Clean(s: State) {
    INVALID_UMEM_FRAME !in s.fill && INVALID_UMEM_FRAME !in s.staged && s.todo <= |s.free|
  }

  /** Every step but a reservation keeps a clean state clean. */
  lemma StepClean(cfg: Config, s: State, e: Event)
    requires cfg.Valid() && Inv(cfg, s) && Clean(s) && Enabled(cfg, s, e) && !e.ReserveFill?
    ensures Clean(Apply(cfg, s, e))
  {
  }

  /** Where the frames are, when nothing invalid is in the ring. */
  lemma CleanTotal(cfg: Config, s: State)
    requires cfg.Valid() && Inv(cfg, s) && Clean(s)
    ensures |s.free| + |s.fill| + |s.staged| + Outside(cfg, s, Every) == cfg.frames
  {
    AllReal(cfg, s.free);
    AllReal(cfg, s.fill);
    AllReal(cfg, s.staged);
  }

  /** If at most frames - fillSize frames are outside stack and FILL ring, any reservation the
      local copy allows, stale or fresh, can be served. */
  lemma BoundedReserveClean(cfg: Config, s: State, n: nat)
    requires cfg.Valid() && Inv(cfg, s) && Clean(s) && Enabled(cfg, s, ReserveFill(n))
    requires Outside(cfg, s, Every) + cfg.fillSize <= cfg.frames
    ensures Clean(Apply(cfg, s, ReserveFill(n)))
  {
    CleanTotal(cfg, s);
  }

  /** For a fresh local copy, and the reservation of all free slots that the program makes, the
      bound is exact: one frame more outside, and the refill pops an empty stack. */
  lemma FreshReserveExact(cfg: Config, s: State)
    requires cfg.Valid() && Inv(cfg, s) && Clean(s) && s.todo == 0 && s.staged == []
    requires s.spare == cfg.fillSize - |s.fill|
    ensures Clean(Apply(cfg, s, ReserveFill(s.spare))) <==> Outside(cfg, s, Every) + cfg.fillSize <= cfg.frames
  {
    CleanTotal(cfg, s);
  }

  /** Every reservation of the run was made within the bound. */
  predicate BoundKept(cfg: Config, es: seq<Event>)
    requires cfg.Valid()
  {
    |es| == 0 ||
    var front, e := es[..|es| - 1], es[|es| - 1];
    && BoundKept(cfg, front)
    && (e.ReserveFill? && StateAfter(cfg, front).Some? ==>
        Outside(cfg, StateAfter(cfg, front).value, Every) + cfg.fillSize <= cfg.frames)
  }

  /** In a run whose reservations keep the bound, INVALID_UMEM_FRAME never enters the FILL ring. */
  lemma {:induction false} BoundedRunClean(cfg: Config, es: seq<Event>)
    requires cfg.Valid() && StateAfter(cfg, es).Some? && BoundKept(cfg, es)
    ensures Clean(StateAfter(cfg, es).value)
  {
    if |es| > 0 {
      var front, e := es[..|es| - 1], es[|es| - 1];
      BoundedRunClean(cfg, front);
      RunInv(cfg, front);
      var s := StateAfter(cfg, front).value;
      if e.ReserveFill? {
        BoundedReserveClean(cfg, s, e.n);
      } else {
        StepClean(cfg, s, e);
      }
    }
  }

  /** The kernel and the transmit side hold nothing. */
  predicate Quiet(s: State) {
    s.krx == [] && s.tx == [] && s.ktx == [] && s.comp == [] && s.compBatch == []
  }

  lemma QuietStep(cfg: Config, s: State, e: Event)
    requires cfg.Valid() && !cfg.replies && cfg.atomicRx && Quiet(s) && Enabled(cfg, s, e)
    ensures Quiet(Apply(cfg, s, e))
  {
  }

  /** With replies off nothing is ever transmitted, and with an atomic receive path the kernel
      holds nothing in between. */
  lemma {:induction false} QuietRun(cfg: Config, es: seq<Event>)
    requires cfg.Valid() && !cfg.replies && cfg.atomicRx && StateAfter(cfg, es).Some?
    ensures Quiet(StateAfter(cfg, es).value)
  {
    if |es| > 0 {
      QuietRun(cfg, es[..|es| - 1]);
      QuietStep(cfg, StateAfter(cfg, es[..|es| - 1]).value, es[|es| - 1]);
    }
  }

  lemma DescsAtMost(cfg: Config, pool: seq<Desc>)
    requires cfg.Valid()
    ensures CountDescs(cfg, pool, Every) <= |pool|
  {
    CountAtMost(cfg, Addrs(pool));
  }

  lemma {:induction false} QuietBound(cfg: Config, es: seq<Event>)
    requires cfg.Valid() && !cfg.replies && cfg.atomicRx && StateAfter(cfg, es).Some?
    requires cfg.fillSize + cfg.rxSize <= cfg.frames
    ensures BoundKept(cfg, es)
  {
    if |es| > 0 {
      var front := es[..|es| - 1];
      QuietBound(cfg, front);
      QuietRun(cfg, front);
      RunInv(cfg, front);
      var s := StateAfter(cfg, front).value;
      DescsAtMost(cfg, s.rx);
      DescsAtMost(cfg, RxHeld(s));
    }
  }

  /** The configuration of the program as shipped: replies off, and as many frames as the FILL and
      RX rings together have slots. If the kernel hands frames straight from FILL to RX, the
      refill never pops an empty stack in any run. */
  lemma ShippedRunClean(cfg: Config, es: seq<Event>)
    requires cfg.Valid() && !cfg.replies && cfg.atomicRx && StateAfter(cfg, es).Some?
    requires cfg.fillSize + cfg.rxSize <= cfg.frames
    ensures Clean(StateAfter(cfg, es).value)
  {
    QuietBound(cfg, es);
    BoundedRunClean(cfg, es);
  }
}
