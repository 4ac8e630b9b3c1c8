/** Who owns which UMEM frame: the steps of advanced03-AF_XDP/af_xdp_user.c and of the kernel as a
    state machine on values. Any order of enabled steps is a run. */
module XskMachine {
  import opened Bytes
  import opened Division
  import opened Word32

  const INVALID_UMEM_FRAME: u64 := 0xFFFF_FFFF_FFFF_FFFF
  const RX_BATCH_SIZE: nat := 64

  datatype Desc = Desc(addr: u64, len: u32)

  /** The sizes, whether process_packet answers packets, and whether the kernel moves a frame
      from FILL to RX in one step, holding none in between. */
  datatype Config = Config(frames: nat, frameSize: nat, fillSize: nat, rxSize: nat, txSize: nat, compSize: nat,
                           replies: bool, atomicRx: bool)
  {
    predicate Valid() {
      frameSize > 0 && frames * frameSize <= INVALID_UMEM_FRAME
    }
  }

  /** free is the stack below umem_frame_free. fill, rx, tx and comp are ring entries the consumer
      has not taken; staged are FILL slots written but not submitted, todo counts slots reserved
      and not yet written, and spare is the free slots the local copy of the FILL ring shows.
      rxBatch and compBatch are peeked and not released, their first rxDone and compDone entries
      dealt with. krx and ktx are frames the kernel works on. */
  datatype State = State(
    free: seq<u64>,
    fill: seq<u64>, staged: seq<u64>, todo: nat, spare: nat,
    krx: seq<u64>,
    rx: seq<Desc>, rxBatch: seq<Desc>, rxDone: nat,
    tx: seq<Desc>, ktx: seq<Desc>,
    comp: seq<u64>, compBatch: seq<u64>, compDone: nat,
    outstandingTx: u32, replied: nat, freedAtOnce: nat, rxPackets: nat, txPackets: nat)

  datatype Event =
    | RefreshFill
    | ReserveFill(n: nat)
    | StageFrame
    | SubmitFill
    | PeekRx(n: nat)
    | FreePacket
    | ReplyPacket
    | ReleaseRx
    | PeekComp(n: nat)
    | FreeCompleted
    | ReleaseComp
    | KernelTakesFill
    | KernelDelivers(i: nat, off: nat, len: nat)
    | KernelReceives(off: nat, len: nat)
    | KernelTakesTx
    | KernelCompletes(i: nat)

  function Addrs(ds: seq<Desc>): (r: seq<u64>)
    ensures |r| == |ds|
  {
    seq(|ds|, i requires 0 <= i < |ds| => ds[i].addr)
  }

  function RxHeld(s: State): seq<Desc> {
    if s.rxDone <= |s.rxBatch| then s.rxBatch[s.rxDone..] else []
  }

  function CompHeld(s: State): seq<u64> {
    if s.compDone <= |s.compBatch| then s.compBatch[s.compDone..] else []
  }

  function ChunkOf(cfg: Config, addr: u64): nat
    requires cfg.Valid()
  {
    addr / cfg.frameSize
  }

  /** The kernel puts a packet into the chunk of addr, off bytes behind its start. */
  predicate Deliverable(cfg: Config, addr: u64, off: nat, len: nat) {
    addr != INVALID_UMEM_FRAME && 14 <= len < TWO32 && off + len <= cfg.frameSize
  }

  function DeliveredAt(cfg: Config, addr: u64, off: nat): nat
    requires cfg.Valid()
  {
    ChunkOf(cfg, addr) * cfg.frameSize + off
  }

  predicate Enabled(cfg: Config, s: State, e: Event)
    requires cfg.Valid()
  {
    match e
    case RefreshFill => |s.fill| + |s.staged| + s.todo <= cfg.fillSize
    case ReserveFill(n) => s.todo == 0 && s.staged == [] && n <= s.spare
    case StageFrame => s.todo > 0
    case SubmitFill => s.todo == 0
    case PeekRx(n) => s.rxBatch == [] && 0 < n <= |s.rx| && n <= RX_BATCH_SIZE
    case FreePacket => s.rxDone < |s.rxBatch|
    case ReplyPacket => cfg.replies && s.rxDone < |s.rxBatch| && |s.tx| < cfg.txSize
    case ReleaseRx => s.rxDone == |s.rxBatch|
    case PeekComp(n) => s.compBatch == [] && 0 < n <= |s.comp|
    case FreeCompleted => s.compDone < |s.compBatch|
    case ReleaseComp => s.compDone == |s.compBatch|
    case KernelTakesFill => s.fill != [] && (cfg.atomicRx ==> s.fill[0] == INVALID_UMEM_FRAME)
    case KernelDelivers(i, off, len) =>
      && i < |s.krx| && |s.rx| + |s.rxBatch| < cfg.rxSize
      && Deliverable(cfg, s.krx[i], off, len) && DeliveredAt(cfg, s.krx[i], off) < INVALID_UMEM_FRAME
    case KernelReceives(off, len) =>
      && s.fill != [] && |s.rx| + |s.rxBatch| < cfg.rxSize
      && Deliverable(cfg, s.fill[0], off, len) && DeliveredAt(cfg, s.fill[0], off) < INVALID_UMEM_FRAME
    case KernelTakesTx => s.tx != []
    case KernelCompletes(i) => i < |s.ktx| && |s.comp| + |s.compBatch| < cfg.compSize
  }

  function Without<T>(s: seq<T>, i: nat): seq<T>
    requires i < |s|
  {
    s[..i] + s[i + 1..]
  }

  function Apply(cfg: Config, s: State, e: Event): State
    requires cfg.Valid() && Enabled(cfg, s, e)
  {
    match e
    case RefreshFill => s.(spare := cfg.fillSize - |s.fill| - |s.staged| - s.todo)
    case ReserveFill(n) => s.(todo := n, spare := s.spare - n)
    case StageFrame =>
      if s.free == [] then s.(todo := s.todo - 1, staged := s.staged + [INVALID_UMEM_FRAME])
      else s.(todo := s.todo - 1, staged := s.staged + [s.free[|s.free| - 1]], free := s.free[..|s.free| - 1])
    case SubmitFill => s.(fill := s.fill + s.staged, staged := [])
    case PeekRx(n) => s.(rx := s.rx[n..], rxBatch := s.rx[..n], rxDone := 0)
    case FreePacket =>
      s.(free := s.free + [s.rxBatch[s.rxDone].addr], rxDone := s.rxDone + 1, freedAtOnce := s.freedAtOnce + 1)
    case ReplyPacket =>
      s.(tx := s.tx + [s.rxBatch[s.rxDone]], rxDone := s.rxDone + 1, outstandingTx := Plus(s.outstandingTx, 1),
         replied := s.replied + 1, txPackets := s.txPackets + 1)
    case ReleaseRx => s.(rxBatch := [], rxDone := 0, rxPackets := s.rxPackets + |s.rxBatch|)
    case PeekComp(n) => s.(comp := s.comp[n..], compBatch := s.comp[..n], compDone := 0)
    case FreeCompleted => s.(free := s.free + [s.compBatch[s.compDone]], compDone := s.compDone + 1)
    case ReleaseComp => s.(compBatch := [], compDone := 0)
    case KernelTakesFill =>
      if s.fill[0] == INVALID_UMEM_FRAME then s.(fill := s.fill[1..])
      else s.(fill := s.fill[1..], krx := s.krx + [s.fill[0]])
    case KernelDelivers(i, off, len) =>
      s.(krx := Without(s.krx, i), rx := s.rx + [Desc(DeliveredAt(cfg, s.krx[i], off), len)])
    case KernelReceives(off, len) =>
      s.(fill := s.fill[1..], rx := s.rx + [Desc(DeliveredAt(cfg, s.fill[0], off), len)])
    case KernelTakesTx => s.(tx := s.tx[1..], ktx := s.ktx + [s.tx[0]])
    case KernelCompletes(i) => s.(ktx := Without(s.ktx, i), comp := s.comp + [s.ktx[i].addr])
  }

  // ----- counting frames

  /** What to count: every frame, or those of one chunk. */
  datatype Selection = Every | Only(chunk: nat)

  /** An INVALID_UMEM_FRAME entry stands for no frame. */
  function Weight(cfg: Config, addr: u64, sel: Selection): nat
    requires cfg.Valid()
  {
    if addr == INVALID_UMEM_FRAME then 0
    else if sel.Only? && ChunkOf(cfg, addr) != sel.chunk then 0
    else 1
  }

  function Count(cfg: Config, pool: seq<u64>, sel: Selection): nat
    requires cfg.Valid()
  {
    if |pool| == 0 then 0 else Count(cfg, pool[..|pool| - 1], sel) + Weight(cfg, pool[|pool| - 1], sel)
  }

  function CountDescs(cfg: Config, pool: seq<Desc>, sel: Selection): nat
    requires cfg.Valid()
  {
    Count(cfg, Addrs(pool), sel)
  }

  lemma {:induction false} CountConcat(cfg: Config, a: seq<u64>, b: seq<u64>, sel: Selection)
    requires cfg.Valid()
    ensures Count(cfg, a + b, sel) == Count(cfg, a, sel) + Count(cfg, b, sel)
  {
    if |b| == 0 {
      assert a + b == a;
    } else {
      assert (a + b)[..|a + b| - 1] == a + b[..|b| - 1];
      CountConcat(cfg, a, b[..|b| - 1], sel);
    }
  }

  lemma CountSnoc(cfg: Config, pool: seq<u64>, a: u64, sel: Selection)
    requires cfg.Valid()
    ensures Count(cfg, pool + [a], sel) == Count(cfg, pool, sel) + Weight(cfg, a, sel)
  {
    assert (pool + [a])[..|pool|] == pool;
  }

  lemma CountSplit(cfg: Config, pool: seq<u64>, n: nat, sel: Selection)
    requires cfg.Valid() && n <= |pool|
    ensures Count(cfg, pool, sel) == Count(cfg, pool[..n], sel) + Count(cfg, pool[n..], sel)
  {
    CountConcat(cfg, pool[..n], pool[n..], sel);
    assert pool == pool[..n] + pool[n..];
  }

  lemma CountFirst(cfg: Config, pool: seq<u64>, sel: Selection)
    requires cfg.Valid() && pool != []
    ensures Count(cfg, pool, sel) == Weight(cfg, pool[0], sel) + Count(cfg, pool[1..], sel)
  {
    CountSplit(cfg, pool, 1, sel);
    assert pool[..1] == [] + [pool[0]];
    CountSnoc(cfg, [], pool[0], sel);
  }

  lemma CountWithout(cfg: Config, pool: seq<u64>, i: nat, sel: Selection)
    requires cfg.Valid() && i < |pool|
    ensures Count(cfg, pool, sel) == Count(cfg, Without(pool, i), sel) + Weight(cfg, pool[i], sel)
  {
    CountSplit(cfg, pool, i, sel);
    CountFirst(cfg, pool[i..], sel);
    CountConcat(cfg, pool[..i], pool[i + 1..], sel);
    assert pool[i..][1..] == pool[i + 1..];
  }

  lemma DescsSnoc(cfg: Config, pool: seq<Desc>, d: Desc, sel: Selection)
    requires cfg.Valid()
    ensures CountDescs(cfg, pool + [d], sel) == CountDescs(cfg, pool, sel) + Weight(cfg, d.addr, sel)
  {
    assert Addrs(pool + [d]) == Addrs(pool) + [d.addr];
    CountSnoc(cfg, Addrs(pool), d.addr, sel);
  }

  lemma DescsSplit(cfg: Config, pool: seq<Desc>, n: nat, sel: Selection)
    requires cfg.Valid() && n <= |pool|
    ensures CountDescs(cfg, pool, sel) == CountDescs(cfg, pool[..n], sel) + CountDescs(cfg, pool[n..], sel)
  {
    assert Addrs(pool[..n]) == Addrs(pool)[..n] && Addrs(pool[n..]) == Addrs(pool)[n..];
    CountSplit(cfg, Addrs(pool), n, sel);
  }

  lemma DescsFirst(cfg: Config, pool: seq<Desc>, sel: Selection)
    requires cfg.Valid() && pool != []
    ensures CountDescs(cfg, pool, sel) == Weight(cfg, pool[0].addr, sel) + CountDescs(cfg, pool[1..], sel)
  {
    assert Addrs(pool[1..]) == Addrs(pool)[1..];
    CountFirst(cfg, Addrs(pool), sel);
  }

  lemma DescsWithout(cfg: Config, pool: seq<Desc>, i: nat, sel: Selection)
    requires cfg.Valid() && i < |pool|
    ensures CountDescs(cfg, pool, sel) == CountDescs(cfg, Without(pool, i), sel) + Weight(cfg, pool[i].addr, sel)
  {
    assert Addrs(Without(pool, i)) == Without(Addrs(pool), i);
    CountWithout(cfg, Addrs(pool), i, sel);
  }

  /** Frames selected by sel on the stack or in the FILL ring. */
  function Stocked(cfg: Config, s: State, sel: Selection): nat
    requires cfg.Valid()
  {
    Count(cfg, s.free, sel) + Count(cfg, s.fill, sel) + Count(cfg, s.staged, sel)
  }

  /** Frames selected by sel anywhere else. */
  function Outside(cfg: Config, s: State, sel: Selection): nat
    requires cfg.Valid()
  {
    Count(cfg, s.krx, sel) + CountDescs(cfg, s.rx, sel) + CountDescs(cfg, RxHeld(s), sel)
    + CountDescs(cfg, s.tx, sel) + CountDescs(cfg, s.ktx, sel) + Count(cfg, s.comp, sel) + Count(cfg, CompHeld(s), sel)
  }

  function Owned(cfg: Config, s: State, sel: Selection): nat
    requires cfg.Valid()
  {
    Stocked(cfg, s, sel) + Outside(cfg, s, sel)
  }

  lemma DeliveredChunk(cfg: Config, addr: u64, off: nat, sel: Selection)
    requires cfg.Valid() && addr != INVALID_UMEM_FRAME
    requires off < cfg.frameSize && DeliveredAt(cfg, addr, off) < INVALID_UMEM_FRAME
    ensures Weight(cfg, DeliveredAt(cfg, addr, off), sel) == Weight(cfg, addr, sel)
  {
    QuotientUnique(DeliveredAt(cfg, addr, off), ChunkOf(cfg, addr), off, cfg.frameSize);
  }

  // ----- conservation

  lemma FillStepConserves(cfg: Config, s: State, e: Event, sel: Selection)
    requires cfg.Valid() && Enabled(cfg, s, e)
    requires s.rxDone <= |s.rxBatch| && s.compDone <= |s.compBatch|
    requires e.StageFrame? || e.SubmitFill?
    ensures Owned(cfg, Apply(cfg, s, e), sel) == Owned(cfg, s, sel)
  {
    match e
    case StageFrame =>
      if s.free == [] {
        CountSnoc(cfg, s.staged, INVALID_UMEM_FRAME, sel);
      } else {
        CountSnoc(cfg, s.staged, s.free[|s.free| - 1], sel);
      }
    case SubmitFill =>
      CountConcat(cfg, s.fill, s.staged, sel);
  }

  /** The packet being worked on is the first of those held. */
  lemma HeldNext(cfg: Config, s: State, t: State, sel: Selection)
    requires cfg.Valid() && s.rxDone < |s.rxBatch| && t.rxBatch == s.rxBatch && t.rxDone == s.rxDone + 1
    ensures CountDescs(cfg, RxHeld(s), sel)
         == Weight(cfg, s.rxBatch[s.rxDone].addr, sel) + CountDescs(cfg, RxHeld(t), sel)
  {
    DescsFirst(cfg, RxHeld(s), sel);
    assert RxHeld(s)[1..] == RxHeld(t);
  }

  /** The packet moves to the stack or to the TX ring, and nothing else moves. */
  lemma PacketMoves(cfg: Config, s: State, t: State, sel: Selection)
    requires cfg.Valid() && s.rxDone < |s.rxBatch|
    requires t == s.(free := t.free, tx := t.tx, rxDone := s.rxDone + 1, outstandingTx := t.outstandingTx,
                     replied := t.replied, freedAtOnce := t.freedAtOnce, txPackets := t.txPackets)
    requires Count(cfg, t.free, sel) + CountDescs(cfg, t.tx, sel)
          == Count(cfg, s.free, sel) + CountDescs(cfg, s.tx, sel) + Weight(cfg, s.rxBatch[s.rxDone].addr, sel)
    ensures Owned(cfg, t, sel) == Owned(cfg, s, sel)
  {
    HeldNext(cfg, s, t, sel);
  }

  lemma PacketStepConserves(cfg: Config, s: State, e: Event, sel: Selection)
    requires cfg.Valid() && Enabled(cfg, s, e) && (e.FreePacket? || e.ReplyPacket?)
    ensures Owned(cfg, Apply(cfg, s, e), sel) == Owned(cfg, s, sel)
  {
    var d := s.rxBatch[s.rxDone];
    if e.FreePacket? {
      CountSnoc(cfg, s.free, d.addr, sel);
    } else {
      DescsSnoc(cfg, s.tx, d, sel);
    }
    PacketMoves(cfg, s, Apply(cfg, s, e), sel);
  }

  lemma PeekStepConserves(cfg: Config, s: State, e: Event, sel: Selection)
    requires cfg.Valid() && Enabled(cfg, s, e)
    requires s.rxDone <= |s.rxBatch| && s.compDone <= |s.compBatch|
    requires e.PeekRx? || e.PeekComp?
    ensures Owned(cfg, Apply(cfg, s, e), sel) == Owned(cfg, s, sel)
  {
    match e
    case PeekRx(n) =>
      DescsSplit(cfg, s.rx, n, sel);
    case PeekComp(n) =>
      CountSplit(cfg, s.comp, n, sel);
  }

  lemma FreeCompletedConserves(cfg: Config, s: State, sel: Selection)
    requires cfg.Valid() && Enabled(cfg, s, FreeCompleted)
    requires s.rxDone <= |s.rxBatch| && s.compDone <= |s.compBatch|
    ensures Owned(cfg, Apply(cfg, s, FreeCompleted), sel) == Owned(cfg, s, sel)
  {
    CountSnoc(cfg, s.free, s.compBatch[s.compDone], sel);
    CountFirst(cfg, CompHeld(s), sel);
    assert CompHeld(s)[1..] == CompHeld(Apply(cfg, s, FreeCompleted));
  }

  lemma KernelFillStepConserves(cfg: Config, s: State, sel: Selection)
    requires cfg.Valid() && Enabled(cfg, s, KernelTakesFill)
    requires s.rxDone <= |s.rxBatch| && s.compDone <= |s.compBatch|
    ensures Owned(cfg, Apply(cfg, s, KernelTakesFill), sel) == Owned(cfg, s, sel)
  {
    CountFirst(cfg, s.fill, sel);
    CountSnoc(cfg, s.krx, s.fill[0], sel);
  }

  lemma KernelDeliversConserves(cfg: Config, s: State, i: nat, off: nat, len: nat, sel: Selection)
    requires cfg.Valid() && Enabled(cfg, s, KernelDelivers(i, off, len))
    requires s.rxDone <= |s.rxBatch| && s.compDone <= |s.compBatch|
    ensures Owned(cfg, Apply(cfg, s, KernelDelivers(i, off, len)), sel) == Owned(cfg, s, sel)
  {
    CountWithout(cfg, s.krx, i, sel);
    DescsSnoc(cfg, s.rx, Desc(DeliveredAt(cfg, s.krx[i], off), len), sel);
    DeliveredChunk(cfg, s.krx[i], off, sel);
  }

  lemma KernelReceivesConserves(cfg: Config, s: State, off: nat, len: nat, sel: Selection)
    requires cfg.Valid() && Enabled(cfg, s, KernelReceives(off, len))
    requires s.rxDone <= |s.rxBatch| && s.compDone <= |s.compBatch|
    ensures Owned(cfg, Apply(cfg, s, KernelReceives(off, len)), sel) == Owned(cfg, s, sel)
  {
    CountFirst(cfg, s.fill, sel);
    DescsSnoc(cfg, s.rx, Desc(DeliveredAt(cfg, s.fill[0], off), len), sel);
    DeliveredChunk(cfg, s.fill[0], off, sel);
  }

  lemma KernelTakesTxConserves(cfg: Config, s: State, sel: Selection)
    requires cfg.Valid() && Enabled(cfg, s, KernelTakesTx)
    requires s.rxDone <= |s.rxBatch| && s.compDone <= |s.compBatch|
    ensures Owned(cfg, Apply(cfg, s, KernelTakesTx), sel) == Owned(cfg, s, sel)
  {
    DescsFirst(cfg, s.tx, sel);
    DescsSnoc(cfg, s.ktx, s.tx[0], sel);
  }

  lemma KernelCompletesConserves(cfg: Config, s: State, i: nat, sel: Selection)
    requires cfg.Valid() && Enabled(cfg, s, KernelCompletes(i))
    requires s.rxDone <= |s.rxBatch| && s.compDone <= |s.compBatch|
    ensures Owned(cfg, Apply(cfg, s, KernelCompletes(i)), sel) == Owned(cfg, s, sel)
  {
    DescsWithout(cfg, s.ktx, i, sel);
    CountSnoc(cfg, s.comp, s.ktx[i].addr, sel);
  }

  /** Every step of user space or of the kernel, in any state, moves frames and neither loses
      nor duplicates one: for every chunk, and in total, the count is unchanged. */
  lemma StepConserves(cfg: Config, s: State, e: Event, sel: Selection)
    requires cfg.Valid() && Enabled(cfg, s, e)
    requires s.rxDone <= |s.rxBatch| && s.compDone <= |s.compBatch|
    ensures Owned(cfg, Apply(cfg, s, e), sel) == Owned(cfg, s, sel)
  {
    if e.StageFrame? || e.SubmitFill? {
      FillStepConserves(cfg, s, e, sel);
    } else if e.FreePacket? || e.ReplyPacket? {
      PacketStepConserves(cfg, s, e, sel);
    } else if e.PeekRx? || e.PeekComp? {
      PeekStepConserves(cfg, s, e, sel);
    } else if e.FreeCompleted? {
      FreeCompletedConserves(cfg, s, sel);
    } else if e.KernelTakesFill? {
      KernelFillStepConserves(cfg, s, sel);
    } else if e.KernelDelivers? {
      KernelDeliversConserves(cfg, s, e.i, e.off, e.len, sel);
    } else if e.KernelReceives? {
      KernelReceivesConserves(cfg, s, e.off, e.len, sel);
    } else if e.KernelTakesTx? {
      KernelTakesTxConserves(cfg, s, sel);
    } else if e.KernelCompletes? {
      KernelCompletesConserves(cfg, s, e.i, sel);
    }
  }
}
