/** The bytes of the UMEM area along the runs of the frame-ownership machine: what the partition of
    the frames means for the packets in them. */
module XskMemory {
  import opened Bytes
  import opened Division
  import opened InternetChecksum
  import opened XskMachine
  import opened XskInvariants
  import opened XskProgram
  import EchoReply

  /** The UMEM area, and for every chunk the packet that was last delivered in it. */
  datatype Memory = Memory(bytes: seq<byte>, got: seq<seq<byte>>)

  /** The packet lies inside one chunk. */
  predicate Whole(cfg: Config, d: Desc)
    requires cfg.Valid()
  {
    var c := ChunkOf(cfg, d.addr);
    c < cfg.frames && d.addr + d.len <= c * cfg.frameSize + cfg.frameSize
  }

  ghost predicate Sized(cfg: Config, m: Memory) {
    |m.bytes| == cfg.frames * cfg.frameSize && |m.got| == cfg.frames
  }

  function Packet(bytes: seq<byte>, d: Desc): seq<byte> {
    if d.addr + d.len <= |bytes| then bytes[d.addr..d.addr + d.len] else []
  }

  /** The frame of d holds the packet that was delivered in it. */
  ghost predicate Received(cfg: Config, m: Memory, d: Desc)
    requires cfg.Valid() && Sized(cfg, m)
  {
    Whole(cfg, d) && Packet(m.bytes, d) == m.got[ChunkOf(cfg, d.addr)]
  }

  /** It holds the answer to the echo request that was delivered in it. */
  ghost predicate Replied(cfg: Config, h: Host, m: Memory, d: Desc)
    requires cfg.Valid() && Sized(cfg, m)
  {
    Whole(cfg, d) &&
    var request := m.got[ChunkOf(cfg, d.addr)];
    EchoReply.IsEchoRequest(request) && Packet(m.bytes, d) == EchoReply.Answer(h, request)
  }

  ghost predicate Intact(cfg: Config, h: Host, s: State, m: Memory)
    requires cfg.Valid()
  {
    && Sized(cfg, m)
    && (forall d :: d in s.rx || d in RxHeld(s) ==> Received(cfg, m, d))
    && (forall d :: d in s.tx || d in s.ktx ==> Replied(cfg, h, m, d))
  }

  // ----- what a step does to the bytes

  /** The kernel holds chunk c to receive a packet in it. */
  predicate ForReceiving(cfg: Config, s: State, c: nat)
    requires cfg.Valid()
  {
    exists a :: (a in s.krx || a in s.fill) && a != INVALID_UMEM_FRAME && ChunkOf(cfg, a) == c
  }

  /** Chunk c holds the same bytes. */
  ghost predicate SameChunk(cfg: Config, m: Memory, m': Memory, c: nat)
    requires Sized(cfg, m) && Sized(cfg, m')
  {
    forall j :: c * cfg.frameSize <= j < c * cfg.frameSize + cfg.frameSize && 0 <= j < |m.bytes| ==>
      m'.bytes[j] == m.bytes[j]
  }

  ghost predicate Untouched(cfg: Config, m: Memory, m': Memory, c: nat)
    requires Sized(cfg, m) && Sized(cfg, m') && c < cfg.frames
  {
    m'.got[c] == m.got[c] && SameChunk(cfg, m, m', c)
  }

  /** The packets delivered so far, after d was, with bytes as the UMEM area. */
  function WithDelivered(cfg: Config, m: Memory, bytes: seq<byte>, d: Desc): seq<seq<byte>>
    requires cfg.Valid()
  {
    var c := ChunkOf(cfg, d.addr);
    if c < |m.got| then m.got[c := Packet(bytes, d)] else m.got
  }

  /** The descriptor of the packet delivered in step e. */
  function Delivered(cfg: Config, s: State, e: Event): Desc
    requires cfg.Valid() && Enabled(cfg, s, e) && (e.KernelDelivers? || e.KernelReceives?)
  {
    Desc(AddressOf(cfg, s, e), e.len)
  }

  /** The memory after step e of the kernel, which leaves bytes in the UMEM area. */
  function KernelMemory(cfg: Config, s: State, e: Event, m: Memory, bytes: seq<byte>): Memory
    requires cfg.Valid() && Enabled(cfg, s, e)
  {
    Memory(bytes, if e.KernelDelivers? || e.KernelReceives? then WithDelivered(cfg, m, bytes, Delivered(cfg, s, e))
                  else m.got)
  }

  /** The kernel writes only chunks it holds to receive packets in them. */
  ghost predicate KernelWrites(cfg: Config, s: State, e: Event, m: Memory, m': Memory)
    requires cfg.Valid() && Enabled(cfg, s, e) && Sized(cfg, m) && Sized(cfg, m')
  {
    && (forall c: nat | c < cfg.frames && !ForReceiving(cfg, s, c) :: SameChunk(cfg, m, m', c))
    && m' == KernelMemory(cfg, s, e, m, m'.bytes)
  }

  /** The packets that are sent back: echo requests, if there is room in the TX ring. */
  predicate Answered(cfg: Config, s: State, packet: seq<byte>) {
    cfg.replies && |s.tx| < cfg.txSize && EchoReply.IsEchoRequest(packet)
  }

  /** What becomes of a packet. */
  function PacketEvent(cfg: Config, s: State, packet: seq<byte>): Event {
    if Answered(cfg, s, packet) then ReplyPacket else FreePacket
  }

  /** What a step may do to the memory. process_packet writes only the packet it works on, which it
      answers in place if it is an echo request; the packet is queued exactly if it was one and there
      was room. */
  ghost predicate MemoryStep(cfg: Config, h: Host, s: State, e: Event, m: Memory, m': Memory)
    requires cfg.Valid() && Enabled(cfg, s, e) && Sized(cfg, m) && Sized(cfg, m')
  {
    if IsKernelEvent(e) then
      KernelWrites(cfg, s, e, m, m')
    else if e.FreePacket? || e.ReplyPacket? then
      var d := s.rxBatch[s.rxDone];
      && m'.got == m.got && d.addr + d.len <= |m.bytes|
      && m'.bytes == (if cfg.replies then EchoReply.Rewritten(h, m.bytes, d.addr, d.len) else m.bytes)
      && (e.ReplyPacket? <==> Answered(cfg, s, Packet(m.bytes, d)))
    else m' == m
  }

  lemma ReceivedKept(cfg: Config, m: Memory, m': Memory, d: Desc)
    requires cfg.Valid() && Sized(cfg, m) && Sized(cfg, m') && Received(cfg, m, d)
    requires Untouched(cfg, m, m', ChunkOf(cfg, d.addr))
    ensures Received(cfg, m', d)
  {
    PacketKept(cfg, m, m', d);
  }

  lemma RepliedKept(cfg: Config, h: Host, m: Memory, m': Memory, d: Desc)
    requires cfg.Valid() && Sized(cfg, m) && Sized(cfg, m') && Replied(cfg, h, m, d)
    requires Untouched(cfg, m, m', ChunkOf(cfg, d.addr))
    ensures Replied(cfg, h, m', d)
  {
    PacketKept(cfg, m, m', d);
  }

  lemma PacketKept(cfg: Config, m: Memory, m': Memory, d: Desc)
    requires cfg.Valid() && Sized(cfg, m) && Sized(cfg, m') && Whole(cfg, d)
    requires Untouched(cfg, m, m', ChunkOf(cfg, d.addr))
    ensures Packet(m'.bytes, d) == Packet(m.bytes, d)
  {
    var start := ChunkOf(cfg, d.addr) * cfg.frameSize;
    assert start <= d.addr;
    forall j | d.addr <= j < d.addr + d.len && j < |m.bytes| ensures m'.bytes[j] == m.bytes[j] {
      assert start <= j < start + cfg.frameSize;
    }
  }

  // ----- no two packets share a chunk

  lemma InPool(cfg: Config, pool: seq<Desc>, d: Desc)
    requires cfg.Valid() && d in pool && INVALID_UMEM_FRAME !in Addrs(pool)
    ensures CountDescs(cfg, pool, Only(ChunkOf(cfg, d.addr))) >= 1
  {
    var i :| 0 <= i < |pool| && pool[i] == d;
    assert Addrs(pool)[i] == d.addr;
    Present(cfg, Addrs(pool), i);
  }

  lemma HeldIsReal(s: State)
    requires INVALID_UMEM_FRAME !in Addrs(s.rxBatch)
    ensures INVALID_UMEM_FRAME !in Addrs(RxHeld(s))
  {
    if s.rxDone <= |s.rxBatch| {
      AddrsParts(s.rxBatch, s.rxDone);
    }
  }

  /** The packets that user space or the transmit side holds. */
  predicate InUse(s: State, d: Desc) {
    d in s.rx || d in RxHeld(s) || d in s.tx || d in s.ktx
  }

  lemma InUseCounted(cfg: Config, s: State, d: Desc)
    requires cfg.Valid() && RealFrames(s) && InUse(s, d)
    ensures var c := Only(ChunkOf(cfg, d.addr));
            CountDescs(cfg, s.rx, c) + CountDescs(cfg, RxHeld(s), c)
            + CountDescs(cfg, s.tx, c) + CountDescs(cfg, s.ktx, c) >= 1
  {
    HeldIsReal(s);
    if d in s.rx {
      InPool(cfg, s.rx, d);
    } else if d in RxHeld(s) {
      InPool(cfg, RxHeld(s), d);
    } else if d in s.tx {
      InPool(cfg, s.tx, d);
    } else {
      InPool(cfg, s.ktx, d);
    }
  }

  lemma InUseIsForeign(cfg: Config, s: State, d: Desc)
    requires cfg.Valid() && Inv(cfg, s) && InUse(s, d)
    ensures ChunkOf(cfg, d.addr) < cfg.frames && !ForReceiving(cfg, s, ChunkOf(cfg, d.addr))
  {
    var c := ChunkOf(cfg, d.addr);
    InUseCounted(cfg, s, d);
    assert Owned(cfg, s, Only(c)) <= 1;
    if ForReceiving(cfg, s, c) {
      KernelCounted(cfg, s, c);
      assert false;
    }
  }

  lemma KernelCounted(cfg: Config, s: State, c: nat)
    requires cfg.Valid() && ForReceiving(cfg, s, c)
    ensures Count(cfg, s.krx, Only(c)) + Count(cfg, s.fill, Only(c)) >= 1
  {
    var a :| (a in s.krx || a in s.fill) && a != INVALID_UMEM_FRAME && ChunkOf(cfg, a) == c;
    if a in s.krx {
      var i :| 0 <= i < |s.krx| && s.krx[i] == a;
      Present(cfg, s.krx, i);
    } else {
      var i :| 0 <= i < |s.fill| && s.fill[i] == a;
      Present(cfg, s.fill, i);
    }
  }

  /** All others lie in other chunks than the packet being worked on. */
  lemma OthersElsewhere(cfg: Config, s: State, d: Desc)
    requires cfg.Valid() && Inv(cfg, s) && s.rxDone < |s.rxBatch|
    requires d in s.rx || d in RxHeld(s)[1..] || d in s.tx || d in s.ktx
    ensures ChunkOf(cfg, d.addr) != ChunkOf(cfg, s.rxBatch[s.rxDone].addr)
  {
    var c := Only(ChunkOf(cfg, d.addr));
    assert Owned(cfg, s, c) <= 1;
    DescsFirst(cfg, RxHeld(s), c);
    HeldIsReal(s);
    AddrsParts(RxHeld(s), 1);
    assert Addrs(RxHeld(s))[0] == s.rxBatch[s.rxDone].addr;
    if d in s.rx {
      InPool(cfg, s.rx, d);
    } else if d in RxHeld(s)[1..] {
      InPool(cfg, RxHeld(s)[1..], d);
    } else if d in s.tx {
      InPool(cfg, s.tx, d);
    } else {
      InPool(cfg, s.ktx, d);
    }
  }

  // ----- steps

  lemma KernelMoves(cfg: Config, s: State, e: Event, t: State, d: Desc)
    requires cfg.Valid() && Enabled(cfg, s, e) && IsKernelEvent(e) && t == Apply(cfg, s, e)
    ensures RxHeld(t) == RxHeld(s)
    ensures d in t.rx ==> d in s.rx || ((e.KernelDelivers? || e.KernelReceives?) && d == Delivered(cfg, s, e))
    ensures d in t.tx || d in t.ktx ==> d in s.tx || d in s.ktx
  {
  }

  lemma UserMoves(cfg: Config, s: State, e: Event, t: State, d: Desc)
    requires cfg.Valid() && Enabled(cfg, s, e) && !IsKernelEvent(e) && t == Apply(cfg, s, e)
    ensures e.FreePacket? || e.ReplyPacket? ==> RxHeld(t) == RxHeld(s)[1..] && t.rx == s.rx
    ensures d in t.rx || d in RxHeld(t) ==> d in s.rx || d in RxHeld(s)
    ensures d in t.tx || d in t.ktx ==> d in s.tx || d in s.ktx || (e.ReplyPacket? && d == s.rxBatch[s.rxDone])
  {
    if e.FreePacket? || e.ReplyPacket? {
      assert RxHeld(t) == RxHeld(s)[1..];
    }
  }

  lemma DeliveredWhole(cfg: Config, s: State, e: Event)
    requires cfg.Valid() && Inv(cfg, s) && Enabled(cfg, s, e) && (e.KernelDelivers? || e.KernelReceives?)
    ensures Whole(cfg, Delivered(cfg, s, e)) && ForReceiving(cfg, s, ChunkOf(cfg, Delivered(cfg, s, e).addr))
  {
    var a := if e.KernelDelivers? then s.krx[e.i] else s.fill[0];
    var c := ChunkOf(cfg, a);
    assert ForReceiving(cfg, s, c);
    KernelCounted(cfg, s, c);
    assert Owned(cfg, s, Only(c)) >= 1;
    QuotientUnique(DeliveredAt(cfg, a, e.off), c, e.off, cfg.frameSize);
  }

  lemma KernelLeaves(cfg: Config, h: Host, s: State, e: Event, m: Memory, m': Memory, c: nat)
    requires cfg.Valid() && Inv(cfg, s) && Enabled(cfg, s, e) && IsKernelEvent(e)
    requires Sized(cfg, m) && Sized(cfg, m') && MemoryStep(cfg, h, s, e, m, m')
    requires c < cfg.frames && !ForReceiving(cfg, s, c)
    ensures Untouched(cfg, m, m', c)
  {
    if e.KernelDelivers? || e.KernelReceives? {
      DeliveredWhole(cfg, s, e);
    }
  }

  lemma UseLeft(cfg: Config, h: Host, s: State, e: Event, m: Memory, m': Memory, d: Desc)
    requires cfg.Valid() && Inv(cfg, s) && Enabled(cfg, s, e) && IsKernelEvent(e)
    requires Sized(cfg, m) && Sized(cfg, m') && MemoryStep(cfg, h, s, e, m, m') && InUse(s, d)
    ensures ChunkOf(cfg, d.addr) < cfg.frames && Untouched(cfg, m, m', ChunkOf(cfg, d.addr))
  {
    InUseIsForeign(cfg, s, d);
    KernelLeaves(cfg, h, s, e, m, m', ChunkOf(cfg, d.addr));
  }

  lemma DeliveredReceived(cfg: Config, h: Host, s: State, e: Event, m: Memory, m': Memory)
    requires cfg.Valid() && Inv(cfg, s) && Enabled(cfg, s, e) && (e.KernelDelivers? || e.KernelReceives?)
    requires Sized(cfg, m) && Sized(cfg, m') && MemoryStep(cfg, h, s, e, m, m')
    ensures Received(cfg, m', Delivered(cfg, s, e))
  {
    DeliveredWhole(cfg, s, e);
  }

  lemma KernelKeeps(cfg: Config, h: Host, s: State, e: Event, t: State, m: Memory, m': Memory)
    requires cfg.Valid() && Inv(cfg, s) && Enabled(cfg, s, e) && IsKernelEvent(e) && t == Apply(cfg, s, e)
    requires Intact(cfg, h, s, m) && Sized(cfg, m') && MemoryStep(cfg, h, s, e, m, m')
    ensures Intact(cfg, h, t, m')
  {
    forall d | d in t.rx || d in RxHeld(t) ensures Received(cfg, m', d) {
      KernelMoves(cfg, s, e, t, d);
      if d in s.rx || d in RxHeld(s) {
        UseLeft(cfg, h, s, e, m, m', d);
        ReceivedKept(cfg, m, m', d);
      } else {
        DeliveredReceived(cfg, h, s, e, m, m');
      }
    }
    forall d | d in t.tx || d in t.ktx ensures Replied(cfg, h, m', d) {
      KernelMoves(cfg, s, e, t, d);
      UseLeft(cfg, h, s, e, m, m', d);
      RepliedKept(cfg, h, m, m', d);
    }
  }

  lemma SpaceBetween(c: nat, c': nat, f: nat)
    requires c != c'
    ensures c * f + f <= c' * f || c' * f + f <= c * f
  {
    if c < c' {
      MulMonotonic(c + 1, c', f);
    } else {
      MulMonotonic(c' + 1, c, f);
    }
  }

  lemma OutsideKept(b: seq<byte>, b': seq<byte>, d: Desc)
    requires |b| == |b'| && d.addr + d.len <= |b|
    requires b'[..d.addr] == b[..d.addr] && b'[d.addr + d.len..] == b[d.addr + d.len..]
    ensures forall j :: 0 <= j < |b| && (j < d.addr || d.addr + d.len <= j) ==> b'[j] == b[j]
  {
    forall j | 0 <= j < |b| && (j < d.addr || d.addr + d.len <= j) ensures b'[j] == b[j] {
      if j < d.addr {
        assert b'[..d.addr][j] == b[..d.addr][j];
      } else {
        assert b'[d.addr + d.len..][j - d.addr - d.len] == b[d.addr + d.len..][j - d.addr - d.len];
      }
    }
  }

  /** process_packet changes no byte of another chunk. */
  lemma RewrittenElsewhere(cfg: Config, h: Host, m: Memory, m': Memory, d: Desc, c: nat)
    requires cfg.Valid() && Sized(cfg, m) && Sized(cfg, m') && Whole(cfg, d) && m'.got == m.got
    requires d.addr + d.len <= |m.bytes| && m'.bytes == EchoReply.Rewritten(h, m.bytes, d.addr, d.len)
    requires c < cfg.frames && c != ChunkOf(cfg, d.addr)
    ensures Untouched(cfg, m, m', c)
  {
    EchoReply.RewrittenInside(h, m.bytes, d.addr, d.len);
    OutsideKept(m.bytes, m'.bytes, d);
    SpaceBetween(c, ChunkOf(cfg, d.addr), cfg.frameSize);
    ChunkBegins(cfg, d.addr);
  }

  lemma ChunkBegins(cfg: Config, addr: u64)
    requires cfg.Valid()
    ensures ChunkOf(cfg, addr) * cfg.frameSize <= addr
  {
  }

  /** And it answers its packet. */
  lemma PacketAnswered(h: Host, b: seq<byte>, b': seq<byte>, d: Desc)
    requires d.addr + d.len <= |b| && b' == EchoReply.Rewritten(h, b, d.addr, d.len)
    requires EchoReply.IsEchoRequest(Packet(b, d))
    ensures Packet(b', d) == EchoReply.Answer(h, Packet(b, d))
  {
    EchoReply.RewrittenInside(h, b, d.addr, d.len);
  }

  /** m' is m with the packet of p processed. */
  ghost predicate Processed(cfg: Config, h: Host, m: Memory, m': Memory, p: Desc)
    requires cfg.Valid() && Sized(cfg, m) && Sized(cfg, m')
  {
    && Whole(cfg, p) && p.addr + p.len <= |m.bytes|
    && m'.got == m.got && m'.bytes == EchoReply.Rewritten(h, m.bytes, p.addr, p.len)
  }

  lemma OtherReceived(cfg: Config, h: Host, s: State, m: Memory, m': Memory, d: Desc)
    requires cfg.Valid() && Inv(cfg, s) && s.rxDone < |s.rxBatch| && (d in s.rx || d in RxHeld(s)[1..])
    requires Sized(cfg, m) && Sized(cfg, m') && Processed(cfg, h, m, m', s.rxBatch[s.rxDone]) && Received(cfg, m, d)
    ensures Received(cfg, m', d)
  {
    OthersElsewhere(cfg, s, d);
    RewrittenElsewhere(cfg, h, m, m', s.rxBatch[s.rxDone], ChunkOf(cfg, d.addr));
    ReceivedKept(cfg, m, m', d);
  }

  lemma OtherReplied(cfg: Config, h: Host, s: State, m: Memory, m': Memory, d: Desc)
    requires cfg.Valid() && Inv(cfg, s) && s.rxDone < |s.rxBatch| && (d in s.tx || d in s.ktx)
    requires Sized(cfg, m) && Sized(cfg, m') && Processed(cfg, h, m, m', s.rxBatch[s.rxDone]) && Replied(cfg, h, m, d)
    ensures Replied(cfg, h, m', d)
  {
    OthersElsewhere(cfg, s, d);
    RewrittenElsewhere(cfg, h, m, m', s.rxBatch[s.rxDone], ChunkOf(cfg, d.addr));
    RepliedKept(cfg, h, m, m', d);
  }

  lemma OthersReceived(cfg: Config, h: Host, s: State, m: Memory, m': Memory)
    requires cfg.Valid() && Inv(cfg, s) && s.rxDone < |s.rxBatch| && Intact(cfg, h, s, m)
    requires Sized(cfg, m') && Processed(cfg, h, m, m', s.rxBatch[s.rxDone])
    ensures forall d :: d in s.rx || d in RxHeld(s)[1..] ==> Received(cfg, m', d)
  {
    forall d | d in s.rx || d in RxHeld(s)[1..] ensures Received(cfg, m', d) {
      OtherReceived(cfg, h, s, m, m', d);
    }
  }

  lemma OthersReplied(cfg: Config, h: Host, s: State, m: Memory, m': Memory)
    requires cfg.Valid() && Inv(cfg, s) && s.rxDone < |s.rxBatch| && Intact(cfg, h, s, m)
    requires Sized(cfg, m') && Processed(cfg, h, m, m', s.rxBatch[s.rxDone])
    ensures forall d :: d in s.tx || d in s.ktx ==> Replied(cfg, h, m', d)
  {
    forall d | d in s.tx || d in s.ktx ensures Replied(cfg, h, m', d) {
      OtherReplied(cfg, h, s, m, m', d);
    }
  }

  /** The packet moves on, to the TX ring if it was queued. */
  lemma PacketStepKeeps(cfg: Config, h: Host, s: State, e: Event, t: State, m': Memory)
    requires cfg.Valid() && Enabled(cfg, s, e) && (e.FreePacket? || e.ReplyPacket?)
    requires t == Apply(cfg, s, e) && Sized(cfg, m')
    requires forall d :: d in s.rx || d in RxHeld(s)[1..] ==> Received(cfg, m', d)
    requires forall d :: d in s.tx || d in s.ktx ==> Replied(cfg, h, m', d)
    requires e.ReplyPacket? ==> Replied(cfg, h, m', s.rxBatch[s.rxDone])
    ensures Intact(cfg, h, t, m')
  {
    forall d | d in t.rx || d in RxHeld(t) ensures Received(cfg, m', d) {
      UserMoves(cfg, s, e, t, d);
    }
    forall d | d in t.tx || d in t.ktx ensures Replied(cfg, h, m', d) {
      UserMoves(cfg, s, e, t, d);
    }
  }

  lemma PacketProcessed(cfg: Config, h: Host, s: State, e: Event, m: Memory, m': Memory)
    requires cfg.Valid() && Enabled(cfg, s, e) && (e.FreePacket? || e.ReplyPacket?) && cfg.replies
    requires Intact(cfg, h, s, m) && Sized(cfg, m') && MemoryStep(cfg, h, s, e, m, m')
    ensures Processed(cfg, h, m, m', s.rxBatch[s.rxDone])
    ensures e.ReplyPacket? ==> Replied(cfg, h, m', s.rxBatch[s.rxDone])
  {
    var p := s.rxBatch[s.rxDone];
    assert RxHeld(s)[0] == p;
    assert Received(cfg, m, p);
    if e.ReplyPacket? {
      PacketAnswered(h, m.bytes, m'.bytes, p);
    }
  }

  lemma UserStepKeeps(cfg: Config, h: Host, s: State, e: Event, t: State, m: Memory)
    requires cfg.Valid() && Enabled(cfg, s, e) && !IsKernelEvent(e) && !e.ReplyPacket? && t == Apply(cfg, s, e)
    requires Intact(cfg, h, s, m)
    ensures Intact(cfg, h, t, m)
  {
    forall d | d in t.rx || d in RxHeld(t) ensures Received(cfg, m, d) {
      UserMoves(cfg, s, e, t, d);
    }
    forall d | d in t.tx || d in t.ktx ensures Replied(cfg, h, m, d) {
      UserMoves(cfg, s, e, t, d);
    }
  }

  /** One step keeps every packet that was received, and every answer that waits to be sent. */
  lemma StepIntact(cfg: Config, h: Host, s: State, e: Event, m: Memory, m': Memory)
    requires cfg.Valid() && Inv(cfg, s) && Enabled(cfg, s, e)
    requires Intact(cfg, h, s, m) && Sized(cfg, m') && MemoryStep(cfg, h, s, e, m, m')
    ensures Intact(cfg, h, Apply(cfg, s, e), m')
  {
    var t := Apply(cfg, s, e);
    if IsKernelEvent(e) {
      KernelKeeps(cfg, h, s, e, t, m, m');
    } else if (e.FreePacket? || e.ReplyPacket?) && cfg.replies {
      PacketProcessed(cfg, h, s, e, m, m');
      OthersReceived(cfg, h, s, m, m');
      OthersReplied(cfg, h, s, m, m');
      PacketStepKeeps(cfg, h, s, e, t, m');
    } else {
      assert m' == m;
      UserStepKeeps(cfg, h, s, e, t, m);
    }
  }

  // ----- runs

  /** Step i of es takes the memory from ms[i] to ms[i + 1]. */
  ghost predicate StepAt(cfg: Config, h: Host, es: seq<Event>, ms: seq<Memory>, i: nat)
    requires cfg.Valid() && i < |es| && |ms| == |es| + 1 && Sized(cfg, ms[i]) && Sized(cfg, ms[i + 1])
  {
    match StateAfter(cfg, es[..i])
    case None => false
    case Some(s) => Enabled(cfg, s, es[i]) && MemoryStep(cfg, h, s, es[i], ms[i], ms[i + 1])
  }

  /** ms is the memory before the first and after each of the steps es. */
  ghost predicate MemoryRun(cfg: Config, h: Host, es: seq<Event>, ms: seq<Memory>)
    requires cfg.Valid()
  {
    && |ms| == |es| + 1 && (forall i :: 0 <= i <= |es| ==> Sized(cfg, ms[i]))
    && forall i {:trigger StepAt(cfg, h, es, ms, i)} :: 0 <= i < |es| ==> StepAt(cfg, h, es, ms, i)
  }

  lemma MemoryPrefix(cfg: Config, h: Host, es: seq<Event>, ms: seq<Memory>)
    requires cfg.Valid() && MemoryRun(cfg, h, es, ms) && |es| > 0
    ensures MemoryRun(cfg, h, es[..|es| - 1], ms[..|es|])
  {
    var front := es[..|es| - 1];
    forall i | 0 <= i < |front| ensures StepAt(cfg, h, front, ms[..|es|], i) {
      assert StepAt(cfg, h, es, ms, i) && front[..i] == es[..i];
    }
  }

  lemma MemoryExtend(cfg: Config, h: Host, es: seq<Event>, ms: seq<Memory>, s: State, e: Event, m: Memory)
    requires cfg.Valid() && MemoryRun(cfg, h, es, ms) && StateAfter(cfg, es) == Some(s) && Enabled(cfg, s, e)
    requires Sized(cfg, m) && MemoryStep(cfg, h, s, e, ms[|es|], m)
    ensures MemoryRun(cfg, h, es + [e], ms + [m])
  {
    var es', ms' := es + [e], ms + [m];
    forall i | 0 <= i < |es'| ensures StepAt(cfg, h, es', ms', i) {
      if i < |es| {
        assert StepAt(cfg, h, es, ms, i) && es'[..i] == es[..i];
      } else {
        assert es'[..i] == es;
      }
    }
  }

  /** The kernel can make these steps one after the other, writing these addresses and leaving these
      bytes in the UMEM area. */
  ghost predicate Playable(cfg: Config, s: State, m: Memory, moves: seq<Event>, addrs: seq<u64>, writes: seq<seq<byte>>)
    requires cfg.Valid()
    decreases |moves|
  {
    |addrs| == |writes| == |moves| && Sized(cfg, m) &&
    (|moves| > 0 ==>
      && IsKernelEvent(moves[0]) && Enabled(cfg, s, moves[0]) && addrs[0] == AddressOf(cfg, s, moves[0])
      && var m' := KernelMemory(cfg, s, moves[0], m, writes[0]);
      && Sized(cfg, m') && KernelWrites(cfg, s, moves[0], m, m')
      && Playable(cfg, Apply(cfg, s, moves[0]), m', moves[1..], addrs[1..], writes[1..]))
  }

  lemma PlayNext(cfg: Config, s: State, m: Memory, moves: seq<Event>, addrs: seq<u64>, writes: seq<seq<byte>>, k: nat)
    requires cfg.Valid() && k < |moves| == |addrs| == |writes|
    requires Playable(cfg, s, m, moves[k..], addrs[k..], writes[k..])
    ensures IsKernelEvent(moves[k]) && Enabled(cfg, s, moves[k]) && addrs[k] == AddressOf(cfg, s, moves[k])
    ensures var m' := KernelMemory(cfg, s, moves[k], m, writes[k]);
            && Sized(cfg, m) && Sized(cfg, m') && KernelWrites(cfg, s, moves[k], m, m')
            && Playable(cfg, Apply(cfg, s, moves[k]), m', moves[k + 1..], addrs[k + 1..], writes[k + 1..])
    ensures forall before: seq<Event> {:trigger before + moves[..k]} ::
              before + moves[..k] + [moves[k]] == before + moves[..k + 1]
  {
    assert moves[k..][1..] == moves[k + 1..] && addrs[k..][1..] == addrs[k + 1..];
    assert writes[k..][1..] == writes[k + 1..];
    assert moves[..k + 1] == moves[..k] + [moves[k]];
  }

  /** If the kernel writes only chunks it holds to receive packets in them, then at any time in any
      run every frame in the TX ring, or on its way out, is the answer to the echo request that was
      delivered in its chunk, and every packet not yet processed is what was delivered. */
  lemma {:induction false} AnswersAreSent(cfg: Config, h: Host, es: seq<Event>, ms: seq<Memory>)
    requires cfg.Valid() && MemoryRun(cfg, h, es, ms)
    ensures StateAfter(cfg, es).Some? && Intact(cfg, h, StateAfter(cfg, es).value, ms[|es|])
  {
    if |es| > 0 {
      var n := |es| - 1;
      MemoryPrefix(cfg, h, es, ms);
      AnswersAreSent(cfg, h, es[..n], ms[..|es|]);
      RunInv(cfg, es[..n]);
      assert StepAt(cfg, h, es, ms, n);
      StepIntact(cfg, h, StateAfter(cfg, es[..n]).value, es[n], ms[n], ms[|es|]);
    }
  }

  /** Step e handled the packet that was delivered in its chunk, and queued it for transmission exactly
      if replies are on, there was room, and it was an echo request. */
  predicate Handled(cfg: Config, s: State, e: Event, got: seq<seq<byte>>)
    requires cfg.Valid()
  {
    && s.rxDone < |s.rxBatch| && ChunkOf(cfg, s.rxBatch[s.rxDone].addr) < |got|
    && (e.ReplyPacket? <==> Answered(cfg, s, got[ChunkOf(cfg, s.rxBatch[s.rxDone].addr)]))
  }

  lemma StepHandled(cfg: Config, h: Host, s: State, e: Event, m: Memory, m': Memory)
    requires cfg.Valid() && Enabled(cfg, s, e) && (e.FreePacket? || e.ReplyPacket?) && Intact(cfg, h, s, m)
    requires Sized(cfg, m') && MemoryStep(cfg, h, s, e, m, m')
    ensures Handled(cfg, s, e, m.got)
  {
    assert RxHeld(s)[0] == s.rxBatch[s.rxDone];
    assert Received(cfg, m, s.rxBatch[s.rxDone]);
  }

  lemma {:induction false} MemoryUpTo(cfg: Config, h: Host, es: seq<Event>, ms: seq<Memory>, i: nat)
    requires cfg.Valid() && MemoryRun(cfg, h, es, ms) && i <= |es|
    ensures MemoryRun(cfg, h, es[..i], ms[..i + 1])
    decreases |es| - i
  {
    if i == |es| {
      assert es[..i] == es && ms[..i + 1] == ms;
    } else {
      MemoryUpTo(cfg, h, es, ms, i + 1);
      MemoryPrefix(cfg, h, es[..i + 1], ms[..i + 2]);
      assert es[..i + 1][..i] == es[..i] && ms[..i + 2][..i + 1] == ms[..i + 1];
    }
  }

  /** In a run every packet was handled by that rule. */
  lemma PacketsHandled(cfg: Config, h: Host, es: seq<Event>, ms: seq<Memory>, i: nat)
    requires cfg.Valid() && MemoryRun(cfg, h, es, ms) && i < |es| && (es[i].FreePacket? || es[i].ReplyPacket?)
    ensures StateAfter(cfg, es[..i]).Some? && Handled(cfg, StateAfter(cfg, es[..i]).value, es[i], ms[i].got)
  {
    MemoryUpTo(cfg, h, es, ms, i);
    AnswersAreSent(cfg, h, es[..i], ms[..i + 1]);
    assert StepAt(cfg, h, es, ms, i);
    StepHandled(cfg, h, StateAfter(cfg, es[..i]).value, es[i], ms[i], ms[i + 1]);
  }

  /** So the ICMPv6 checksum of a frame to be sent is valid exactly if that of the request was, and the
      frame is not an echo request itself. */
  lemma SentKeepsValidity(cfg: Config, h: Host, es: seq<Event>, ms: seq<Memory>, d: Desc)
    requires cfg.Valid() && MemoryRun(cfg, h, es, ms)
    requires StateAfter(cfg, es).Some? && (d in StateAfter(cfg, es).value.tx || d in StateAfter(cfg, es).value.ktx)
    ensures Whole(cfg, d)
    ensures var request, sent := ms[|es|].got[ChunkOf(cfg, d.addr)], Packet(ms[|es|].bytes, d);
            && !EchoReply.IsEchoRequest(sent)
            && (HasMessage6(request, 14) ==>
                HasMessage6(sent, 14) && (ValidSum(h, Covered6(sent, 14)) <==> ValidSum(h, Covered6(request, 14))))
  {
    AnswersAreSent(cfg, h, es, ms);
    var request := ms[|es|].got[ChunkOf(cfg, d.addr)];
    EchoReply.AnswerFields(h, request);
    if HasMessage6(request, 14) {
      EchoReply.AnswerKeepsValidity(h, request);
    }
  }
}
