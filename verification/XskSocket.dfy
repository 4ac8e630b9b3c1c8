/** advanced03-AF_XDP/af_xdp_user.c on its real data: the stack array, the four rings and the UMEM
    buffer, interleaved with the kernel. Every method is shown to be a run of the
    frame-ownership machine. */
module XskSocket {
  import opened Bytes
  import opened Word32
  import opened XskRing
  import opened XskMachine
  import opened XskInvariants
  import opened XskMemory
  import opened XskProgram
  import EchoReply

  /** No two of the given objects share memory. */
  ghost predicate Apart(fq: ProdRing<u64>, cq: ConsRing<u64>, rx: ConsRing<Desc>, tx: ProdRing<Desc>,
                        umem: array<byte>)
  {
    && fq.ring != cq.ring && rx.ring != tx.ring
    && fq.ring as object != rx.ring && fq.ring as object != tx.ring && fq.ring as object != umem
    && cq.ring as object != rx.ring && cq.ring as object != tx.ring && cq.ring as object != umem
    && rx.ring as object != umem && tx.ring as object != umem
    && fq as object != tx && cq as object != rx && fq as object != rx
    && fq as object != cq && tx as object != rx && tx as object != cq
  }

  /** struct xsk_socket_info together with its umem. */
  class XskSocketInfo {
    const cfg: Config
    const host: Host
    const frameAddr: array<u64>
    const fq: ProdRing<u64>
    const cq: ConsRing<u64>
    const rx: ConsRing<Desc>
    const tx: ProdRing<Desc>
    const umem: array<byte>
    var frameFree: nat
    var outstandingTx: u32
    var rxPackets: nat
    var txPackets: nat

    /** The state of the machine, the steps that led to it, and those of them that user space made. */
    ghost var s: State
    ghost var history: seq<Event>
    ghost var trace: seq<Event>
    /** The memory before the first and after each of the steps, and the packets delivered so far. */
    ghost var memories: seq<Memory>
    ghost var got: seq<seq<byte>>

    ghost function Footprint(): set<object> {
      {this, frameAddr, fq, fq.ring, cq, cq.ring, rx, rx.ring, tx, tx.ring, umem}
    }

    /** The sizes of all parts, and that no two of them share memory. All of it is constant. */
    ghost predicate Shape() {
      && cfg.Valid()
      && frameAddr.Length == cfg.frames < TWO32 && umem.Length == cfg.frames * cfg.frameSize
      && fq.ring.Length == cfg.fillSize && rx.ring.Length == cfg.rxSize
      && tx.ring.Length == cfg.txSize && cq.ring.Length == cfg.compSize
      && frameAddr != fq.ring && frameAddr != cq.ring
      && frameAddr as object != rx.ring && frameAddr as object != tx.ring && frameAddr as object != umem
      && Apart(fq, cq, rx, tx, umem)
    }

    ghost predicate RingsValid()
      reads fq, fq.ring, cq, cq.ring, rx, rx.ring, tx, tx.ring
    {
      fq.Valid() && cq.Valid() && rx.Valid() && tx.Valid()
    }

    /** The stack: entries below frameFree are free frames, those above INVALID_UMEM_FRAME. */
    ghost predicate StackValid()
      reads `frameFree, frameAddr
    {
      && frameFree <= frameAddr.Length
      && forall k :: frameFree <= k < frameAddr.Length ==> frameAddr[k] == INVALID_UMEM_FRAME
    }

    ghost function Stack(): seq<u64>
      requires frameFree <= frameAddr.Length
      reads `frameFree, frameAddr
    {
      frameAddr[..frameFree]
    }

    ghost predicate FillCoupled(t: State)
      reads fq
    {
      t.staged == fq.staged && t.todo == fq.reserved - fq.submitted - |fq.staged| && t.spare == fq.Spare()
    }

    ghost predicate OthersCoupled(t: State)
      reads `outstandingTx, `rxPackets, `txPackets, tx, rx, cq
    {
      && t.rxBatch == rx.peeked && t.compBatch == cq.peeked
      && tx.staged == [] && tx.reserved == tx.submitted
      && t.outstandingTx == outstandingTx
      && rxPackets == t.rxPackets && txPackets == t.txPackets
    }

    /** The machine state t agrees with the user side. */
    ghost predicate UserCoupled(t: State)
      requires StackValid()
      reads `frameFree, `outstandingTx, `rxPackets, `txPackets, frameAddr, fq, tx, rx, cq
    {
      t.free == Stack() && FillCoupled(t) && OthersCoupled(t)
    }

    /** And with what the rings show the other side. */
    ghost predicate RingsCoupled(t: State)
      reads fq, tx, rx, cq
    {
      t.fill == fq.visible && t.rx == rx.visible && t.tx == tx.visible && t.comp == cq.visible
    }

    /** The user side and the rings agree with the machine state t. */
    ghost predicate Coupled(t: State)
      reads `frameFree, `outstandingTx, `rxPackets, `txPackets
      reads frameAddr, fq, fq.ring, cq, cq.ring, rx, rx.ring, tx, tx.ring
    {
      cfg.Valid() && RingsValid() && StackValid() && UserCoupled(t) && RingsCoupled(t)
    }

    ghost function Mem(): Memory
      reads this`got, umem
    {
      Memory(umem[..], got)
    }

    /** The steps are a run of the machine that ends in s and of the memory that ends in m. */
    ghost predicate RunWith(m: Memory)
      reads `s, `history, `trace, `memories
    {
      && cfg.Valid() && StateAfter(cfg, history) == Some(s) && trace == UserSteps(history)
      && MemoryRun(cfg, host, history, memories) && memories[|history|] == m
    }

    ghost predicate Valid()
      reads this, frameAddr, fq, fq.ring, cq, cq.ring, rx, rx.ring, tx, tx.ring, umem
    {
      Coupled(s) && RunWith(Mem())
    }

    /** Between batches nothing is reserved or peeked, and no completion was seen and left. */
    ghost predicate Idle()
      reads this, cq
    {
      s.todo == 0 && s.staged == [] && s.rxBatch == [] && s.compBatch == [] && cq.Known() == 0
    }

    /** The positions that the local index variables of the user code denote, and the entries its
        local copies show. */
    ghost function Positions(): (nat, nat, nat, int, int)
      reads fq, rx, cq
    {
      (fq.submitted, rx.released, cq.released, rx.Known(), cq.Known())
    }

    /** The part of xsk_configure_socket that fills the stack; the rings are as libbpf creates
        them, empty. */
    constructor (cfg: Config, host: Host, umem: array<byte>, fq: ProdRing<u64>, cq: ConsRing<u64>,
                 rx: ConsRing<Desc>, tx: ProdRing<Desc>)
      requires cfg.Valid() && cfg.frames < TWO32 && umem.Length == cfg.frames * cfg.frameSize
      requires fq.Valid() && cq.Valid() && rx.Valid() && tx.Valid()
      requires fq.ring.Length == cfg.fillSize && rx.ring.Length == cfg.rxSize
      requires tx.ring.Length == cfg.txSize && cq.ring.Length == cfg.compSize
      requires fq.visible == [] && fq.staged == [] && fq.reserved == fq.submitted && fq.Spare() == cfg.fillSize
      requires tx.visible == [] && tx.staged == [] && tx.reserved == tx.submitted
      requires cq.visible == [] && cq.peeked == [] && cq.Known() == 0 && rx.visible == [] && rx.peeked == []
      requires Apart(fq, cq, rx, tx, umem)
      ensures Shape() && Valid() && Idle() && this.cfg == cfg && this.host == host && s == Init(cfg)
      ensures this.umem == umem && this.fq == fq && this.cq == cq && this.rx == rx && this.tx == tx && fresh(frameAddr)
    {
      this.host := host;
      this.cfg, this.umem, this.fq, this.cq, this.rx, this.tx := cfg, umem, fq, cq, rx, tx;
      var a := new u64[cfg.frames];
      frameAddr := a;
      frameFree := cfg.frames;
      outstandingTx, rxPackets, txPackets := 0, 0, 0;
      s, history, trace := Init(cfg), [], [];
      got := seq(cfg.frames, _ => []);
      memories := [Memory(umem[..], seq(cfg.frames, _ => []))];
      new;
      FillStack();
      StackStart();
    }

    /** The loop over umem_frame_addr. */
    method FillStack()
      requires cfg.Valid() && frameAddr.Length == cfg.frames
      modifies frameAddr
      ensures frameAddr[..] == InitialStack(cfg, cfg.frames)
    {
      for i := 0 to cfg.frames
        invariant frameAddr[..i] == InitialStack(cfg, i)
      {
        Below(i, cfg.frames, cfg.frameSize);
        frameAddr[i] := i * cfg.frameSize;
        assert frameAddr[..i + 1] == frameAddr[..i] + [frameAddr[i]];
      }
      assert frameAddr[..] == frameAddr[..cfg.frames];
    }

    lemma StackStart()
      requires frameAddr.Length == frameFree
      ensures frameAddr[..] == Stack()
    {
    }

    /** The batches being worked on, which the FILL side does not touch. */
    ghost function Batches(): (seq<Desc>, nat, seq<u64>, nat, nat, nat, u32, int)
      reads this, rx, cq
    {
      (s.rxBatch, s.rxDone, s.compBatch, s.compDone, rx.released, cq.released, outstandingTx, cq.Known())
    }

    /** Step e is enabled and makes the memory what it is, from m. */
    ghost predicate StepsFrom(e: Event, m: Memory)
      reads `s, `got, umem
    {
      && cfg.Valid() && Enabled(cfg, s, e) && Sized(cfg, m) && Sized(cfg, Mem())
      && MemoryStep(cfg, host, s, e, m, Mem())
    }

    /** Records a step of the machine that began with the memory m. */
    ghost method RecordStep(e: Event, m: Memory)
      requires RunWith(m) && StepsFrom(e, m)
      modifies `s, `history, `trace, `memories
      ensures RunWith(Mem()) && s == Apply(cfg, old(s), e) && history == old(history) + [e]
      ensures trace == if IsKernelEvent(e) then old(trace) else old(trace) + [e]
    {
      Extend(cfg, history, s, e);
      MemoryExtend(cfg, host, history, memories, s, e, Mem());
      assert (history + [e])[..|history|] == history;
      memories := memories + [Mem()];
      s, history := Apply(cfg, s, e), history + [e];
      trace := if IsKernelEvent(e) then trace else trace + [e];
    }

    /** Records a step that does not touch the memory. */
    ghost method Record(e: Event)
      requires RunWith(Mem()) && Enabled(cfg, s, e) && !IsKernelEvent(e) && !e.FreePacket? && !e.ReplyPacket?
      modifies `s, `history, `trace, `memories
      ensures RunWith(Mem()) && s == Apply(cfg, old(s), e) && history == old(history) + [e]
      ensures trace == old(trace) + [e]
    {
      RecordStep(e, Mem());
    }

    /** Any number of kernel steps. Callers rely on the contract alone, which every kernel step
        below meets. */
    method Interleave()
      requires Shape() && Valid()
      modifies Footprint()
      ensures Valid() && UserPart(s) == old(UserPart(s)) && old(s.comp) <= s.comp && Positions() == old(Positions())
      ensures frameFree == old(frameFree) && outstandingTx == old(outstandingTx)
      ensures old(history) <= history && trace == old(trace)
    {
    }

    // ----- kernel steps

    /** What the rings and what user space knows of them show of a kernel step from t to s. */
    twostate predicate KernelStepped(t: State)
      reads this, fq, rx, cq
    {
      UserPart(s) == UserPart(t) && t.comp <= s.comp && Positions() == old(Positions())
    }

    method KernelFillStep(ghost t: State)
      requires Shape() && Coupled(t) && Enabled(cfg, t, KernelTakesFill) && s == Apply(cfg, t, KernelTakesFill)
      modifies fq
      ensures Coupled(s) && KernelStepped(t)
    {
      var _ := fq.KernelTake();
    }

    method KernelDeliverStep(d: Desc, ghost i: nat, ghost off: nat, ghost t: State)
      requires Shape() && Coupled(t) && Enabled(cfg, t, KernelDelivers(i, off, d.len))
      requires d.addr == DeliveredAt(cfg, t.krx[i], off) && s == Apply(cfg, t, KernelDelivers(i, off, d.len))
      modifies rx, rx.ring
      ensures Coupled(s) && KernelStepped(t)
    {
      rx.KernelPut(d);
    }

    method KernelReceiveStep(d: Desc, ghost off: nat, ghost t: State)
      requires Shape() && Coupled(t) && Enabled(cfg, t, KernelReceives(off, d.len))
      requires d.addr == DeliveredAt(cfg, t.fill[0], off) && s == Apply(cfg, t, KernelReceives(off, d.len))
      modifies fq, rx, rx.ring
      ensures Coupled(s) && KernelStepped(t)
    {
      FillToRx(d);
    }

    /** What the step does to the two rings. */
    method FillToRx(d: Desc)
      requires Apart(fq, cq, rx, tx, umem) && fq.Valid() && rx.Valid()
      requires fq.visible != [] && |rx.visible| + |rx.peeked| < rx.ring.Length
      modifies fq`consumer, fq`consumed, fq`visible, rx.ring, rx`producer, rx`produced, rx`visible
      ensures fq.Valid() && rx.Valid()
      ensures fq.visible == old(fq.visible[1..]) && rx.visible == old(rx.visible) + [d]
    {
      var _ := fq.KernelTake();
      rx.KernelPut(d);
    }

    method KernelTxStep(ghost t: State)
      requires Shape() && Coupled(t) && Enabled(cfg, t, KernelTakesTx) && s == Apply(cfg, t, KernelTakesTx)
      modifies tx
      ensures Coupled(s) && KernelStepped(t)
    {
      var _ := tx.KernelTake();
    }

    method KernelCompleteStep(addr: u64, ghost i: nat, ghost t: State)
      requires Shape() && Coupled(t) && Enabled(cfg, t, KernelCompletes(i))
      requires addr == t.ktx[i].addr && s == Apply(cfg, t, KernelCompletes(i))
      modifies cq, cq.ring
      ensures Coupled(s) && KernelStepped(t)
    {
      cq.KernelPut(addr);
    }

    /** What the kernel writes into the UMEM area up to its step e, after which that is bytes. */
    method WriteMemory(e: Event, bytes: seq<byte>)
      requires RunWith(Mem()) && IsKernelEvent(e) && Enabled(cfg, s, e) && Sized(cfg, Mem())
      requires var m := KernelMemory(cfg, s, e, Mem(), bytes); Sized(cfg, m) && KernelWrites(cfg, s, e, Mem(), m)
      modifies umem, `got, `s, `history, `trace, `memories
      ensures RunWith(Mem()) && Mem() == KernelMemory(cfg, old(s), e, old(Mem()), bytes)
      ensures s == Apply(cfg, old(s), e) && history == old(history) + [e] && trace == old(trace)
    {
      ghost var m := Mem();
      forall i | 0 <= i < umem.Length {
        umem[i] := bytes[i];
      }
      assert umem[..] == bytes;
      got := KernelMemory(cfg, s, e, m, bytes).got;
      RecordStep(e, m);
    }

    /** Step e of the kernel, which writes addr if it writes a ring. */
    method KernelStep(e: Event, addr: u64, bytes: seq<byte>)
      requires Shape() && Valid() && IsKernelEvent(e) && Enabled(cfg, s, e) && addr == AddressOf(cfg, s, e)
      requires Sized(cfg, Mem())
      requires var m := KernelMemory(cfg, s, e, Mem(), bytes); Sized(cfg, m) && KernelWrites(cfg, s, e, Mem(), m)
      modifies Footprint()
      ensures Valid() && UserPart(s) == old(UserPart(s)) && old(s.comp) <= s.comp && Positions() == old(Positions())
      ensures s == Apply(cfg, old(s), e) && history == old(history) + [e] && trace == old(trace)
      ensures Mem() == KernelMemory(cfg, old(s), e, old(Mem()), bytes)
    {
      ghost var t := s;
      WriteMemory(e, bytes);
      match e
      case KernelTakesFill => KernelFillStep(t);
      case KernelDelivers(i, off, len) => KernelDeliverStep(Desc(addr, len), i, off, t);
      case KernelReceives(off, len) => KernelReceiveStep(Desc(addr, len), off, t);
      case KernelTakesTx => KernelTxStep(t);
      case KernelCompletes(i) => KernelCompleteStep(addr, i, t);
    }

    /** Any steps the kernel can make one after the other, with whatever it writes into the chunks it
        holds to receive packets: together they meet the contract of Interleave. */
    method Play(moves: seq<Event>, addrs: seq<u64>, writes: seq<seq<byte>>)
      requires Shape() && Valid() && Playable(cfg, s, Mem(), moves, addrs, writes)
      modifies Footprint()
      ensures Valid() && UserPart(s) == old(UserPart(s)) && old(s.comp) <= s.comp && Positions() == old(Positions())
      ensures frameFree == old(frameFree) && outstandingTx == old(outstandingTx)
      ensures history == old(history) + moves && trace == old(trace)
    {
      for k := 0 to |moves|
        invariant Valid() && UserPart(s) == old(UserPart(s)) && old(s.comp) <= s.comp
        invariant Positions() == old(Positions()) && trace == old(trace)
        invariant history == old(history) + moves[..k]
        invariant Playable(cfg, s, Mem(), moves[k..], addrs[k..], writes[k..])
      {
        PlayNext(cfg, s, Mem(), moves, addrs, writes, k);
        KernelStep(moves[k], addrs[k], writes[k]);
      }
      assert moves[..|moves|] == moves;
    }

    // ----- the frame allocator

    method AllocUmemFrame() returns (frame: u64)
      requires StackValid()
      modifies this`frameFree, frameAddr
      ensures StackValid()
      ensures if old(frameFree) == 0 then frame == INVALID_UMEM_FRAME && Stack() == old(Stack())
              else old(Stack()) == Stack() + [frame]
    {
      if frameFree == 0 {
        return INVALID_UMEM_FRAME;
      }
      frameFree := frameFree - 1;
      frame := frameAddr[frameFree];
      frameAddr[frameFree] := INVALID_UMEM_FRAME;
    }

    /** The precondition is the assert of the program. */
    method FreeUmemFrame(frame: u64)
      requires StackValid() && frameFree < frameAddr.Length
      modifies this`frameFree, frameAddr
      ensures StackValid() && Stack() == old(Stack()) + [frame]
    {
      frameAddr[frameFree] := frame;
      frameFree := frameFree + 1;
    }

    // ----- filling the FILL ring

    /** One slot of the refill: *fill_addr(idx) = xsk_alloc_umem_frame(). */
    method StageSlot(idx: u32)
      requires Shape() && Valid() && s.todo > 0 && idx == U32(fq.submitted + |s.staged|)
      modifies this, frameAddr, fq, fq.ring
      ensures Valid() && trace == old(trace) + [StageFrame]
      ensures s == Apply(cfg, old(s), StageFrame)
      ensures Positions() == old(Positions()) && outstandingTx == old(outstandingTx)
    {
      FillSlot(idx);
      Record(StageFrame);
    }

    /** What it does to the stack and the ring. */
    method FillSlot(idx: u32)
      requires Shape() && Coupled(s) && s.todo > 0 && idx == U32(fq.submitted + |s.staged|)
      modifies `frameFree, frameAddr, fq, fq.ring
      ensures Coupled(Apply(cfg, s, StageFrame)) && Positions() == old(Positions())
    {
      var frame := AllocUmemFrame();
      fq.SetSlot(idx, frame);
    }

    /** Iteration i of the refill loop, which began after the steps before, with the stack free and
        index idx; idx_fq++ has made it idx + i. The kernel may run before the next iteration. */
    method StageNext(idx: u32, i: u32, ghost before: seq<Event>, ghost free: seq<u64>)
      requires Shape() && Valid() && s.todo > 0 && idx == U32(fq.submitted)
      requires trace == before + Repeated(StageFrame, i)
      requires s.staged == Served(free, i) && s.free == Left(free, i)
      modifies Footprint()
      ensures Valid() && trace == before + Repeated(StageFrame, i + 1) && Batches() == old(Batches())
      ensures fq.submitted == old(fq.submitted) && s.spare == old(s.spare) && s.todo == old(s.todo) - 1
      ensures |old(s.comp)| <= |s.comp|
      ensures s.staged == Served(free, i + 1) && s.free == Left(free, i + 1)
    {
      WrappedSum(fq.submitted, i);
      StageSlot(Plus(idx, i));
      RepeatedNext(StageFrame, i);
      ServedNext(free, i);
      Interleave();
    }

    /** The loop over the n reserved slots, starting at idx. */
    method StageAll(idx: u32, n: u32)
      requires Shape() && Valid() && s.todo == n && s.staged == [] && idx == U32(fq.submitted)
      modifies Footprint()
      ensures Valid() && trace == old(trace) + Repeated(StageFrame, n) && Batches() == old(Batches())
      ensures s.todo == 0 && s.spare == old(s.spare)
      ensures |old(s.comp)| <= |s.comp|
      ensures s.staged == Served(old(s.free), n) && s.free == Left(old(s.free), n)
    {
      Interleave();
      for i := 0 to n
        invariant Valid() && trace == old(trace) + Repeated(StageFrame, i) && Batches() == old(Batches())
        invariant s.todo == n - i && s.spare == old(s.spare) && fq.submitted == old(fq.submitted)
        invariant |old(s.comp)| <= |s.comp|
        invariant s.staged == Served(old(s.free), i) && s.free == Left(old(s.free), i)
      {
        StageNext(idx, i, old(trace), old(s.free));
      }
    }

    method SubmitStaged(n: u32)
      requires Shape() && Valid() && s.todo == 0 && |s.staged| == n
      modifies this, fq
      ensures Valid() && trace == old(trace) + [SubmitFill] && Batches() == old(Batches())
      ensures s.todo == 0 && s.staged == [] && s.spare == old(s.spare)
      ensures |old(s.comp)| <= |s.comp|
      ensures s.fill == old(s.fill + s.staged) && s.free == old(s.free)
    {
      fq.Submit(n);
      Record(SubmitFill);
    }

    /** The loop and the submission: the last n entries of the ring are what the stack gave. */
    method StageAndSubmit(idx: u32, n: u32)
      requires Shape() && Valid() && s.todo == n > 0 && s.staged == [] && idx == U32(fq.submitted)
      modifies Footprint()
      ensures Valid() && Batches() == old(Batches()) && s.todo == 0 && s.staged == [] && s.spare == old(s.spare)
      ensures trace == old(trace) + Repeated(StageFrame, n) + [SubmitFill]
      ensures TookFrom(old(s.free), s, n)
      ensures |old(s.comp)| <= |s.comp|
    {
      StageAll(idx, n);
      SubmitStaged(n);
    }

    /** xsk_prod_nb_free on the FILL ring: the consumer index is read exactly if the local copy
        shows fewer than nb free slots. */
    method FillRoom(nb: u32) returns (free: u32, ghost look: seq<Event>)
      requires Shape() && Valid() && s.todo == 0 && s.staged == []
      modifies this, fq
      ensures Valid() && trace == old(trace) + look && Batches() == old(Batches())
      ensures look == if old(s.spare) >= nb then [] else [RefreshFill]
      ensures free == if old(s.spare) >= nb then old(s.spare) else cfg.fillSize - |old(s.fill)|
      ensures s == old(s).(spare := free)
    {
      look := if s.spare >= nb then [] else [RefreshFill];
      free := fq.NbFree(nb);
      if look != [] {
        Record(RefreshFill);
      }
    }

    /** Records a reservation of n slots, of which ret were given. */
    ghost method RecordReserve(n: nat, ret: nat)
      requires RunWith(Mem()) && s.todo == 0 && s.staged == [] && |s.fill| <= cfg.fillSize
      requires ret == if n <= s.spare || n <= cfg.fillSize - |s.fill| then n else 0
      modifies `s, `history, `trace, `memories
      ensures RunWith(Mem())
      ensures var free := if n <= old(s.spare) then old(s.spare) else cfg.fillSize - |old(s.fill)|;
              free >= ret && s == old(s).(todo := ret, spare := free - ret)
      ensures trace == old(trace) + ReserveSteps(n, n <= old(s.spare), ret == n)
    {
      if n > s.spare {
        Record(RefreshFill);
      }
      if ret == n {
        Record(ReserveFill(n));
      }
    }

    /** xsk_ring_prod__reserve on the FILL ring: all n slots if the local copy shows them or, after
        reading the consumer index, they are free; else none. */
    method ReserveFillSlots(n: u32) returns (ret: u32, idx: u32)
      requires Shape() && Valid() && s.todo == 0 && s.staged == []
      modifies this, fq
      ensures Valid() && Batches() == old(Batches())
      ensures ret == if n <= old(s.spare) || n <= cfg.fillSize - |old(s.fill)| then n else 0
      ensures ret == n ==> idx == U32(fq.submitted)
      ensures s == old(s).(todo := ret, spare := s.spare)
      ensures s.spare == (if n <= old(s.spare) then old(s.spare) else cfg.fillSize - |old(s.fill)|) - ret
      ensures trace == old(trace) + ReserveSteps(n, n <= old(s.spare), ret == n)
    {
      assert fq.reserved == fq.submitted;
      ret, idx := fq.Reserve(n);
      RecordReserve(n, ret);
    }

    /** Lines 349 to 368: reserve the slots that RefillCount says and fill them from the stack. The
        last n entries of the ring are then what the stack gave; INVALID_UMEM_FRAME is one of them
        unless the local copy showed exactly one slot for every frame on the stack, or no more were
        free. Afterwards the copy shows none. */
    method Refill() returns (ghost n: nat)
      requires Shape() && Valid() && s.todo == 0 && s.staged == []
      modifies Footprint()
      ensures Valid() && Batches() == old(Batches())
      ensures trace == old(trace) + (LookSteps(old(s)) + RefillSteps(n))
      ensures Refilled(cfg, old(s), s, n)
      ensures |old(s.comp)| <= |s.comp|
      ensures INVALID_UMEM_FRAME in s.fill[|s.fill| - n..] <==>
                !(old(s.spare) == old(frameFree) || cfg.fillSize - |old(s.fill)| <= old(frameFree))
      ensures s.todo == 0 && s.staged == [] && s.spare == 0
    {
      RefillKnown();
      var stockFrames, look := FillRoom(frameFree);
      n := stockFrames;
      RefillTrace(old(trace), look, n);
      RefillBy(stockFrames);
    }

    lemma RefillKnown()
      requires Shape() && Valid() && s.todo == 0 && s.staged == []
      ensures 0 <= RefillCount(cfg, s)
      ensures INVALID_UMEM_FRAME in Served(s.free, RefillCount(cfg, s)) <==>
                !(s.spare == frameFree || cfg.fillSize - |s.fill| <= frameFree)
    {
      RunInv(cfg, history);
      RefillExact(cfg, s);
    }

    /** Lines 353 to 368. */
    method RefillBy(n: u32)
      requires Shape() && Valid() && s.todo == 0 && s.staged == [] && n == s.spare
      modifies Footprint()
      ensures Valid() && Batches() == old(Batches())
      ensures trace == old(trace) + RefillSteps(n)
      ensures TookFrom(old(s.free), s, n)
      ensures |old(s.comp)| <= |s.comp|
      ensures s.todo == 0 && s.staged == [] && s.spare == 0
    {
      Interleave();
      if n > 0 {
        ReserveAndFill(n);
      } else {
        EmptyRefill(trace, s);
      }
    }

    /** Lines 355 to 367. */
    method ReserveAndFill(n: u32)
      requires Shape() && Valid() && s.todo == 0 && s.staged == [] && 0 < n == s.spare
      modifies Footprint()
      ensures Valid() && Batches() == old(Batches())
      ensures trace == old(trace) + RefillSteps(n)
      ensures TookFrom(old(s.free), s, n)
      ensures |old(s.comp)| <= |s.comp|
      ensures s.todo == 0 && s.staged == [] && s.spare == 0
    {
      var idxFq := ReserveShown(n);
      StageAndSubmit(idxFq, n);
      FilledTrace(old(trace), n);
    }

    /** Lines 355 to 361: as the copy shows the slots, they are reserved at once. */
    method ReserveShown(n: u32) returns (idx: u32)
      requires Shape() && Valid() && s.todo == 0 && s.staged == [] && 0 < n == s.spare
      modifies this, fq
      ensures Valid() && Batches() == old(Batches()) && idx == U32(fq.submitted)
      ensures s.todo == n && s.staged == [] && s.spare == 0 && s.free == old(s.free)
      ensures trace == old(trace) + [ReserveFill(n)]
      ensures |old(s.comp)| <= |s.comp|
    {
      var ret;
      ret, idx := ReserveFillSlots(n);
      assert ret == n;  // the guard of the retry loop is false at once
    }

    /** The end of xsk_configure_socket: fill the ring completely, or report an error; it succeeds
        exactly if the ring holds no entry. */
    method StuffFillRing() returns (ok: bool)
      requires Shape() && Valid() && Idle()
      modifies Footprint()
      ensures Valid() && Idle()
      ensures ok <==> old(s.fill) == []
      ensures trace == old(trace) + StuffSteps(cfg.fillSize, old(s.spare) == cfg.fillSize, ok)
      ensures ok ==> TookFrom(old(s.free), s, cfg.fillSize)
      ensures !ok ==> s == old(s).(spare := cfg.fillSize - |old(s.fill)|)
    {
      var n := fq.ring.Length;
      assert s.spare + |s.fill| <= n;
      var ret, idx := ReserveFillSlots(n);
      StuffTrace(old(trace), n, old(s.spare) == n);
      if ret != n {
        return false;
      }
      StageAndSubmit(idx, n);
      ok := true;
    }

    // ----- received packets

    /** The FILL side and the peeked COMPLETION entries, which processing packets does not touch. */
    ghost function FillSide(): (nat, seq<u64>, nat, seq<u64>, nat, nat, nat, int)
      reads this, fq, cq
    {
      (s.todo, s.staged, s.spare, s.compBatch, s.compDone, fq.submitted, cq.released, cq.Known())
    }

    /** The lines of process_packet from the reservation on: queue the frame for transmission. The
        machine was in state t. */
    method QueueReply(d: Desc, ghost t: State) returns (sent: bool)
      requires Shape() && Coupled(t) && cfg.replies && Held(d, t)
      modifies `outstandingTx, `txPackets, tx, tx.ring
      ensures sent <==> |t.tx| < cfg.txSize
      ensures Coupled(if sent then Apply(cfg, t, ReplyPacket) else t)
    {
      sent := tx.PutOne(d);
      if sent {
        outstandingTx := Plus(outstandingTx, 1);
        txPackets := txPackets + 1;
      }
    }

    /** d is the packet being worked on in state t; it lies in the UMEM area, and the stack has room for
        its frame. */
    ghost predicate Held(d: Desc, t: State) {
      t.rxDone < |t.rxBatch| && d == t.rxBatch[t.rxDone] && Fits(cfg, d) && |t.free| < cfg.frames
    }

    lemma PacketIsHeld()
      requires RunWith(Mem()) && s.rxDone < |s.rxBatch|
      ensures Held(s.rxBatch[s.rxDone], s) && Sized(cfg, Mem())
    {
      RunInv(cfg, history);
      FreeNeverOverflows(cfg, s);
    }

    /** The memory is what process_packet makes of m. */
    ghost predicate Processed(d: Desc, m: Memory)
      reads `got, umem
    {
      && got == m.got && Sized(cfg, m) && Sized(cfg, Mem()) && d.addr + d.len <= |m.bytes|
      && umem[..] == if cfg.replies then EchoReply.Rewritten(host, m.bytes, d.addr, d.len) else m.bytes
    }

    /** Records what became of the packet, which was processed when the memory was m. */
    ghost method RecordPacket(d: Desc, m: Memory)
      requires RunWith(m) && s.rxDone < |s.rxBatch| && d == s.rxBatch[s.rxDone] && Processed(d, m)
      modifies `s, `history, `trace, `memories
      ensures RunWith(Mem())
      ensures var e := PacketEvent(cfg, old(s), Packet(m.bytes, d));
              s == Apply(cfg, old(s), e) && trace == old(trace) + [e]
      ensures FillSide() == old(FillSide()) && s.rxBatch == old(s.rxBatch) && s.rxDone == old(s.rxDone) + 1
      ensures s.comp == old(s.comp)
    {
      ghost var e := PacketEvent(cfg, s, Packet(m.bytes, d));
      PacketStep(d, m, e);
      RecordStep(e, m);
    }

    lemma PacketStep(d: Desc, m: Memory, e: Event)
      requires cfg.Valid() && s.rxDone < |s.rxBatch| && d == s.rxBatch[s.rxDone] && Processed(d, m)
      requires e == PacketEvent(cfg, s, Packet(m.bytes, d))
      ensures StepsFrom(e, m)
      ensures var t := Apply(cfg, s, e);
              && t.rxBatch == s.rxBatch && t.rxDone == s.rxDone + 1 && t.comp == s.comp
              && t.todo == s.todo && t.staged == s.staged && t.spare == s.spare
              && t.compBatch == s.compBatch && t.compDone == s.compDone
    {
    }

    /** process_packet; cfg.replies is the constant condition around its body. The bytes of an echo
        request are rewritten even if it cannot be sent. The machine was in state t. */
    method ProcessPacket(d: Desc, ghost t: State) returns (sent: bool)
      requires Shape() && Coupled(t) && Held(d, t) && Sized(cfg, Mem())
      modifies `outstandingTx, `txPackets, tx, tx.ring, umem
      ensures sent <==> Answered(cfg, t, Packet(old(umem[..]), d))
      ensures Coupled(if sent then Apply(cfg, t, ReplyPacket) else t)
      ensures Processed(d, old(Mem()))
    {
      sent := false;
      if cfg.replies {
        sent := AnswerPacket(d, t);
      }
    }

    /** The body of process_packet behind that condition. */
    method AnswerPacket(d: Desc, ghost t: State) returns (sent: bool)
      requires Shape() && Coupled(t) && cfg.replies && Held(d, t) && Sized(cfg, Mem())
      modifies `outstandingTx, `txPackets, tx, tx.ring, umem
      ensures sent <==> Answered(cfg, t, Packet(old(umem[..]), d))
      ensures Coupled(if sent then Apply(cfg, t, ReplyPacket) else t)
      ensures Processed(d, old(Mem()))
    {
      sent := RewritePacket(d);
      if sent {
        sent := QueueReply(d, t);
      }
    }

    method RewritePacket(d: Desc) returns (request: bool)
      requires cfg.replies && Fits(cfg, d) && Sized(cfg, Mem())
      modifies umem
      ensures request <==> EchoReply.IsEchoRequest(Packet(old(umem[..]), d))
      ensures Processed(d, old(Mem()))
    {
      request := EchoReply.RewriteEcho(host, umem, d.addr, d.len);
    }

    /** xsk_free_umem_frame on the frame of a received packet. The stack has room: the assert of the
        program holds. The machine was in state t. */
    method FreeReceived(addr: u64, ghost t: State)
      requires Shape() && Coupled(t) && t.rxDone < |t.rxBatch| && addr == t.rxBatch[t.rxDone].addr
      requires |t.free| < cfg.frames
      modifies `frameFree, frameAddr
      ensures Coupled(Apply(cfg, t, FreePacket))
    {
      FreeUmemFrame(addr);
    }

    /** One iteration of the receive loop: process the packet, and free its frame unless it was
        queued for transmission. */
    method HandlePacket(d: Desc)
      requires Shape() && Valid() && s.rxDone < |s.rxBatch| && d == s.rxBatch[s.rxDone]
      modifies this, tx, tx.ring, umem, frameAddr
      ensures Valid() && Processed(d, old(Mem())) && FillSide() == old(FillSide()) && rx.released == old(rx.released)
      ensures trace == old(trace) + [PacketEvent(cfg, old(s), Packet(old(umem[..]), d))]
      ensures s.rxBatch == old(s.rxBatch) && s.rxDone == old(s.rxDone) + 1
      ensures |old(s.comp)| <= |s.comp|
    {
      ghost var m := Mem();
      PacketIsHeld();
      ProcessOrFree(d, s);
      RecordPacket(d, m);
    }

    method ProcessOrFree(d: Desc, ghost t: State)
      requires Shape() && Coupled(t) && Held(d, t) && Sized(cfg, Mem())
      modifies `outstandingTx, `txPackets, `frameFree, tx, tx.ring, umem, frameAddr
      ensures Processed(d, old(Mem()))
      ensures Coupled(Apply(cfg, t, PacketEvent(cfg, t, Packet(old(umem[..]), d))))
    {
      var sent := ProcessPacket(d, t);
      if !sent {
        FreeReceived(d.addr, t);
      }
    }

    /** Iteration i of the receive loop, with the descriptor read from the ring; the kernel may run
        before the next iteration. */
    method HandleNext(idx: u32, i: u32, ghost before: seq<Event>, ghost handled: seq<Event>)
      returns (ghost more: seq<Event>)
      requires Shape() && Valid() && |handled| == s.rxDone == i < |s.rxBatch| && idx == U32(rx.released)
      requires trace == before + handled && AllHandled(handled, cfg.replies)
      modifies Footprint()
      ensures Valid() && FillSide() == old(FillSide()) && rx.released == old(rx.released)
      ensures trace == before + more && AllHandled(more, cfg.replies) && |more| == |handled| + 1
      ensures s.rxBatch == old(s.rxBatch) && s.rxDone == old(s.rxDone) + 1
      ensures |old(s.comp)| <= |s.comp|
    {
      ghost var e := HandleAt(idx, i);
      more := handled + [e];
      assert before + handled + [e] == before + more;
      Interleave();
    }

    method HandleAt(idx: u32, i: u32) returns (ghost e: Event)
      requires Shape() && Valid() && s.rxDone == i < |s.rxBatch| && idx == U32(rx.released)
      modifies this, tx, tx.ring, umem, frameAddr
      ensures Valid() && FillSide() == old(FillSide()) && rx.released == old(rx.released)
      ensures trace == old(trace) + [e] && (e == FreePacket || (cfg.replies && e == ReplyPacket))
      ensures s.rxBatch == old(s.rxBatch) && s.rxDone == old(s.rxDone) + 1
      ensures |old(s.comp)| <= |s.comp|
    {
      WrappedSum(rx.released, i);
      var d := rx.Get(Plus(idx, i), s.rxDone);
      HandlePacket(d);
      e := trace[|trace| - 1];
    }

    /** The receive loop over the n peeked descriptors. */
    method HandleAll(idx: u32, n: u32) returns (ghost handled: seq<Event>)
      requires Shape() && Valid() && s.rxDone == 0 && |s.rxBatch| == n && idx == U32(rx.released)
      modifies Footprint()
      ensures Valid() && FillSide() == old(FillSide())
      ensures trace == old(trace) + handled && |handled| == n && AllHandled(handled, cfg.replies)
      ensures s.rxDone == |s.rxBatch| == n
      ensures |old(s.comp)| <= |s.comp|
    {
      handled := [];
      for i := 0 to n
        invariant Valid() && trace == old(trace) + handled && FillSide() == old(FillSide())
        invariant |s.rxBatch| == n && s.rxDone == i && rx.released == old(rx.released)
        invariant |handled| == i && AllHandled(handled, cfg.replies) && |old(s.comp)| <= |s.comp|
      {
        handled := HandleNext(idx, i, old(trace), handled);
      }
    }

    /** xsk_ring_cons__peek on the RX ring. */
    method PeekReceived(nb: u32) returns (n: u32, idx: u32)
      requires Shape() && Valid() && s.rxBatch == [] && 0 < nb <= RX_BATCH_SIZE
      modifies this, rx
      ensures Valid() && FillSide() == old(FillSide())
      ensures trace == if n == 0 then old(trace) else old(trace) + [PeekRx(n)]
      ensures |s.rxBatch| == n && idx == U32(rx.released) && (n > 0 ==> s.rxDone == 0)
      ensures s.free == old(s.free)
      ensures |old(s.comp)| <= |s.comp|
      ensures n == Min(nb, if old(rx.Known()) > 0 then old(rx.Known()) else |old(s.rx)|)
    {
      n, idx := rx.Peek(nb);
      if n > 0 {
        Record(PeekRx(n));
      }
    }

    /** xsk_ring_cons__release on the RX ring, and stats.rx_packets += rcvd. */
    method ReleaseReceived(n: u32)
      requires Shape() && Valid() && s.rxDone == |s.rxBatch| == n
      modifies this, rx
      ensures Valid() && trace == old(trace) + [ReleaseRx] && FillSide() == old(FillSide())
      ensures s.rxBatch == [] && rxPackets == old(rxPackets) + n
      ensures |old(s.comp)| <= |s.comp|
    {
      rx.Release(n);
      rxPackets := rxPackets + n;
      Record(ReleaseRx);
    }

    // ----- completed transmissions

    /** What collecting completions does not touch. */
    ghost function ReceiveSide(): (nat, seq<u64>, nat, seq<Desc>, nat, nat, nat, u32)
      reads this, fq, rx
    {
      (s.todo, s.staged, s.spare, s.rxBatch, s.rxDone, fq.submitted, rx.released, outstandingTx)
    }

    lemma CompletedFits()
      requires Shape() && Valid() && s.compDone < |s.compBatch|
      ensures frameFree < frameAddr.Length
    {
      RunInv(cfg, history);
      FreeNeverOverflows(cfg, s);
    }

    method FreeOneCompleted(frame: u64)
      requires Shape() && Valid() && s.compDone < |s.compBatch| && frame == s.compBatch[s.compDone]
      modifies this, frameAddr
      ensures Valid() && trace == old(trace) + [FreeCompleted] && ReceiveSide() == old(ReceiveSide())
      ensures s.compBatch == old(s.compBatch) && s.compDone == old(s.compDone) + 1
      ensures cq.released == old(cq.released) && cq.Known() == old(cq.Known())
    {
      CompletedFits();
      FreeUmemFrame(frame);
      Record(FreeCompleted);
    }

    /** Iteration i of the loop of complete_tx, which began after the steps before. */
    method FreeNextCompleted(idx: u32, i: u32, ghost before: seq<Event>)
      requires Shape() && Valid() && s.compDone == i < |s.compBatch| && idx == U32(cq.released)
      requires trace == before + Repeated(FreeCompleted, i)
      modifies Footprint()
      ensures Valid() && ReceiveSide() == old(ReceiveSide())
      ensures cq.released == old(cq.released) && cq.Known() == old(cq.Known())
      ensures s.compBatch == old(s.compBatch) && s.compDone == i + 1
      ensures trace == before + Repeated(FreeCompleted, i + 1)
    {
      WrappedSum(cq.released, i);
      var frame := cq.Get(Plus(idx, i), s.compDone);
      FreeOneCompleted(frame);
      RepeatedNext(FreeCompleted, i);
      Interleave();
    }

    method FreeAllCompleted(idx: u32, n: u32)
      requires Shape() && Valid() && s.compDone == 0 && |s.compBatch| == n && idx == U32(cq.released)
      modifies Footprint()
      ensures Valid() && trace == old(trace) + Repeated(FreeCompleted, n) && ReceiveSide() == old(ReceiveSide())
      ensures s.compDone == |s.compBatch| == n && cq.Known() == old(cq.Known())
    {
      for i := 0 to n
        invariant Valid() && trace == old(trace) + Repeated(FreeCompleted, i) && ReceiveSide() == old(ReceiveSide())
        invariant |s.compBatch| == n && s.compDone == i
        invariant cq.released == old(cq.released) && cq.Known() == old(cq.Known())
      {
        FreeNextCompleted(idx, i, old(trace));
      }
    }

    method PeekCompleted(nb: u32) returns (n: u32, idx: u32)
      requires Shape() && Valid() && s.compBatch == [] && cq.Known() == 0 && nb == cq.ring.Length
      modifies this, cq
      ensures Valid() && ReceiveSide() == old(ReceiveSide())
      ensures trace == if n == 0 then old(trace) else old(trace) + [PeekComp(n)]
      ensures |s.compBatch| == n && idx == U32(cq.released) && (n > 0 ==> s.compDone == 0)
      ensures n == |old(s.comp)| && cq.Known() == 0
    {
      n, idx := cq.Peek(nb);
      if n > 0 {
        Record(PeekComp(n));
      }
    }

    method ReleaseCompleted(n: u32)
      requires Shape() && Valid() && s.compDone == |s.compBatch| == n
      modifies this, cq
      ensures Valid() && trace == old(trace) + [ReleaseComp] && ReceiveSide() == old(ReceiveSide())
      ensures s.compBatch == [] && cq.Known() == old(cq.Known())
    {
      cq.Release(n);
      Record(ReleaseComp);
    }

    /** complete_tx: free all n frames it peeks in the COMPLETION ring. It does nothing if
        outstanding_tx is zero, and otherwise collects all that the ring shows. */
    method CompleteTx() returns (ghost n: nat)
      requires Shape() && Valid() && s.compBatch == [] && cq.Known() == 0
      modifies Footprint()
      ensures Valid() && s.compBatch == [] && cq.Known() == 0 && ReceiveSide() == old(ReceiveSide())
      ensures trace == old(trace) + CompletionSteps(n)
      ensures old(outstandingTx) == 0 ==> n == 0 && history == old(history)
      ensures old(outstandingTx) > 0 ==> n >= |old(s.comp)|
    {
      if outstandingTx == 0 {
        return 0;
      }
      Interleave();
      var completed, idxCq := PeekCompleted(cq.ring.Length);
      if completed > 0 {
        FreeAllCompleted(idxCq, completed);
        ReleaseCompleted(completed);
      }
      n := completed;
      CompletionTrace(old(trace), n);
    }

    // ----- a whole batch

    /** Lines 348 to 386, for the n packets that were peeked. */
    method HandleBatch(idx: u32, n: u32)
      returns (ghost refill: seq<Event>, ghost m: nat, ghost handled: seq<Event>, ghost done: nat)
      requires Shape() && Valid() && s.rxDone == 0 && |s.rxBatch| == n && idx == U32(rx.released)
      requires s.todo == 0 && s.staged == [] && s.compBatch == [] && cq.Known() == 0
      modifies Footprint()
      ensures Valid() && Idle() && s.spare == 0
      ensures if outstandingTx == 0 then done == 0 else done >= |old(s.comp)|
      ensures refill == LookSteps(old(s)) + RefillSteps(m) && |handled| == n && AllHandled(handled, cfg.replies)
      ensures trace == old(trace) + refill + handled + [ReleaseRx] + CompletionSteps(done)
      ensures old(s.spare) >= |old(s.free)| ==> m == old(s.spare)
    {
      Interleave();
      refill := LookSteps(s);
      m := Refill();
      refill := refill + RefillSteps(m);
      handled := HandleAll(idx, n);
      ReleaseReceived(n);
      done := CompleteTx();
    }

    /** handle_receive_packets, with the kernel running in between: a run of the machine and of the
        memory that ends between batches, whose user steps are those of one batch of n packets, in
        order. It takes what the local copy of the RX ring shows, or what the ring shows if that is
        none, up to RX_BATCH_SIZE. The refill reserves m slots, which are all that the local copy shows
        once it has looked: afterwards it shows none. All completions the ring showed are collected,
        unless outstanding_tx is zero. */
    method HandleReceivePackets() returns (ghost n: nat, ghost m: nat, ghost done: nat)
      requires Shape() && Valid() && Idle()
      modifies Footprint()
      ensures Valid() && Idle()
      ensures n == Min(RX_BATCH_SIZE, if old(rx.Known()) > 0 then old(rx.Known()) else |old(s.rx)|)
      ensures n == 0 ==> trace == old(trace)
      ensures n > 0 ==> old(trace) <= trace && IsBatch(trace[|old(trace)|..], old(s), n, m, done, cfg.replies)
      ensures n > 0 ==> s.spare == 0
      ensures n > 0 && old(s.spare) >= |old(s.free)| ==> m == old(s.spare)
      ensures n > 0 ==> if outstandingTx == 0 then done == 0 else done >= |old(s.comp)|
    {
      var rcvd, idxRx := PeekReceived(RX_BATCH_SIZE);
      n, m, done := rcvd, 0, 0;
      if rcvd == 0 {
        return;
      }
      ghost var refill, handled;
      refill, m, handled, done := HandleBatch(idxRx, rcvd);
      BatchSteps(old(trace), old(s), refill, m, handled, done, n, cfg.replies);
    }

    lemma StackSafe()
      requires Shape() && Valid()
      ensures s.free == frameAddr[..frameFree] && frameFree <= cfg.frames
      ensures forall i, j :: 0 <= i < j < frameFree ==> frameAddr[i] / cfg.frameSize != frameAddr[j] / cfg.frameSize
    {
      RunInv(cfg, history);
      forall i, j | 0 <= i < j < frameFree ensures frameAddr[i] / cfg.frameSize != frameAddr[j] / cfg.frameSize {
        StackIsDistinct(cfg, s, i, j);
        assert s.free[i] == frameAddr[i] && s.free[j] == frameAddr[j];
      }
    }

    /** Step i of the program, if it is about a packet, sent or freed the packet that was delivered in
        its chunk, by the rule: an echo request is sent if replies are on and there was room. */
    lemma EveryPacketHandled(i: nat)
      requires Shape() && Valid() && i < |history| && (history[i].FreePacket? || history[i].ReplyPacket?)
      ensures |memories| == |history| + 1 && StateAfter(cfg, history[..i]).Some?
      ensures Handled(cfg, StateAfter(cfg, history[..i]).value, history[i], memories[i].got)
    {
      PacketsHandled(cfg, host, history, memories, i);
    }

    /** The counters of the program: tx_packets and outstanding_tx count the packets sent, the latter in
        32 bits, and rx_packets between batches all packets. */
    lemma PacketsCounted()
      requires Shape() && Valid()
      ensures txPackets == Times(history, ReplyPacket) && outstandingTx == Times(history, ReplyPacket) % TWO32
      ensures Idle() ==> rxPackets == Times(history, ReplyPacket) + Times(history, FreePacket)
    {
      RunInv(cfg, history);
      RunCounters(cfg, history);
    }

    /** What holds after any number of batches: the whole invariant, so the frames are partitioned;
        the stack array holds frames of different chunks and never overflows; and the FILL ring
        shows the kernel no INVALID_UMEM_FRAME if every reservation kept the bound, which they all
        do for a kernel that hands frames straight from FILL to RX, with replies off and as many
        frames as these rings have slots. Every frame in the TX ring, or on its way out, is the answer
        to the echo request that was delivered in its chunk. */
    lemma AlwaysSafe()
      requires Shape() && Valid()
      ensures Inv(cfg, s) && s.free == frameAddr[..frameFree] && frameFree <= cfg.frames
      ensures forall i, j :: 0 <= i < j < frameFree ==> frameAddr[i] / cfg.frameSize != frameAddr[j] / cfg.frameSize
      ensures BoundKept(cfg, history) ==> INVALID_UMEM_FRAME !in fq.visible && INVALID_UMEM_FRAME !in fq.staged
      ensures !cfg.replies && cfg.atomicRx && cfg.fillSize + cfg.rxSize <= cfg.frames ==> BoundKept(cfg, history)
      ensures Idle() ==> s.rxPackets == s.replied + s.freedAtOnce && s.txPackets <= s.rxPackets
      ensures outstandingTx == 0 && s.replied < TWO32 ==> tx.visible == [] && s.ktx == [] && cq.visible == []
      ensures |got| == cfg.frames && Sized(cfg, Mem())
      ensures forall d :: d in tx.visible || d in s.ktx ==> Replied(cfg, host, Mem(), d)
    {
      RunInv(cfg, history);
      AnswersAreSent(cfg, host, history, memories);
      StackSafe();
      if BoundKept(cfg, history) {
        BoundedRunClean(cfg, history);
      }
      if Idle() {
        PacketsBalance(cfg, s);
      }
      if s.outstandingTx == 0 {
        NothingStranded(cfg, s);
      }
      if !cfg.replies && cfg.atomicRx && cfg.fillSize + cfg.rxSize <= cfg.frames {
        QuietBound(cfg, history);
      }
    }
  }
}
