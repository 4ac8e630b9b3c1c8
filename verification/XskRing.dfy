/** The single-producer single-consumer rings shared with the kernel, as libbpf's accessors use
    them: free-running 32-bit indices that wrap around, and local copies of the other side's
    index that may be stale. Ghost counters count without wrapping. */
module XskRing {
  import opened Bytes
  import opened Division
  import opened Word32

  function U32(n: int): u32 {
    n % 0x1_0000_0000
  }

  /** A ring size: a power of two, of which only this matters. */
  predicate RingSize(size: nat) {
    0 < size < TWO32 && TWO32 % size == 0
  }

  /** Masking a wrapped index gives the slot of the unwrapped one. */
  lemma SlotOfWrapped(n: nat, size: nat)
    requires RingSize(size)
    ensures U32(n) % size == n % size
  {
    var k, j := n / TWO32, TWO32 / size;
    assert TWO32 == j * size;
    WrapMultiple(U32(n), k, j, size);
    assert n == k * TWO32 + U32(n);
  }

  lemma WrapMultiple(r: nat, k: nat, j: nat, size: nat)
    requires size > 0
    ensures (k * (j * size) + r) % size == r % size
  {
    var q, s := r / size, r % size;
    MulAssociates(k, j, size);
    MulDistributes(k * j, q, size);
    QuotientUnique(k * (j * size) + r, k * j + q, s, size);
  }

  /** Different positions less than a ring apart use different slots. */
  lemma SlotsDistinct(m: nat, n: nat, size: nat)
    requires m < n < m + size
    ensures m % size != n % size
  {
    var q, r := m / size, m % size;
    var d := n - m;
    assert m == q * size + r;
    if r + d < size {
      QuotientUnique(n, q, r + d, size);
    } else {
      assert n == (q + 1) * size + (r + d - size);
      QuotientUnique(n, q + 1, r + d - size, size);
    }
  }

  /** The difference of two wrapped counters less than 2^32 apart is their true difference. */
  lemma WrappedDifference(m: nat, n: nat)
    requires m <= n < m + TWO32
    ensures Minus(U32(n), U32(m)) == n - m
  {
  }

  function Min(x: int, y: int): int {
    if x < y then x else y
  }

  // ----- the slots of a ring

  function Slot(from: nat, i: nat, size: nat): nat
    requires size > 0
  {
    (from + i) % size
  }

  /** The slots from position from on hold these entries. */
  ghost predicate Holds<T>(slots: seq<T>, from: nat, entries: seq<T>) {
    && 0 < |slots| && |entries| <= |slots|
    && forall i {:trigger Slot(from, i, |slots|)} :: 0 <= i < |entries| ==> slots[Slot(from, i, |slots|)] == entries[i]
  }

  lemma HoldsAt<T>(slots: seq<T>, from: nat, entries: seq<T>, i: nat)
    requires Holds(slots, from, entries) && i < |entries|
    ensures slots[(from + i) % |slots|] == entries[i]
  {
    assert Slot(from, i, |slots|) == (from + i) % |slots|;
  }

  lemma HoldsConcat<T>(slots: seq<T>, from: nat, a: seq<T>, b: seq<T>)
    requires Holds(slots, from, a) && Holds(slots, from + |a|, b) && |a| + |b| <= |slots|
    ensures Holds(slots, from, a + b)
  {
    forall i | 0 <= i < |a + b| ensures slots[Slot(from, i, |slots|)] == (a + b)[i] {
      if i >= |a| {
        assert Slot(from, i, |slots|) == Slot(from + |a|, i - |a|, |slots|);
      }
    }
  }

  lemma HoldsSplit<T>(slots: seq<T>, from: nat, entries: seq<T>, n: nat)
    requires Holds(slots, from, entries) && n <= |entries|
    ensures Holds(slots, from, entries[..n]) && Holds(slots, from + n, entries[n..])
  {
    forall i | 0 <= i < |entries| - n ensures slots[Slot(from + n, i, |slots|)] == entries[n..][i] {
      assert Slot(from + n, i, |slots|) == Slot(from, n + i, |slots|);
    }
  }

  /** Writing a slot less than a ring ahead changes none of the entries. */
  lemma HoldsUpdate<T>(slots: seq<T>, from: nat, entries: seq<T>, next: nat, v: T)
    requires Holds(slots, from, entries) && from + |entries| <= next < from + |slots|
    ensures Holds(slots[next % |slots| := v], from, entries)
  {
    forall i | 0 <= i < |entries| ensures Slot(from, i, |slots|) != next % |slots| {
      SlotsDistinct(from + i, next, |slots|);
    }
  }

  /** Writing the slot behind the entries adds one. */
  lemma HoldsNext<T>(slots: seq<T>, from: nat, entries: seq<T>, next: nat, v: T)
    requires Holds(slots, from, entries) && from + |entries| == next < from + |slots|
    ensures Holds(slots[next % |slots| := v], from, entries + [v])
  {
    HoldsUpdate(slots, from, entries, next, v);
    HoldsConcat(slots[next % |slots| := v], from, entries, [v]);
  }

  /** struct xsk_ring_prod: user space produces, the kernel consumes. visible are the entries the
      kernel may take, staged those written into reserved slots and not yet submitted. */
  class ProdRing<T(0)> {
    const ring: array<T>
    var producer: u32
    var consumer: u32
    var cachedProd: u32
    var cachedCons: u32

    ghost var submitted: nat
    ghost var consumed: nat
    ghost var reserved: nat
    ghost var seen: nat
    ghost var visible: seq<T>
    ghost var staged: seq<T>

    ghost predicate Valid()
      reads this, ring
    {
      && RingSize(ring.Length)
      && seen <= consumed <= submitted <= reserved <= seen + ring.Length
      && producer == U32(submitted) && consumer == U32(consumed)
      && cachedProd == U32(reserved) && cachedCons == U32(seen + ring.Length)
      && |visible| == submitted - consumed && |staged| <= reserved - submitted
      && Holds(ring[..], consumed, visible) && Holds(ring[..], submitted, staged)
    }

    /** Free slots as the local copies show them. */
    ghost function Spare(): int
      reads this
    {
      seen + ring.Length - reserved
    }

    constructor (ring: array<T>)
      requires RingSize(ring.Length)
      ensures Valid() && this.ring == ring
      ensures visible == [] && staged == [] && reserved == submitted && Spare() == ring.Length
    {
      this.ring := ring;
      producer, consumer, cachedProd, cachedCons := 0, 0, 0, ring.Length;
      submitted, consumed, reserved, seen := 0, 0, 0, 0;
      visible, staged := [], [];
    }

    /** xsk_ring_prod__free: reads the consumer index and gives the true number of free slots. */
    method Free() returns (free: u32)
      requires Valid()
      modifies this`cachedCons, this`seen
      ensures Valid() && seen == consumed
      ensures free == Spare() == ring.Length - |visible| - (reserved - submitted)
    {
      cachedCons := Plus(consumer, ring.Length);
      seen := consumed;
      WrappedSum(consumed, ring.Length);
      WrappedDifference(reserved, seen + ring.Length);
      free := Minus(cachedCons, cachedProd);
    }

    /** xsk_prod_nb_free: the number of free slots, from the local copies alone if they show at
        least nb; the number may exceed nb and, being stale, be too small, but never too large. */
    method NbFree(nb: u32) returns (free: u32)
      requires Valid()
      modifies this`cachedCons, this`seen
      ensures Valid() && free == Spare() <= ring.Length - |visible| - (reserved - submitted)
      ensures if old(Spare()) >= nb then seen == old(seen) else seen == consumed
      ensures free < nb ==> free == ring.Length - |visible| - (reserved - submitted)
    {
      WrappedDifference(reserved, seen + ring.Length);
      free := Minus(cachedCons, cachedProd);
      if free >= nb {
        return;
      }
      free := Free();
    }

    /** xsk_ring_prod__reserve: all nb slots or none. */
    method Reserve(nb: u32) returns (n: u32, idx: u32)
      requires Valid()
      modifies this`cachedCons, this`cachedProd, this`seen, this`reserved
      ensures Valid() && n == (if nb <= seen + ring.Length - old(reserved) then nb else 0)
      ensures reserved == old(reserved) + n
      ensures n == nb ==> idx == U32(old(reserved))
      ensures if old(Spare()) >= nb then seen == old(seen) else seen == consumed
    {
      var free := NbFree(nb);
      idx := cachedProd;
      if free < nb {
        return 0, idx;
      }
      TakeSlots(nb);
      n := nb;
    }

    /** cached_prod += nb. */
    method TakeSlots(nb: u32)
      requires Valid() && nb <= Spare()
      modifies this`cachedProd, this`reserved
      ensures Valid() && reserved == old(reserved) + nb
    {
      WrappedSum(reserved, nb);
      cachedProd := Plus(cachedProd, nb);
      reserved := reserved + nb;
    }

    /** *fill_addr(idx) = v, or a store to *tx_desc(idx), for the next reserved slot. */
    method SetSlot(idx: u32, v: T)
      requires Valid() && |staged| < reserved - submitted && idx == U32(submitted + |staged|)
      modifies ring, this`staged
      ensures Valid() && staged == old(staged) + [v]
    {
      ghost var next := submitted + |staged|;
      HoldsUpdate(ring[..], consumed, visible, next, v);
      HoldsNext(ring[..], submitted, staged, next, v);
      SlotOfWrapped(next, ring.Length);
      ring[idx % ring.Length] := v;
      staged := staged + [v];
    }

    /** xsk_ring_prod__submit, called when every reserved slot has been written. */
    method Submit(nb: u32)
      requires Valid() && nb == |staged| == reserved - submitted
      modifies this`producer, this`submitted, this`visible, this`staged
      ensures Valid() && visible == old(visible + staged) && staged == [] && submitted == reserved
    {
      WrappedSum(submitted, nb);
      HoldsConcat(ring[..], consumed, visible, staged);
      producer := Plus(producer, nb);
      submitted := submitted + nb;
      visible, staged := visible + staged, [];
    }

    /** Reserve one slot, write it and submit it, as process_packet does on the TX ring. */
    method PutOne(v: T) returns (ok: bool)
      requires Valid() && staged == [] && reserved == submitted
      modifies this, ring
      ensures Valid() && staged == [] && reserved == submitted
      ensures visible == if ok then old(visible) + [v] else old(visible)
      ensures ok <==> |old(visible)| < ring.Length
    {
      var ret, idx := Reserve(1);
      if ret != 1 {
        return false;
      }
      SetSlot(idx, v);
      Submit(1);
      return true;
    }

    /** The kernel takes the oldest entry. */
    method KernelTake() returns (v: T)
      requires Valid() && visible != []
      modifies this`consumer, this`consumed, this`visible
      ensures Valid() && v == old(visible[0]) && visible == old(visible[1..])
      ensures consumed == old(consumed) + 1
    {
      SlotOfWrapped(consumed, ring.Length);
      HoldsAt(ring[..], consumed, visible, 0);
      HoldsSplit(ring[..], consumed, visible, 1);
      v := ring[consumer % ring.Length];
      WrappedSum(consumed, 1);
      consumer := Plus(consumer, 1);
      consumed := consumed + 1;
      visible := visible[1..];
    }
  }

  /** Adding to a wrapped counter counts on. */
  lemma WrappedSum(m: nat, n: nat)
    requires n < TWO32
    ensures Plus(U32(m), n) == U32(m + n)
  {
  }

  /** struct xsk_ring_cons: the kernel produces, user space consumes. visible are the entries not
      yet peeked, peeked those peeked and not yet released. */
  class ConsRing<T(0)> {
    const ring: array<T>
    var producer: u32
    var consumer: u32
    var cachedProd: u32
    var cachedCons: u32

    ghost var produced: nat
    ghost var released: nat
    ghost var taken: nat
    ghost var seen: nat
    ghost var visible: seq<T>
    ghost var peeked: seq<T>

    ghost predicate Valid()
      reads this, ring
    {
      && RingSize(ring.Length)
      && released <= taken <= seen <= produced <= released + ring.Length
      && producer == U32(produced) && consumer == U32(released)
      && cachedProd == U32(seen) && cachedCons == U32(taken)
      && |visible| == produced - taken && |peeked| == taken - released
      && Holds(ring[..], released, peeked) && Holds(ring[..], taken, visible)
    }

    constructor (ring: array<T>)
      requires RingSize(ring.Length)
      ensures Valid() && this.ring == ring && visible == [] && peeked == []
    {
      this.ring := ring;
      producer, consumer, cachedProd, cachedCons := 0, 0, 0, 0;
      produced, released, taken, seen := 0, 0, 0, 0;
      visible, peeked := [], [];
    }

    /** Entries the local copy shows. */
    ghost function Known(): int
      reads this
    {
      seen - taken
    }

    /** xsk_cons_nb_avail before the minimum is taken: the producer index is read only if the
        local copy shows no entry. */
    method Available() returns (entries: u32)
      requires Valid()
      modifies this`cachedProd, this`seen
      ensures Valid() && entries == Known() <= |visible|
      ensures entries == if old(Known()) > 0 then old(Known()) else |visible|
    {
      WrappedDifference(taken, seen);
      entries := Minus(cachedProd, cachedCons);
      if entries == 0 {
        cachedProd := producer;
        seen := produced;
        WrappedDifference(taken, seen);
        entries := Minus(cachedProd, cachedCons);
      }
    }

    /** xsk_ring_cons__peek: up to nb entries. It returns 0 only when the ring holds none. */
    method Peek(nb: u32) returns (n: u32, idx: u32)
      requires Valid() && nb > 0
      modifies this`cachedProd, this`cachedCons, this`seen, this`taken, this`visible, this`peeked
      ensures Valid() && n <= nb && n <= |old(visible)| && idx == U32(old(taken))
      ensures taken == old(taken) + n
      ensures peeked == old(peeked) + old(visible)[..n] && visible == old(visible)[n..]
      ensures n == Min(nb, if old(Known()) > 0 then old(Known()) else |old(visible)|)
      ensures Known() == (if old(Known()) > 0 then old(Known()) else |old(visible)|) - n
    {
      var entries := Available();
      n := Min(nb, entries);
      idx := cachedCons;
      TakeEntries(n);
    }

    /** cached_cons += n. */
    method TakeEntries(n: u32)
      requires Valid() && n <= Known()
      modifies this`cachedCons, this`taken, this`visible, this`peeked
      ensures Valid() && taken == old(taken) + n && Known() == old(Known()) - n
      ensures peeked == old(peeked) + old(visible)[..n] && visible == old(visible)[n..]
    {
      WrappedSum(taken, n);
      HoldsSplit(ring[..], taken, visible, n);
      HoldsConcat(ring[..], released, peeked, visible[..n]);
      cachedCons := Plus(cachedCons, n);
      taken := taken + n;
      visible, peeked := visible[n..], peeked + visible[..n];
    }

    /** *comp_addr(idx) or *rx_desc(idx) for the k-th peeked entry. */
    method Get(idx: u32, ghost k: nat) returns (v: T)
      requires Valid() && k < |peeked| && idx == U32(released + k)
      ensures v == peeked[k]
    {
      SlotOfWrapped(released + k, ring.Length);
      HoldsAt(ring[..], released, peeked, k);
      v := ring[idx % ring.Length];
    }

    /** xsk_ring_cons__release of everything peeked. */
    method Release(nb: u32)
      requires Valid() && nb == |peeked|
      modifies this`consumer, this`released, this`peeked
      ensures Valid() && peeked == [] && released == taken && Known() == old(Known())
    {
      WrappedSum(released, nb);
      consumer := Plus(consumer, nb);
      released := released + nb;
      peeked := [];
    }

    /** The kernel adds an entry, if there is room. */
    method KernelPut(v: T)
      requires Valid() && |visible| + |peeked| < ring.Length
      modifies ring, this`producer, this`produced, this`visible
      ensures Valid() && visible == old(visible) + [v]
    {
      HoldsUpdate(ring[..], released, peeked, produced, v);
      HoldsNext(ring[..], taken, visible, produced, v);
      SlotOfWrapped(produced, ring.Length);
      WrappedSum(produced, 1);
      ring[producer % ring.Length] := v;
      producer := Plus(producer, 1);
      produced := produced + 1;
      visible := visible + [v];
    }
  }
}
