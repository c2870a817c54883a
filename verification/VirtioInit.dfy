/** Setting up a receive queue: the memory of its rings, its descriptors and its
    buffers, as virtio.c, helpers.c and virtionet_init lay them out. */
module VirtioInit {
  import opened Modular
  import opened VirtioRing
  import opened VirtioNet

  // ----------------------------------------------------------- aligned memory

  /** Rounding down to a multiple; for a power of two, masking with ~(a - 1). */
  function Down(x: nat, a: nat): (r: nat)
    requires a > 0
    ensures r <= x < r + a
  {
    x - SlotOf(x, a)
  }

  lemma {:induction false} DownIsMultiple(x: nat, a: nat)
    requires a > 0
    ensures SlotOf(Down(x, a), a) == 0
  {
    if x >= a {
      DownIsMultiple(x - a, a);
      assert Down(x, a) == Down(x - a, a) + a;
    }
  }

  const ADDRESS_BYTES: nat := 8

  /** SLOF_alloc_mem_aligned, for the address that malloc returned. */
  function Aligned(address: nat, alignment: nat): nat
    requires alignment > 0
  {
    Down(address + alignment - 1 + ADDRESS_BYTES, alignment)
  }

  /** The block and the pointer kept below it lie in the memory asked of malloc. */
  lemma AlignedFits(address: nat, size: nat, alignment: nat)
    requires alignment > 0
    ensures var p, asked := Aligned(address, alignment), size + (alignment - 1 + ADDRESS_BYTES);
            SlotOf(p, alignment) == 0 && address <= p - ADDRESS_BYTES && p + size <= address + asked
  {
    DownIsMultiple(address + alignment - 1 + ADDRESS_BYTES, alignment);
  }

  /** A failed malloc is not passed on: the result is not NULL then either. */
  lemma FailureHidden(alignment: nat)
    requires alignment > 0
    ensures Aligned(0, alignment) != 0
  {
  }

  // --------------------------------------------------------------- ring layout

  const PAGE: nat := 4096

  /** VQ_ALIGN. */
  function PageUp(x: nat): nat { Down(x + (PAGE - 1), PAGE) }

  /** sizeof: descriptor 16, available ring 4 + 2 per entry, used ring 4 + 8. */
  function DescBytes(size: nat): nat { 16 * size }

  function AvailBytes(size: nat): nat { 4 + 2 * size }

  function UsedBytes(size: nat): nat { 4 + 8 * size }

  /** virtio_vring_size. */
  function VringSize(size: nat): nat {
    PageUp(DescBytes(size) + AvailBytes(size)) + PageUp(UsedBytes(size))
  }

  /** Where virtio_queue_init_vq puts the rings behind the descriptors. */
  function AvailAddr(desc: nat, size: nat): nat { desc + DescBytes(size) }

  function UsedAddr(desc: nat, size: nat): nat { PageUp(AvailAddr(desc, size) + AvailBytes(size)) }

  lemma {:induction false} PageUpShift(desc: nat, x: nat)
    requires SlotOf(desc, PAGE) == 0
    ensures PageUp(desc + x) == desc + PageUp(x)
  {
    if desc > 0 {
      assert desc >= PAGE;
      PageUpShift(desc - PAGE, x);
    }
  }

  /** The available ring follows the descriptors, the used ring starts with the
      next page, the memory allocated ends with the page that it ends in. */
  lemma VringLayout(desc: nat, size: nat)
    requires SlotOf(desc, PAGE) == 0
    ensures AvailAddr(desc, size) == desc + 16 * size
    ensures var end := AvailAddr(desc, size) + 4 + 2 * size;
            end <= UsedAddr(desc, size) < end + PAGE && SlotOf(UsedAddr(desc, size), PAGE) == 0
    ensures var end := UsedAddr(desc, size) + 4 + 8 * size; end <= desc + VringSize(size) < end + PAGE
  {
    PageUpShift(desc, DescBytes(size) + AvailBytes(size));
    DownIsMultiple(AvailAddr(desc, size) + AvailBytes(size) + (PAGE - 1), PAGE);
  }

  /** They are aligned as section 2.4 of VIRTIO 1.0 asks: by 16, 2 and 4. */
  lemma VringAligned(desc: nat, size: nat)
    requires SlotOf(desc, PAGE) == 0
    ensures desc % 16 == 0 && AvailAddr(desc, size) % 2 == 0 && UsedAddr(desc, size) % 4 == 0
  {
    PageMultiple(desc);
    DownIsMultiple(AvailAddr(desc, size) + AvailBytes(size) + (PAGE - 1), PAGE);
    PageMultiple(UsedAddr(desc, size));
    Sixteens(desc, size);
    Sixteens(UsedAddr(desc, size), 0);
  }

  lemma Sixteens(x: nat, n: nat)
    requires x % 16 == 0
    ensures (x + 16 * n) % 2 == 0 && x % 4 == 0
  {
    var k := x / 16;
    EvenTwice(8 * k + 8 * n);
    FourTimes(4 * k);
  }

  lemma EvenTwice(k: nat)
    ensures 2 * k % 2 == 0
  {
  }

  lemma FourTimes(k: nat)
    ensures 4 * k % 4 == 0
  {
  }

  lemma {:induction false} PageMultiple(x: nat)
    requires SlotOf(x, PAGE) == 0
    ensures x % 16 == 0
  {
    if x > 0 {
      assert x >= PAGE;
      PageMultiple(x - PAGE);
    }
  }

  // ----------------------------------------------------------- receive buffers

  datatype Desc = Desc(addr: nat, len: nat, next: bool, write: bool, link: nat)

  /** Buffer `i` and its two descriptors: the header, then the data. */
  function BufferAt(q: Queue, base: nat, i: nat): nat { base + i * (q.capacity + q.header) }

  ghost predicate ChainAt(q: Queue, base: nat, desc: seq<Desc>, i: nat)
    requires 2 * i + 1 < |desc|
  {
    && desc[2 * i] == Desc(BufferAt(q, base, i), q.header, true, true, 2 * i + 1)
    && desc[2 * i + 1] == Desc(BufferAt(q, base, i) + q.header, q.capacity, false, true, 0)
  }

  /** The loop of virtionet_init that prepares the receive queue. */
  method Prepare(q: Queue, base: nat, desc: array<Desc>, avail: array<nat>)
    requires desc.Length == q.size && avail.Length == q.size
    modifies desc, avail
    ensures forall i: nat | i < q.Buffers() :: ChainAt(q, base, desc[..], i)
    ensures avail[..q.Buffers()] == Heads(q.Buffers())
  {
    var i := 0;
    while i < q.size / 2
      invariant 0 <= i <= q.Buffers()
      invariant forall k: nat | k < i :: ChainAt(q, base, desc[..], k)
      invariant avail[..i] == Heads(i)
    {
      FillPair(q, base, desc, i);
      avail[i] := i * 2;
      assert avail[..i + 1] == avail[..i] + [i * 2];
      i := i + 1;
    }
  }

  /** The two descriptors of buffer `i`. */
  method FillPair(q: Queue, base: nat, desc: array<Desc>, i: nat)
    requires desc.Length == q.size && i < q.Buffers()
    requires forall k: nat | k < i :: ChainAt(q, base, desc[..], k)
    modifies desc
    ensures forall k: nat | k <= i :: ChainAt(q, base, desc[..], k)
  {
    ghost var before := desc[..];
    var addr := BufferAt(q, base, i);
    var id := i * 2;
    desc[id] := Desc(addr, q.header, true, true, id + 1);
    desc[id + 1] := Desc(addr + q.header, q.capacity, false, true, 0);
    ghost var after := desc[..];
    assert after == before[id := after[id]][id + 1 := after[id + 1]];
    forall k: nat | k <= i ensures ChainAt(q, base, after, k) {
      if k < i { assert ChainAt(q, base, before, k); }
    }
  }

  /** Buffers do not overlap, and all lie in the memory allocated for them. */
  lemma BuffersApart(q: Queue, base: nat, i: nat, j: nat)
    requires i < j < q.Buffers()
    ensures BufferAt(q, base, i) + q.header + q.capacity <= BufferAt(q, base, j)
    ensures BufferAt(q, base, j) + q.header + q.capacity <= base + (q.capacity + q.header) * q.size / 2
  {
    var w := q.capacity + q.header;
    Mul(i + 1, j, w);
    Mul(j + 1, q.Buffers(), w);
    Mul(2 * q.Buffers(), q.size, w);
    assert (i + 1) * w == i * w + w && (j + 1) * w == j * w + w;
    assert 2 * (q.Buffers() * w) == 2 * q.Buffers() * w;
  }

  lemma Mul(a: nat, b: nat, w: nat)
    requires a <= b
    ensures a * w <= b * w
  {
  }

  /** The prepared queue is where the runs start. */
  lemma PreparedIsInit(q: Queue, availRing: seq<nat>, usedRing: seq<Used>)
    requires q.Valid() && |availRing| == q.size && |usedRing| == q.size &&
             availRing[..q.Buffers()] == Heads(q.Buffers())
    ensures var s := Sys(availRing, q.Buffers(), usedRing, 0, 0, Outside(NoReply), 0, 0, multiset{}, [],
                         Heads(q.Buffers()), [], 0, 0, 0);
            Init(q, s) && Inv(q, s)
  {
    SizeDivides(q);
    InitInv(q, Sys(availRing, q.Buffers(), usedRing, 0, 0, Outside(NoReply), 0, 0, multiset{}, [],
                   Heads(q.Buffers()), [], 0, 0, 0));
  }
}
