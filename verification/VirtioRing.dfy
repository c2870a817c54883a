/** The receive queue of dev/virtio/virtio-net.c, shared with a device.

    The driver's virtionet_receive and the device work on the available and used
    rings of a split virtqueue (section 2.4 of VIRTIO 1.0).  A step is one
    access of either side to the shared rings; every interleaving is a run.
    The device may be slow, work from an index it loaded long ago, return
    buffers in any order and publish several at a time, but returns only
    buffers that it holds, each once. */
module VirtioRing {
  import opened Modular

  /** Indices into the rings are 16 bits wide. */
  const WRAP: nat := 0x1_0000

  datatype Used = Used(id: nat, len: nat)

  /** `size` entries in the queue; a buffer holds a header and `capacity` bytes. */
  datatype Queue = Queue(size: nat, header: nat, capacity: nat) {
    /** A size that the standard allows: a power of two up to 2^15. */
    ghost predicate Valid() {
      (exists k: nat :: 1 <= k <= 15 && size == Pow2(k)) && header + capacity < 0x1_0000_0000
    }
    /** Half the entries head a chain of two descriptors. */
    function Buffers(): nat { size / 2 }
  }

  datatype Reply = NoReply | Nothing | Packet(head: nat, len: nat)

  /** Where virtionet_receive is. */
  datatype Pc =
    | Outside(reply: Reply)
    | LoadUsedIdx(maxlen: nat)
    | ReadUsed(maxlen: nat)
    | StoreAvail(head: nat, len: nat)
    | StoreAvailIdx(head: nat, len: nat)

  /** Shared: the rings and their indices.  Driver: `lastRx`, `pc`.  Device:
      `devIdx`, the available index as it last loaded it, the heads it holds,
      the entries written but not yet published.  History: all entries ever
      published, and how many were seen, taken and read. */
  datatype Sys = Sys(
    availRing: seq<nat>, availIdx: nat, usedRing: seq<Used>, usedIdx: nat,
    lastRx: nat, pc: Pc,
    devIdx: nat, devSeen: nat, held: multiset<nat>, pending: seq<Used>,
    avails: seq<nat>, useds: seq<Used>, seen: nat, taken: nat, read: nat)

  datatype Event =
    | Receive(maxlen: nat)
    | Driver
    | DeviceLoad
    | DeviceTake
    | DeviceWrite(u: Used)
    | DevicePublish(n: nat)

  function Ids(us: seq<Used>): seq<nat> {
    seq(|us|, i requires 0 <= i < |us| => us[i].id)
  }

  function Bump(i: nat): nat { if i + 1 == WRAP then 0 else i + 1 }

  function Slot(i: nat, q: Queue): nat
    requires q.size > 0
  {
    SlotOf(i, q.size)
  }

  /** `id - 1` as a 16-bit entry. */
  function Back(id: nat): nat { if id == 0 then WRAP - 1 else id - 1 }

  /** The length handed to the caller: 32-bit difference, cut to the caller's buffer. */
  function PacketLen(q: Queue, len: nat, maxlen: nat): nat
    requires q.header < 0x1_0000_0000
  {
    var n := if len >= q.header then len - q.header else len + 0x1_0000_0000 - q.header;
    if n > maxlen then maxlen else n
  }

  predicate Shaped(q: Queue, s: Sys) {
    q.size > 0 && q.header < 0x1_0000_0000 && |s.availRing| == q.size && |s.usedRing| == q.size
  }

  predicate Enabled(q: Queue, s: Sys, ev: Event) {
    Shaped(q, s) &&
    match ev
    case Receive(_) => s.pc.Outside?
    case Driver => !s.pc.Outside?
    case DeviceLoad => true
    case DeviceTake => s.devIdx != s.devSeen
    case DeviceWrite(u) => u.id in s.held - multiset(Ids(s.pending)) && q.header <= u.len <= q.header + q.capacity
    case DevicePublish(n) => 0 < n <= |s.pending|
  }

  /** One access of virtionet_receive. */
  function DriverStep(q: Queue, s: Sys): Sys
    requires Shaped(q, s) && !s.pc.Outside?
  {
    match s.pc
    case LoadUsedIdx(maxlen) =>
      s.(pc := if s.lastRx == s.usedIdx then Outside(Nothing) else ReadUsed(maxlen))
    case ReadUsed(maxlen) =>
      var u := s.usedRing[Slot(s.lastRx, q)];
      var id := SlotOf(u.id + 1, q.size);
      s.(pc := StoreAvail(Back(id), PacketLen(q, u.len, maxlen)), lastRx := Bump(s.lastRx), read := s.read + 1)
    case StoreAvail(head, len) =>
      s.(availRing := s.availRing[Slot(s.availIdx, q) := head], pc := StoreAvailIdx(head, len))
    case StoreAvailIdx(head, len) =>
      s.(availIdx := Bump(s.availIdx), avails := s.avails + [head], pc := Outside(Packet(head, len)))
  }

  function Step(q: Queue, s: Sys, ev: Event): Sys
    requires Enabled(q, s, ev)
  {
    match ev
    case Receive(maxlen) => s.(pc := LoadUsedIdx(maxlen))
    case Driver => DriverStep(q, s)
    case DeviceLoad => s.(devSeen := s.availIdx, seen := |s.avails|)
    case DeviceTake =>
      s.(held := s.held + multiset{s.availRing[Slot(s.devIdx, q)]}, devIdx := Bump(s.devIdx), taken := s.taken + 1)
    case DeviceWrite(u) =>
      s.(usedRing := s.usedRing[Slot(SlotOf(s.usedIdx + |s.pending|, WRAP), q) := u], pending := s.pending + [u])
    case DevicePublish(n) =>
      s.(usedIdx := SlotOf(s.usedIdx + n, WRAP), useds := s.useds + s.pending[..n],
         held := s.held - multiset(Ids(s.pending[..n])), pending := s.pending[n..])
  }

  /** The heads 0, 2, 4, ... of the buffers. */
  function Heads(n: nat): seq<nat> {
    if n == 0 then [] else Heads(n - 1) + [2 * (n - 1)]
  }

  /** After virtionet_init has filled and published the available ring. */
  predicate Init(q: Queue, s: Sys) {
    && Shaped(q, s) && s.avails == Heads(q.Buffers()) && s.availRing[..q.Buffers()] == s.avails
    && s.availIdx == q.Buffers() && s.usedIdx == 0 && s.lastRx == 0 && s.pc == Outside(NoReply)
    && s.devIdx == 0 && s.devSeen == 0 && s.held == multiset{} && s.pending == [] && s.useds == []
    && s.seen == 0 && s.taken == 0 && s.read == 0
  }

  ghost predicate StepAt(q: Queue, run: seq<Sys>, evs: seq<Event>, i: nat)
    requires |run| == |evs| + 1 && i < |evs|
  {
    Enabled(q, run[i], evs[i]) && run[i + 1] == Step(q, run[i], evs[i])
  }

  ghost predicate IsRun(q: Queue, run: seq<Sys>, evs: seq<Event>) {
    && q.Valid() && |run| == |evs| + 1 && Init(q, run[0])
    && forall i: nat | i < |evs| :: StepAt(q, run, evs, i)
  }

  // ---------------------------------------------------------------- slot facts

  lemma SizeDivides(q: Queue)
    requires q.Valid()
    ensures exists j: nat :: q.size * j == WRAP
    ensures 2 <= q.size < WRAP && 2 * q.Buffers() == q.size
  {
    var k: nat :| 1 <= k <= 15 && q.size == Pow2(k);
    Pow2Add(k, 16 - k);
    assert Pow2(8) == 256;
    Pow2Add(8, 8);
    Pow2Mono(1, k);
    Pow2Mono(k, 15);
    assert q.size == 2 * Pow2(k - 1);
    assert q.size * Pow2(16 - k) == WRAP;
  }

  /** A 16-bit index selects the slot of the unbounded count behind it. */
  lemma SlotOfIndex(q: Queue, x: nat)
    requires q.Valid()
    ensures q.size > 0 && Slot(SlotOf(x, WRAP), q) == SlotOf(x, q.size)
  {
    SizeDivides(q);
    var j: nat :| q.size * j == WRAP;
    Narrowed(x, WRAP, q.size, j);
  }

  lemma {:induction false} NextIndex(x: nat)
    ensures SlotOf(x + 1, WRAP) == Bump(SlotOf(x, WRAP))
  {
    if x >= WRAP { NextIndex(x - WRAP); }
  }

  lemma {:induction false} SumIndex(x: nat, y: nat)
    ensures SlotOf(SlotOf(x, WRAP) + y, WRAP) == SlotOf(x + y, WRAP)
  {
    if x >= WRAP {
      SumIndex(x - WRAP, y);
    }
  }

  lemma SameIndex(x: nat, y: nat)
    requires x <= y < x + WRAP
    ensures SlotOf(x, WRAP) == SlotOf(y, WRAP) <==> x == y
  {
    if x < y { SlotsApart(x, y, WRAP); }
  }
}
