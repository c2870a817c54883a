/** The ring with the counters of the source: 32-bit words that wrap, slots
    selected by a mask, and a signed test for a full ring.

    An access of this machine is the access of the unbounded machine of module
    BufRing, seen through the wrapping, exactly when it does not compare a
    snapshot with a counter that has since moved on by a positive multiple of
    2^32.  Module BufRing32Runs carries this over to runs. */
module BufRing32 {
  import opened Modular
  import opened BufRing
  import opened BufRingSafety

  const WORD: nat := 0x1_0000_0000

  /** A natural number modulo 2^32. */
  function Wrap(x: nat): (r: nat)
    ensures r < WORD
  {
    SlotOf(x, WORD)
  }

  function Add32(x: nat, y: nat): nat { Wrap(x + y) }

  function Sub32(x: nat, y: nat): nat
    requires x < WORD && y < WORD
  {
    if x >= y then x - y else x + WORD - y
  }

  /** The cast to int32_t. */
  function Signed(x: nat): int
    requires x < WORD
  {
    if x < 0x8000_0000 then x else x - WORD
  }

  /** The bitwise conjunction of two words. */
  function BitAnd(a: nat, b: nat): nat {
    if a == 0 || b == 0 then 0
    else 2 * BitAnd(a / 2, b / 2) + (if a % 2 == 1 && b % 2 == 1 then 1 else 0)
  }

  datatype Mem32 = Mem32(prodHead: nat, prodTail: nat, consHead: nat, consTail: nat, slots: seq<Buf>) {
    function Size(): nat { |slots| }
    /** The slot of a counter, selected by `size - 1`. */
    function Index(x: nat): nat
      requires |slots| > 0
    {
      BitAnd(x, |slots| - 1)
    }
    function Read(x: nat): Buf
      requires |slots| > 0
    {
      if Index(x) < |slots| then slots[Index(x)] else 0
    }
    function Write(x: nat, b: Buf): Mem32
      requires |slots| > 0
    {
      if Index(x) < |slots| then this.(slots := slots[Index(x) := b]) else this
    }
  }

  datatype Ring32 = Ring32(mem: Mem32, consumers: Consumers, pcs: map<Tid, Pc>)

  datatype Outcome32 = Outcome32(mem: Mem32, pc: Pc)

  function AccessEnqueue32(m: Mem32, pc: Pc): Outcome32
    requires m.Size() > 0 && pc.Producing()
  {
    match pc
    case EnqLoadHead(b) => Outcome32(m, EnqLoadTail(b, m.prodHead))
    case EnqLoadTail(b, h) =>
      if Signed(Sub32(Add32(m.consTail, m.Size()), Add32(h, 1))) < 1 then Outcome32(m, EnqRecheckHead(b, h, m.consTail))
      else Outcome32(m, EnqCas(b, h))
    case EnqRecheckHead(b, h, tail) =>
      Outcome32(m, if h == m.prodHead then EnqRecheckTail(b, h, tail) else EnqCas(b, h))
    case EnqRecheckTail(b, h, tail) =>
      Outcome32(m, if tail == m.consTail then Outside(NoBufs) else EnqCas(b, h))
    case EnqCas(b, h) =>
      if h == m.prodHead then Outcome32(m.(prodHead := Add32(h, 1)), EnqStore(b, h))
      else Outcome32(m, EnqLoadHead(b))
    case EnqStore(b, h) => Outcome32(m.Write(h, b), EnqSpin(b, h))
    case EnqSpin(b, h) => Outcome32(m, if m.prodTail == h then EnqPublish(b, h) else pc)
    case EnqPublish(b, h) => Outcome32(m.(prodTail := Add32(h, 1)), Outside(Enqueued))
  }

  function AccessDequeue32(m: Mem32, pc: Pc): Outcome32
    requires m.Size() > 0 && pc.Dequeuing()
  {
    match pc
    case DeqLoadHead => Outcome32(m, DeqLoadTail(m.consHead))
    case DeqLoadTail(h) => Outcome32(m, if h == m.prodTail then Outside(Empty) else DeqCas(h))
    case DeqCas(h) =>
      if h == m.consHead then Outcome32(m.(consHead := Add32(h, 1)), DeqRead(h))
      else Outcome32(m, DeqLoadHead)
    case DeqRead(h) => Outcome32(m, DeqSpin(h, m.Read(h)))
    case DeqSpin(h, b) => Outcome32(m, if m.consTail == h then DeqPublish(h, b) else pc)
    case DeqPublish(h, b) => Outcome32(m.(consTail := Add32(h, 1)), Outside(Got(b)))
  }

  function AccessSingle32(m: Mem32, pc: Pc): Outcome32
    requires m.Size() > 0 && !pc.Producing() && !pc.Dequeuing() && !pc.Outside?
  {
    match pc
    case ScLoadHead => Outcome32(m, ScLoadTail(m.consHead))
    case ScLoadTail(h) => Outcome32(m, if h == m.prodTail then Outside(Empty) else ScStoreHead(h))
    case ScStoreHead(h) => Outcome32(m.(consHead := Add32(h, 1)), ScRead(h))
    case ScRead(h) => Outcome32(m, ScStoreTail(h, m.Read(h)))
    case ScStoreTail(h, b) => Outcome32(m.(consTail := Add32(h, 1)), Outside(Got(b)))
    case AdvLoadHead => Outcome32(m, AdvLoadTail(m.consHead))
    case AdvLoadTail(h) => Outcome32(m, if h == m.prodTail then Outside(Advanced) else AdvStoreHead(h))
    case AdvStoreHead(h) => Outcome32(m.(consHead := Add32(h, 1)), AdvStoreTail(h))
    case AdvStoreTail(h) => Outcome32(m.(consTail := Add32(h, 1)), Outside(Advanced))
    case PutLoadHead(b) => Outcome32(m, PutStore(b, m.consHead))
    case PutStore(b, h) => Outcome32(m.Write(h, b), Outside(PutBack))
    case PeekLoadTail => Outcome32(m, PeekLoadHead(m.prodTail))
    case PeekLoadHead(tail) =>
      Outcome32(m, if m.consHead == tail then Outside(Empty) else PeekRead(m.consHead))
    case PeekRead(h) => Outcome32(m, Outside(Front(m.Read(h))))
  }

  function Access32(m: Mem32, pc: Pc): Outcome32
    requires m.Size() > 0 && !pc.Outside?
  {
    if pc.Producing() then AccessEnqueue32(m, pc)
    else if pc.Dequeuing() then AccessDequeue32(m, pc)
    else AccessSingle32(m, pc)
  }

  // ------------------------------------------------------------------- masks

  /** `size` is a power of two that an int holds. */
  ghost predicate PowerOfTwo(size: nat) {
    exists k: nat :: k <= 30 && size == Pow2(k)
  }

  lemma {:induction false} SlotHalves(x: nat, n: nat)
    requires n > 0
    ensures SlotOf(x, 2 * n) == 2 * SlotOf(x / 2, n) + x % 2
  {
    if x >= 2 * n {
      SlotHalves(x - 2 * n, n);
    }
  }

  /** Masking with `2^k - 1` takes the remainder by `2^k`. */
  lemma {:induction false} MaskIsSlot(x: nat, k: nat)
    ensures BitAnd(x, Pow2(k) - 1) == SlotOf(x, Pow2(k))
  {
    if k == 0 {
      SlotOfOne(x);
    } else if x > 0 {
      var n := Pow2(k - 1);
      assert (2 * n - 1) / 2 == n - 1 && (2 * n - 1) % 2 == 1;
      MaskIsSlot(x / 2, k - 1);
      SlotHalves(x, n);
    }
  }

  lemma {:induction false} SlotOfOne(x: nat)
    ensures SlotOf(x, 1) == 0
  {
    if x > 0 { SlotOfOne(x - 1); }
  }

  lemma WordIsPow()
    ensures WORD == Pow2(32)
  {
    assert Pow2(8) == 256;
    Pow2Add(8, 8);
    Pow2Add(16, 16);
  }

  /** Masking the wrapped counter selects the slot of the unbounded ticket. */
  lemma MaskedSlot(ticket: nat, size: nat)
    requires PowerOfTwo(size)
    ensures BitAnd(Wrap(ticket), size - 1) == SlotOf(ticket, size)
  {
    var k: nat :| k <= 30 && size == Pow2(k);
    MaskIsSlot(Wrap(ticket), k);
    WordIsMultiple(k);
    Narrowed(ticket, WORD, size, Pow2(32 - k));
  }

  lemma WordIsMultiple(k: nat)
    requires k <= 30
    ensures WORD == Pow2(k) * Pow2(32 - k)
  {
    WordIsPow();
    Pow2Add(k, 32 - k);
  }

  // -------------------------------------------------------------- simulation

  function WrapMem(m: Mem): Mem32 {
    Mem32(Wrap(m.prodHead), Wrap(m.prodTail), Wrap(m.consHead), Wrap(m.consTail), m.slots)
  }

  function WrapPc(pc: Pc): Pc {
    match pc
    case EnqLoadTail(b, h) => EnqLoadTail(b, Wrap(h))
    case EnqRecheckHead(b, h, tail) => EnqRecheckHead(b, Wrap(h), Wrap(tail))
    case EnqRecheckTail(b, h, tail) => EnqRecheckTail(b, Wrap(h), Wrap(tail))
    case EnqCas(b, h) => EnqCas(b, Wrap(h))
    case EnqStore(b, h) => EnqStore(b, Wrap(h))
    case EnqSpin(b, h) => EnqSpin(b, Wrap(h))
    case EnqPublish(b, h) => EnqPublish(b, Wrap(h))
    case DeqLoadTail(h) => DeqLoadTail(Wrap(h))
    case DeqCas(h) => DeqCas(Wrap(h))
    case DeqRead(h) => DeqRead(Wrap(h))
    case DeqSpin(h, b) => DeqSpin(Wrap(h), b)
    case DeqPublish(h, b) => DeqPublish(Wrap(h), b)
    case ScLoadTail(h) => ScLoadTail(Wrap(h))
    case ScStoreHead(h) => ScStoreHead(Wrap(h))
    case ScRead(h) => ScRead(Wrap(h))
    case ScStoreTail(h, b) => ScStoreTail(Wrap(h), b)
    case AdvLoadTail(h) => AdvLoadTail(Wrap(h))
    case AdvStoreHead(h) => AdvStoreHead(Wrap(h))
    case AdvStoreTail(h) => AdvStoreTail(Wrap(h))
    case PutStore(b, h) => PutStore(b, Wrap(h))
    case PeekLoadHead(tail) => PeekLoadHead(Wrap(tail))
    case PeekRead(h) => PeekRead(Wrap(h))
    case _ => pc
  }

  /** The wrapped thread is where the unbounded one is, or it misread a stale
      head as a full ring and is one comparison behind, on its way to a
      compare-and-set that fails. */
  predicate PcSim(m: Mem, cpc: Pc, pc: Pc) {
    cpc == WrapPc(pc) || Lagging(m, cpc, pc)
  }

  predicate Lagging(m: Mem, cpc: Pc, pc: Pc) {
    && pc.EnqCas? && pc.head < m.prodHead
    && cpc.EnqRecheckHead? && cpc.buf == pc.buf && cpc.head == Wrap(pc.head)
  }

  /** `current` is a positive multiple of 2^32 tickets ahead of `snapshot`. */
  ghost predicate WrapsOnto(snapshot: nat, current: nat) {
    exists k: nat :: k > 0 && current == snapshot + WORD * k
  }

  /** The counter that a thread at `pc` is about to compare its snapshot with has
      not wrapped onto it. */
  ghost predicate Fresh(m: Mem, pc: Pc) {
    match pc
    case EnqRecheckHead(_, h, _) => !WrapsOnto(h, m.prodHead)
    case EnqRecheckTail(_, _, tail) => !WrapsOnto(tail, m.consTail)
    case EnqCas(_, h) => !WrapsOnto(h, m.prodHead)
    case DeqLoadTail(h) => !WrapsOnto(h, m.prodTail)
    case DeqCas(h) => !WrapsOnto(h, m.consHead)
    case _ => true
  }

  lemma SizeFits(size: nat)
    requires PowerOfTwo(size)
    ensures 0 < size <= 0x4000_0000
  {
    var k: nat :| k <= 30 && size == Pow2(k);
    Pow2Mono(k, 30);
    assert Pow2(5) == 32;
    Pow2Add(5, 5);
    Pow2Add(10, 10);
    Pow2Add(20, 10);
  }

  lemma {:induction false} WrapAdd(x: nat, y: nat)
    ensures Add32(Wrap(x), y) == Wrap(x + y)
  {
    if x >= WORD { WrapAdd(x - WORD, y); }
  }

  lemma {:induction false} WrapSub(x: nat, y: nat)
    requires y <= x
    ensures Sub32(Wrap(x), Wrap(y)) == Wrap(x - y)
  {
    if y >= WORD {
      WrapSub(x - WORD, y - WORD);
    } else if x - y >= WORD {
      WrapSub(x - WORD, y);
    } else if x >= WORD {
      assert Wrap(x) == SlotOf(x - WORD, WORD) == x - WORD;
    }
  }

  /** Counters less than 2^32 apart are equal if and only if their words are. */
  lemma WrapEqual(x: nat, y: nat)
    requires x <= y < x + WORD
    ensures Wrap(x) == Wrap(y) <==> x == y
  {
    if x < y { SlotsApart(x, y, WORD); }
  }

  /** The words of an old counter and a new one compare like the counters if and
      only if the new one has not wrapped onto the old one. */
  lemma {:induction false} WrappedCompare(snapshot: nat, current: nat)
    requires snapshot <= current
    ensures (Wrap(snapshot) == Wrap(current) <==> snapshot == current) <==> !WrapsOnto(snapshot, current)
  {
    if current >= snapshot + WORD {
      WrappedCompare(snapshot, current - WORD);
      if WrapsOnto(snapshot, current) {
        var k: nat :| k > 0 && current == snapshot + WORD * k;
        if k > 1 { assert current - WORD == snapshot + WORD * (k - 1); }
      }
      if WrapsOnto(snapshot, current - WORD) {
        var k: nat :| k > 0 && current - WORD == snapshot + WORD * k;
        assert current == snapshot + WORD * (k + 1);
      }
      if current - WORD == snapshot { assert current == snapshot + WORD * 1; }
    } else {
      WrapEqual(snapshot, current);
    }
  }

  lemma SlotSim(m: Mem, ticket: nat)
    requires |m.slots| > 0 && PowerOfTwo(|m.slots|)
    ensures WrapMem(m).Index(Wrap(ticket)) == SlotOf(ticket, |m.slots|)
  {
    MaskedSlot(ticket, |m.slots|);
  }

  /** The access of the wrapped thread is the access of the unbounded one, seen
      through Wrap; a lagging thread catches up without touching memory. */
  ghost predicate AccessSim(m: Mem, cpc: Pc, pc: Pc)
    requires |m.slots| > 0 && !pc.Outside? && !cpc.Outside?
  {
    var o32 := Access32(WrapMem(m), cpc);
    if Lagging(m, cpc, pc) then o32 == Outcome32(WrapMem(m), WrapPc(pc))
    else
      var o := Access(m, pc);
      o32.mem == WrapMem(o.mem) && PcSim(o.mem, o32.pc, o.pc)
  }

  lemma LoadTailSim(m: Mem, role: Role, pc: Pc)
    requires MemOk(m) && PcOk(m, role, pc) && PowerOfTwo(|m.slots|) && pc.EnqLoadTail?
    ensures AccessSim(m, WrapPc(pc), pc)
  {
    var room := m.consTail + |m.slots| - (pc.head + 1);
    SizeFits(|m.slots|);
    WrapAdd(m.consTail, |m.slots|);
    WrapAdd(pc.head, 1);
    WrapSub(m.consTail + |m.slots|, pc.head + 1);
    if 1 <= room < 0x8000_0000 {
      assert Wrap(room) == room;
    }
  }

  lemma EnqueueCompareSim(m: Mem, role: Role, cpc: Pc, pc: Pc)
    requires MemOk(m) && PcOk(m, role, pc) && (pc.EnqRecheckHead? || pc.EnqRecheckTail?)
    requires PcSim(m, cpc, pc) && Fresh(m, pc)
    ensures AccessSim(m, cpc, pc)
  {
    match pc
    case EnqRecheckHead(_, h, _) => WrappedCompare(h, m.prodHead);
    case EnqRecheckTail(_, _, tail) => WrappedCompare(tail, m.consTail);
  }

  lemma EnqueueSpinSim(m: Mem, role: Role, pc: Pc)
    requires MemOk(m) && PcOk(m, role, pc) && PowerOfTwo(|m.slots|) && pc.EnqSpin?
    ensures AccessSim(m, WrapPc(pc), pc)
  {
    SizeFits(|m.slots|);
    WrapEqual(m.prodTail, pc.head);
  }

  lemma EnqueueCasSim(m: Mem, role: Role, cpc: Pc, pc: Pc)
    requires MemOk(m) && PcOk(m, role, pc) && PowerOfTwo(|m.slots|) && pc.EnqCas? && PcSim(m, cpc, pc) && Fresh(m, pc)
    ensures AccessSim(m, cpc, pc)
  {
    WrappedCompare(pc.head, m.prodHead);
    WrapAdd(pc.head, 1);
  }

  lemma EnqueueMoveSim(m: Mem, pc: Pc)
    requires |m.slots| > 0 && PowerOfTwo(|m.slots|) && (pc.EnqStore? || pc.EnqPublish?)
    ensures AccessSim(m, WrapPc(pc), pc)
  {
    if pc.EnqStore? { SlotSim(m, pc.head); } else { WrapAdd(pc.head, 1); }
  }

  lemma EnqueueSim(m: Mem, role: Role, cpc: Pc, pc: Pc)
    requires MemOk(m) && PcOk(m, role, pc) && PowerOfTwo(|m.slots|) && pc.Producing() && !pc.EnqLoadTail?
    requires PcSim(m, cpc, pc) && Fresh(m, pc)
    ensures AccessSim(m, cpc, pc)
  {
    match pc
    case EnqCas(_, _) => EnqueueCasSim(m, role, cpc, pc);
    case EnqStore(_, _) => EnqueueMoveSim(m, pc);
    case EnqPublish(_, _) => EnqueueMoveSim(m, pc);
    case EnqSpin(_, _) => EnqueueSpinSim(m, role, pc);
    case EnqLoadHead(_) =>
    case _ => EnqueueCompareSim(m, role, cpc, pc);
  }

  lemma DequeueCompareSim(m: Mem, role: Role, pc: Pc)
    requires MemOk(m) && PcOk(m, role, pc) && PowerOfTwo(|m.slots|) && (pc.DeqLoadTail? || pc.DeqSpin?) && Fresh(m, pc)
    ensures AccessSim(m, WrapPc(pc), pc)
  {
    SizeFits(|m.slots|);
    match pc
    case DeqLoadTail(h) => WrappedCompare(h, m.prodTail);
    case DeqSpin(h, _) => WrapEqual(m.consTail, h);
  }

  lemma DequeueCasSim(m: Mem, role: Role, pc: Pc)
    requires MemOk(m) && PcOk(m, role, pc) && PowerOfTwo(|m.slots|) && pc.DeqCas? && Fresh(m, pc)
    ensures AccessSim(m, WrapPc(pc), pc)
  {
    WrappedCompare(pc.head, m.consHead);
    WrapAdd(pc.head, 1);
  }

  lemma DequeueReadSim(m: Mem, pc: Pc)
    requires |m.slots| > 0 && PowerOfTwo(|m.slots|) && pc.DeqRead?
    ensures AccessSim(m, WrapPc(pc), pc)
  {
    SlotSim(m, pc.head);
  }

  lemma DequeuePublishSim(m: Mem, pc: Pc)
    requires |m.slots| > 0 && pc.DeqPublish?
    ensures AccessSim(m, WrapPc(pc), pc)
  {
    WrapAdd(pc.head, 1);
  }

  lemma DequeueSim(m: Mem, role: Role, pc: Pc)
    requires MemOk(m) && PcOk(m, role, pc) && PowerOfTwo(|m.slots|) && pc.Dequeuing() && Fresh(m, pc)
    ensures AccessSim(m, WrapPc(pc), pc)
  {
    match pc
    case DeqCas(_) => DequeueCasSim(m, role, pc);
    case DeqLoadHead =>
    case DeqLoadTail(_) => DequeueCompareSim(m, role, pc);
    case DeqSpin(_, _) => DequeueCompareSim(m, role, pc);
    case DeqRead(_) => DequeueReadSim(m, pc);
    case DeqPublish(_, _) => DequeuePublishSim(m, pc);
  }

  lemma SingleMoveSim(m: Mem, pc: Pc)
    requires |m.slots| > 0 && pc.Moving()
    ensures AccessSim(m, WrapPc(pc), pc)
  {
    if pc.ScStoreHead? || pc.AdvStoreHead? { SingleHeadSim(m, pc); } else { SingleTailSim(m, pc); }
  }

  lemma SingleHeadSim(m: Mem, pc: Pc)
    requires |m.slots| > 0 && (pc.ScStoreHead? || pc.AdvStoreHead?)
    ensures AccessSim(m, WrapPc(pc), pc)
  {
    WrapAdd(pc.head, 1);
  }

  lemma SingleTailSim(m: Mem, pc: Pc)
    requires |m.slots| > 0 && (pc.ScStoreTail? || pc.AdvStoreTail?)
    ensures AccessSim(m, WrapPc(pc), pc)
  {
    WrapAdd(pc.head, 1);
  }

  lemma SingleSlotSim(m: Mem, pc: Pc)
    requires |m.slots| > 0 && PowerOfTwo(|m.slots|) && (pc.ScRead? || pc.PeekRead?)
    ensures AccessSim(m, WrapPc(pc), pc)
  {
    SlotSim(m, pc.head);
  }

  lemma PutStoreSim(m: Mem, pc: Pc)
    requires |m.slots| > 0 && PowerOfTwo(|m.slots|) && pc.PutStore?
    ensures AccessSim(m, WrapPc(pc), pc)
  {
    SlotSim(m, pc.head);
  }

  lemma SingleLoadSim(m: Mem, pc: Pc)
    requires |m.slots| > 0 && (pc.ScLoadHead? || pc.AdvLoadHead? || pc.PutLoadHead? || pc.PeekLoadTail?)
    ensures AccessSim(m, WrapPc(pc), pc)
  {
  }

  lemma SingleCompareSim(m: Mem, role: Role, pc: Pc)
    requires MemOk(m) && PcOk(m, role, pc) && PowerOfTwo(|m.slots|)
    requires pc.ScLoadTail? || pc.AdvLoadTail?
    ensures AccessSim(m, WrapPc(pc), pc)
  {
    SizeFits(|m.slots|);
    WrapEqual(pc.head, m.prodTail);
  }

  lemma PeekCompareSim(m: Mem, role: Role, pc: Pc)
    requires MemOk(m) && PcOk(m, role, pc) && PowerOfTwo(|m.slots|) && pc.PeekLoadHead?
    ensures AccessSim(m, WrapPc(pc), pc)
  {
    SizeFits(|m.slots|);
    WrapEqual(m.consHead, pc.tail);
  }

  lemma AccessSimulates(m: Mem, role: Role, cpc: Pc, pc: Pc)
    requires MemOk(m) && PcOk(m, role, pc) && PowerOfTwo(|m.slots|) && !pc.Outside?
    requires PcSim(m, cpc, pc) && Fresh(m, pc)
    ensures !cpc.Outside? && AccessSim(m, cpc, pc)
  {
    if pc.EnqLoadTail? {
      LoadTailSim(m, role, pc);
    } else if pc.Producing() {
      EnqueueSim(m, role, cpc, pc);
    } else if pc.Dequeuing() {
      DequeueSim(m, role, pc);
    } else if pc.Moving() {
      SingleMoveSim(m, pc);
    } else if pc.PutStore? {
      PutStoreSim(m, pc);
    } else if pc.ScRead? || pc.PeekRead? {
      SingleSlotSim(m, pc);
    } else if pc.ScLoadTail? || pc.AdvLoadTail? {
      SingleCompareSim(m, role, pc);
    } else if pc.PeekLoadHead? {
      PeekCompareSim(m, role, pc);
    } else {
      SingleLoadSim(m, pc);
    }
  }

  // ----------------------------------------------------- full, empty, count

  /** buf_ring_full, buf_ring_empty and buf_ring_count, on words. */
  predicate Full32(m: Mem32)
    requires m.consTail < WORD
  {
    m.prodHead == Sub32(Add32(m.consTail, m.Size()), 1)
  }

  predicate Empty32(m: Mem32) { m.consHead == m.prodTail }

  function Count32(m: Mem32): nat
    requires m.Size() > 0 && m.consTail < WORD
  {
    BitAnd(Sub32(Add32(m.Size(), m.prodTail), m.consTail), m.Size() - 1)
  }

  /** The word tests agree with the tickets in every state that the invariant allows. */
  lemma FullAgrees(m: Mem)
    requires MemOk(m) && PowerOfTwo(|m.slots|)
    ensures Full32(WrapMem(m)) <==> m.prodHead - m.consTail == |m.slots| - 1
  {
    var n := |m.slots|;
    SizeFits(n);
    WrapAdd(m.consTail, n);
    WrapSub(m.consTail + n, 1);
    WrapEqual(m.prodHead, m.consTail + n - 1);
  }

  lemma CountAgrees(m: Mem)
    requires MemOk(m) && PowerOfTwo(|m.slots|)
    ensures Count32(WrapMem(m)) == m.prodTail - m.consTail
  {
    CountWords(m.prodTail, m.consTail, |m.slots|);
  }

  lemma CountWords(tail: nat, head: nat, n: nat)
    requires PowerOfTwo(n) && head <= tail < head + n
    ensures BitAnd(Sub32(Add32(n, Wrap(tail)), Wrap(head)), n - 1) == tail - head
  {
    SizeFits(n);
    WrapAdd(tail, n);
    WrapSub(tail + n, head);
    MaskedSlot(tail + n - head, n);
  }

  /** The queries of a ring at rest give the unbounded answers. */
  lemma QueriesAgree(m: Mem)
    requires MemOk(m) && PowerOfTwo(|m.slots|)
    ensures Full32(WrapMem(m)) <==> m.prodHead - m.consTail == |m.slots| - 1
    ensures Empty32(WrapMem(m)) <==> m.consHead == m.prodTail
    ensures Count32(WrapMem(m)) == m.prodTail - m.consTail
  {
    FullAgrees(m);
    CountAgrees(m);
    SizeFits(|m.slots|);
    WrapEqual(m.consHead, m.prodTail);
  }

  // ----------------------------------------------- where wrapping goes wrong

  /** The accesses that compare a snapshot of any age. */
  predicate Compares(pc: Pc) {
    pc.EnqRecheckHead? || pc.EnqRecheckTail? || pc.EnqCas? || pc.DeqLoadTail? || pc.DeqCas?
  }

  /** Such an access of the 32-bit ring takes the branch that the tickets call
      for if and only if the counter has not wrapped onto the snapshot. */
  lemma CompareExact(m: Mem, role: Role, pc: Pc)
    requires MemOk(m) && PcOk(m, role, pc) && Compares(pc)
    ensures Access32(WrapMem(m), WrapPc(pc)).pc == WrapPc(Access(m, pc).pc) <==> Fresh(m, pc)
  {
    match pc
    case DeqLoadTail(h) => WrappedCompare(h, m.prodTail);
    case DeqCas(h) => WrappedCompare(h, m.consHead);
    case _ => EnqueueCompareExact(m, role, pc);
  }

  lemma EnqueueCompareExact(m: Mem, role: Role, pc: Pc)
    requires MemOk(m) && PcOk(m, role, pc) && (pc.EnqRecheckHead? || pc.EnqRecheckTail? || pc.EnqCas?)
    ensures AccessEnqueue32(WrapMem(m), WrapPc(pc)).pc == WrapPc(AccessEnqueue(m, pc).pc) <==> Fresh(m, pc)
  {
    if pc.EnqRecheckTail? { WrappedCompare(pc.tail, m.consTail); } else { WrappedCompare(pc.head, m.prodHead); }
  }

  /** A dequeue claims a slot only if there is an element to claim, unless the
      ring is empty and its head has wrapped onto the snapshot. */
  lemma DequeueClaims(m: Mem, role: Role, h: nat)
    requires MemOk(m) && PcOk(m, role, DeqCas(h))
    ensures (Access32(WrapMem(m), DeqCas(Wrap(h))).pc.DeqRead? ==> m.consHead < m.prodTail) <==>
            !(m.consHead == m.prodTail && WrapsOnto(h, m.consHead))
  {
    WrappedCompare(h, m.consHead);
  }

  /** An enqueue claims a slot only if one is free, unless the ring is full and
      its head has wrapped onto the snapshot. */
  lemma EnqueueClaims(m: Mem, role: Role, b: Buf, h: nat)
    requires MemOk(m) && PcOk(m, role, EnqCas(b, h))
    ensures (Access32(WrapMem(m), EnqCas(b, Wrap(h))).pc.EnqStore? ==> m.prodHead < m.consTail + |m.slots| - 1) <==>
            !(m.prodHead == m.consTail + |m.slots| - 1 && WrapsOnto(h, m.prodHead))
  {
    WrappedCompare(h, m.prodHead);
  }
}
