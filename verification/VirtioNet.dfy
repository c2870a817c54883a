/** What every run of the receive queue keeps: no buffer is lost, doubled or
    overwritten while the device may still take it. */
module VirtioNet {
  import opened Modular
  import opened VirtioRing

  /** The buffer that the driver is about to make available again. */
  function InHand(pc: Pc): multiset<nat> {
    if pc.StoreAvail? || pc.StoreAvailIdx? then multiset{pc.head} else multiset{}
  }

  /** Published and not yet taken by the device. */
  ghost function Available(s: Sys): multiset<nat>
    requires s.taken <= |s.avails|
  {
    multiset(s.avails[s.taken..])
  }

  /** Returned by the device and not yet read by the driver. */
  ghost function Unread(s: Sys): multiset<nat>
    requires s.read <= |s.useds|
  {
    multiset(Ids(s.useds[s.read..]))
  }

  ghost predicate Counted(s: Sys) {
    && s.taken <= s.seen <= |s.avails| && s.read <= |s.useds| && s.devSeen == SlotOf(s.seen, WRAP)
    && s.availIdx == SlotOf(|s.avails|, WRAP) && s.usedIdx == SlotOf(|s.useds|, WRAP)
    && s.devIdx == SlotOf(s.taken, WRAP) && s.lastRx == SlotOf(s.read, WRAP)
  }

  /** Every buffer is in exactly one place. */
  ghost predicate Conserved(q: Queue, avails: seq<nat>, taken: nat, held: multiset<nat>, useds: seq<Used>, read: nat,
                            hand: multiset<nat>)
    requires taken <= |avails| && read <= |useds|
  {
    && multiset(avails[taken..]) + held + multiset(Ids(useds[read..])) + hand == multiset(Heads(q.Buffers()))
    && |avails| + |hand| == read + q.Buffers()
  }

  ghost predicate AvailAt(q: Queue, ring: seq<nat>, avails: seq<nat>, i: nat)
    requires q.size > 0 && |ring| == q.size && i < |avails|
  {
    ring[Slot(i, q)] == avails[i]
  }

  ghost predicate UsedAt(q: Queue, ring: seq<Used>, useds: seq<Used>, i: nat)
    requires q.size > 0 && |ring| == q.size && i < |useds|
  {
    ring[Slot(i, q)] == useds[i] && q.header <= useds[i].len <= q.header + q.capacity
  }

  /** What the device has yet to take is in its slot. */
  ghost predicate AvailsIn(q: Queue, ring: seq<nat>, avails: seq<nat>, taken: nat)
    requires q.size > 0 && |ring| == q.size
  {
    forall i: nat | taken <= i < |avails| :: AvailAt(q, ring, avails, i)
  }

  /** What the driver has yet to read is in its slot. */
  ghost predicate UsedsIn(q: Queue, ring: seq<Used>, useds: seq<Used>, read: nat)
    requires q.size > 0 && |ring| == q.size
  {
    forall i: nat | read <= i < |useds| :: UsedAt(q, ring, useds, i)
  }

  /** What the driver knows between its accesses. */
  ghost predicate DriverOk(q: Queue, s: Sys)
    requires Shaped(q, s)
  {
    && (s.pc.ReadUsed? ==> s.read < |s.useds|)
    && (s.pc.StoreAvailIdx? ==> s.availRing[Slot(|s.avails|, q)] == s.pc.head)
  }

  /** What the device has written and not published, it still holds. */
  ghost predicate DeviceOk(s: Sys) { multiset(Ids(s.pending)) <= s.held }

  ghost predicate Inv(q: Queue, s: Sys) {
    && q.Valid() && Shaped(q, s) && Counted(s)
    && Conserved(q, s.avails, s.taken, s.held, s.useds, s.read, InHand(s.pc))
    && AvailsIn(q, s.availRing, s.avails, s.taken) && UsedsIn(q, s.usedRing, s.useds + s.pending, s.read)
    && DriverOk(q, s) && DeviceOk(s)
  }

  // ------------------------------------------------------------------- bounds

  lemma {:induction false} HeadsAre(n: nat)
    ensures |Heads(n)| == n && forall i | 0 <= i < n :: Heads(n)[i] == 2 * i
  {
    if n > 0 { HeadsAre(n - 1); }
  }

  /** No ring is ever more than half full. */
  lemma Bounds(q: Queue, s: Sys)
    requires Inv(q, s)
    ensures (|s.avails| - s.taken) + |s.held| + (|s.useds| - s.read) + |InHand(s.pc)| == q.Buffers()
    ensures 2 <= q.size < WRAP && 2 * q.Buffers() == q.size
  {
    SizeDivides(q);
    HeadsAre(q.Buffers());
    assert |Available(s)| == |s.avails| - s.taken && |Unread(s)| == |s.useds| - s.read;
    assert |Available(s) + s.held + Unread(s) + InHand(s.pc)| == |multiset(Heads(q.Buffers()))|;
  }

  /** A buffer is one of the even heads, wherever it is. */
  lemma HeadIsEven(q: Queue, h: nat)
    requires h in multiset(Heads(q.Buffers())) && 2 * q.Buffers() == q.size
    ensures h % 2 == 0 && h + 1 < q.size && multiset(Heads(q.Buffers()))[h] == 1
  {
    HeadsAre(q.Buffers());
    assert h in Heads(q.Buffers());
    OnceEach(q.Buffers(), h);
  }

  lemma EvenBelow(n: nat, h: nat)
    requires n > 0
    ensures h % 2 == 0 && h < 2 * n <==> h == 2 * (n - 1) || (h % 2 == 0 && h < 2 * (n - 1))
  {
  }

  lemma {:induction false} OnceEach(n: nat, h: nat)
    ensures multiset(Heads(n))[h] == if h % 2 == 0 && h < 2 * n then 1 else 0
  {
    if n > 0 {
      OnceEach(n - 1, h);
      EvenBelow(n, h);
    }
  }

  // ------------------------------------------------------------- moving buffers

  lemma FirstId(us: seq<Used>)
    requires us != []
    ensures multiset(Ids(us)) == multiset{us[0].id} + multiset(Ids(us[1..]))
  {
    assert Ids(us) == [us[0].id] + Ids(us[1..]);
  }

  lemma MoreIds(us: seq<Used>, vs: seq<Used>)
    ensures multiset(Ids(us + vs)) == multiset(Ids(us)) + multiset(Ids(vs))
  {
    assert Ids(us + vs) == Ids(us) + Ids(vs);
  }

  lemma LastId(us: seq<Used>, u: Used)
    ensures multiset(Ids(us + [u])) == multiset(Ids(us)) + multiset{u.id}
  {
    assert Ids(us + [u]) == Ids(us) + [u.id];
  }

  /** From the used ring to the driver's hand. */
  lemma ReadConserves(q: Queue, avails: seq<nat>, taken: nat, held: multiset<nat>, useds: seq<Used>, read: nat)
    requires taken <= |avails| && read < |useds| && Conserved(q, avails, taken, held, useds, read, multiset{})
    ensures Conserved(q, avails, taken, held, useds, read + 1, multiset{useds[read].id})
    ensures useds[read].id in multiset(Heads(q.Buffers()))
  {
    FirstId(useds[read..]);
    assert useds[read..][1..] == useds[read + 1..];
  }

  /** From the driver's hand to the available ring. */
  lemma PublishConserves(q: Queue, avails: seq<nat>, taken: nat, held: multiset<nat>, useds: seq<Used>, read: nat,
                         h: nat)
    requires taken <= |avails| && read <= |useds| && Conserved(q, avails, taken, held, useds, read, multiset{h})
    ensures Conserved(q, avails + [h], taken, held, useds, read, multiset{})
  {
    assert (avails + [h])[taken..] == avails[taken..] + [h];
  }

  /** From the available ring to the device. */
  lemma TakeConserves(q: Queue, avails: seq<nat>, taken: nat, held: multiset<nat>, useds: seq<Used>, read: nat,
                      hand: multiset<nat>)
    requires taken < |avails| && read <= |useds| && Conserved(q, avails, taken, held, useds, read, hand)
    ensures Conserved(q, avails, taken + 1, held + multiset{avails[taken]}, useds, read, hand)
  {
    assert avails[taken..] == [avails[taken]] + avails[taken + 1..];
  }

  /** From the device to the used ring. */
  lemma ReturnConserves(q: Queue, avails: seq<nat>, taken: nat, held: multiset<nat>, useds: seq<Used>, read: nat,
                        hand: multiset<nat>, us: seq<Used>)
    requires taken <= |avails| && read <= |useds| && multiset(Ids(us)) <= held
    requires Conserved(q, avails, taken, held, useds, read, hand)
    ensures Conserved(q, avails, taken, held - multiset(Ids(us)), useds + us, read, hand)
  {
    MoreIds(useds[read..], us);
    assert (useds + us)[read..] == useds[read..] + us;
    assert held == (held - multiset(Ids(us))) + multiset(Ids(us));
  }

  lemma AvailsMore(q: Queue, ring: seq<nat>, avails: seq<nat>, taken: nat, h: nat)
    requires q.size > 0 && |ring| == q.size && AvailsIn(q, ring, avails, taken) && ring[Slot(|avails|, q)] == h
    ensures AvailsIn(q, ring, avails + [h], taken)
  {
    forall i: nat | taken <= i < |avails| + 1 ensures AvailAt(q, ring, avails + [h], i) {
      if i < |avails| { assert AvailAt(q, ring, avails, i); }
    }
  }

  lemma UsedsMore(q: Queue, ring: seq<Used>, useds: seq<Used>, read: nat, u: Used)
    requires q.size > 0 && |ring| == q.size && UsedsIn(q, ring, useds, read) && ring[Slot(|useds|, q)] == u
    requires q.header <= u.len <= q.header + q.capacity
    ensures UsedsIn(q, ring, useds + [u], read)
  {
    forall i: nat | read <= i < |useds| + 1 ensures UsedAt(q, ring, useds + [u], i) {
      if i < |useds| { assert UsedAt(q, ring, useds, i); }
    }
  }

  /** A store into the next slot leaves the slots in use alone. */
  lemma AvailsStored(q: Queue, ring: seq<nat>, avails: seq<nat>, taken: nat, h: nat)
    requires q.size > 0 && |ring| == q.size && AvailsIn(q, ring, avails, taken) && |avails| < taken + q.size
    ensures AvailsIn(q, ring[Slot(|avails|, q) := h], avails, taken)
  {
    var ring' := ring[Slot(|avails|, q) := h];
    forall i: nat | taken <= i < |avails| ensures AvailAt(q, ring', avails, i) {
      SlotsApart(i, |avails|, q.size);
      assert AvailAt(q, ring, avails, i);
    }
  }

  lemma UsedsStored(q: Queue, ring: seq<Used>, useds: seq<Used>, read: nat, u: Used)
    requires q.size > 0 && |ring| == q.size && UsedsIn(q, ring, useds, read) && |useds| < read + q.size
    ensures UsedsIn(q, ring[Slot(|useds|, q) := u], useds, read)
  {
    var ring' := ring[Slot(|useds|, q) := u];
    forall i: nat | read <= i < |useds| ensures UsedAt(q, ring', useds, i) {
      SlotsApart(i, |useds|, q.size);
      assert UsedAt(q, ring, useds, i);
    }
  }

  // ----------------------------------------------------------------- the steps

  /** The driver looks at the used index. */
  lemma LoadKeepsInv(q: Queue, s: Sys)
    requires Inv(q, s) && s.pc.LoadUsedIdx?
    ensures Inv(q, DriverStep(q, s))
    ensures s.lastRx == s.usedIdx <==> s.read == |s.useds|
  {
    Bounds(q, s);
    SameIndex(s.read, |s.useds|);
  }

  /** The entry that the driver reads is the next one, and heads a buffer. */
  lemma ReadsNext(q: Queue, s: Sys)
    requires Inv(q, s) && s.pc.ReadUsed?
    ensures var u := s.usedRing[Slot(s.lastRx, q)];
            && u == s.useds[s.read] && q.header <= u.len <= q.header + q.capacity
            && u.id % 2 == 0 && u.id + 1 < q.size && Back(SlotOf(u.id + 1, q.size)) == u.id
  {
    SizeDivides(q);
    SlotOfIndex(q, s.read);
    assert UsedAt(q, s.usedRing, s.useds + s.pending, s.read);
    ReadConserves(q, s.avails, s.taken, s.held, s.useds, s.read);
    HeadIsEven(q, s.useds[s.read].id);
  }

  lemma ReadIs(q: Queue, s: Sys)
    requires Inv(q, s) && s.pc.ReadUsed?
    ensures var u := s.useds[s.read];
            DriverStep(q, s) ==
              s.(pc := StoreAvail(u.id, PacketLen(q, u.len, s.pc.maxlen)), lastRx := Bump(s.lastRx), read := s.read + 1)
  {
    ReadsNext(q, s);
  }

  lemma ReadCounted(s: Sys, s': Sys)
    requires Counted(s) && s.read < |s.useds|
    requires s' == s.(pc := s'.pc, lastRx := Bump(s.lastRx), read := s.read + 1)
    ensures Counted(s')
  {
    NextIndex(s.read);
  }

  lemma UsedsFewer(q: Queue, ring: seq<Used>, useds: seq<Used>, read: nat)
    requires q.size > 0 && |ring| == q.size && UsedsIn(q, ring, useds, read)
    ensures UsedsIn(q, ring, useds, read + 1)
  {
  }

  lemma ReadKeepsInv(q: Queue, s: Sys)
    requires Inv(q, s) && s.pc.ReadUsed?
    ensures Inv(q, DriverStep(q, s))
  {
    ReadIs(q, s);
    AfterRead(q, s, DriverStep(q, s));
  }

  lemma AfterRead(q: Queue, s: Sys, s': Sys)
    requires Inv(q, s) && s.pc.ReadUsed? && s'.pc.StoreAvail? && s'.pc.head == s.useds[s.read].id
    requires s' == s.(pc := s'.pc, lastRx := Bump(s.lastRx), read := s.read + 1)
    ensures Inv(q, s')
  {
    ReadCounted(s, s');
    UsedsFewer(q, s.usedRing, s.useds + s.pending, s.read);
    assert InHand(s.pc) == multiset{} && InHand(s'.pc) == multiset{s.useds[s.read].id};
    ReadConserves(q, s.avails, s.taken, s.held, s.useds, s.read);
  }

  lemma StoreKeepsInv(q: Queue, s: Sys)
    requires Inv(q, s) && s.pc.StoreAvail?
    ensures Inv(q, DriverStep(q, s))
  {
    Bounds(q, s);
    SlotOfIndex(q, |s.avails|);
    AvailsStored(q, s.availRing, s.avails, s.taken, s.pc.head);
  }

  lemma PublishKeepsInv(q: Queue, s: Sys)
    requires Inv(q, s) && s.pc.StoreAvailIdx?
    ensures Inv(q, DriverStep(q, s))
  {
    NextIndex(|s.avails|);
    PublishConserves(q, s.avails, s.taken, s.held, s.useds, s.read, s.pc.head);
    AvailsMore(q, s.availRing, s.avails, s.taken, s.pc.head);
  }

  /** The device takes the next entry that the driver published. */
  lemma TakesNext(q: Queue, s: Sys)
    requires Inv(q, s) && s.devIdx != s.devSeen
    ensures s.taken < |s.avails| && s.availRing[Slot(s.devIdx, q)] == s.avails[s.taken]
  {
    SlotOfIndex(q, s.taken);
    assert s.taken < |s.avails|;
    assert AvailAt(q, s.availRing, s.avails, s.taken);
  }

  lemma TakeKeepsInv(q: Queue, s: Sys)
    requires Inv(q, s) && Enabled(q, s, DeviceTake)
    ensures Inv(q, Step(q, s, DeviceTake))
  {
    TakesNext(q, s);
    NextIndex(s.taken);
    TakeConserves(q, s.avails, s.taken, s.held, s.useds, s.read, InHand(s.pc));
  }

  lemma Fewer(a: multiset<nat>, b: multiset<nat>)
    requires a <= b
    ensures |a| <= |b|
  {
    assert b == a + (b - a);
  }

  /** An entry more is still held. */
  lemma OneMore(pending: seq<Used>, held: multiset<nat>, u: Used)
    requires multiset(Ids(pending)) <= held && u.id in held - multiset(Ids(pending))
    ensures multiset(Ids(pending + [u])) <= held && |pending| + 1 <= |held|
  {
    LastId(pending, u);
    Fewer(multiset(Ids(pending + [u])), held);
    assert |multiset(Ids(pending + [u]))| == |pending| + 1;
  }

  /** The device's entry goes to a slot that the driver has read. */
  lemma WriteStores(q: Queue, ring: seq<Used>, useds: seq<Used>, pending: seq<Used>, read: nat, u: Used)
    requires q.size > 0 && |ring| == q.size && UsedsIn(q, ring, useds + pending, read)
    requires |useds| + |pending| < read + q.size && q.header <= u.len <= q.header + q.capacity
    ensures UsedsIn(q, ring[Slot(|useds| + |pending|, q) := u], useds + (pending + [u]), read)
  {
    var written := useds + pending;
    UsedsStored(q, ring, written, read, u);
    UsedsMore(q, ring[Slot(|written|, q) := u], written, read, u);
    assert useds + (pending + [u]) == written + [u];
  }

  lemma WriteSlot(q: Queue, s: Sys, u: Used)
    requires Inv(q, s) && Enabled(q, s, DeviceWrite(u))
    ensures Slot(SlotOf(s.usedIdx + |s.pending|, WRAP), q) == Slot(|s.useds| + |s.pending|, q)
    ensures |s.useds| + |s.pending| < s.read + q.size && multiset(Ids(s.pending + [u])) <= s.held
  {
    Bounds(q, s);
    OneMore(s.pending, s.held, u);
    SumIndex(|s.useds|, |s.pending|);
    SlotOfIndex(q, |s.useds| + |s.pending|);
  }

  lemma WriteKeepsInv(q: Queue, s: Sys, u: Used)
    requires Inv(q, s) && Enabled(q, s, DeviceWrite(u))
    ensures Inv(q, Step(q, s, DeviceWrite(u)))
  {
    WriteSlot(q, s, u);
    WriteStores(q, s.usedRing, s.useds, s.pending, s.read, u);
    AfterWrite(q, s, Step(q, s, DeviceWrite(u)), u);
  }

  lemma AfterWrite(q: Queue, s: Sys, s': Sys, u: Used)
    requires Inv(q, s) && multiset(Ids(s.pending + [u])) <= s.held && |s'.usedRing| == q.size
    requires s' == s.(usedRing := s'.usedRing, pending := s.pending + [u])
    requires UsedsIn(q, s'.usedRing, s.useds + (s.pending + [u]), s.read)
    ensures Inv(q, s')
  {
  }

  /** The first `n` entries that the device wrote become visible. */
  lemma ReturnKeepsInv(q: Queue, s: Sys, n: nat)
    requires Inv(q, s) && 0 < n <= |s.pending|
    ensures Inv(q, Step(q, s, DevicePublish(n)))
  {
    var us, rest := s.pending[..n], s.pending[n..];
    assert s.pending == us + rest;
    SumIndex(|s.useds|, n);
    MoreIds(us, rest);
    ReturnConserves(q, s.avails, s.taken, s.held, s.useds, s.read, InHand(s.pc), us);
    assert (s.useds + us) + rest == s.useds + s.pending;
  }

  lemma StepKeepsInv(q: Queue, s: Sys, ev: Event)
    requires Inv(q, s) && Enabled(q, s, ev)
    ensures Inv(q, Step(q, s, ev))
  {
    match ev
    case Receive(_) =>
    case Driver =>
      match s.pc {
        case LoadUsedIdx(_) => LoadKeepsInv(q, s);
        case ReadUsed(_) => ReadKeepsInv(q, s);
        case StoreAvail(_, _) => StoreKeepsInv(q, s);
        case StoreAvailIdx(_, _) => PublishKeepsInv(q, s);
      }
    case DeviceLoad =>
    case DeviceTake => TakeKeepsInv(q, s);
    case DeviceWrite(u) => WriteKeepsInv(q, s, u);
    case DevicePublish(n) => ReturnKeepsInv(q, s, n);
  }

  lemma InitInv(q: Queue, s: Sys)
    requires q.Valid() && Init(q, s)
    ensures Inv(q, s)
  {
    SizeDivides(q);
    HeadsAre(q.Buffers());
    assert s.avails[0..] == s.avails && s.useds[0..] == [];
    forall i: nat | i < |s.avails| ensures AvailAt(q, s.availRing, s.avails, i) {
      assert s.availRing[..q.Buffers()][i] == s.availRing[i];
    }
  }

  lemma {:induction false} RunInv(q: Queue, run: seq<Sys>, evs: seq<Event>, i: nat)
    requires IsRun(q, run, evs) && i < |run|
    ensures Inv(q, run[i])
  {
    if i == 0 {
      InitInv(q, run[0]);
    } else {
      RunInv(q, run, evs, i - 1);
      assert StepAt(q, run, evs, i - 1);
      StepKeepsInv(q, run[i - 1], evs[i - 1]);
    }
  }

  // -------------------------------------------------------------- what follows

  /** In every state each even head is in exactly one place, and no other number
      is anywhere. */
  lemma OnePlace(q: Queue, run: seq<Sys>, evs: seq<Event>, i: nat, h: nat)
    requires IsRun(q, run, evs) && i < |run|
    ensures run[i].taken <= |run[i].avails| && run[i].read <= |run[i].useds|
    ensures var s := run[i];
            Available(s)[h] + s.held[h] + Unread(s)[h] + InHand(s.pc)[h] == if h % 2 == 0 && h < q.size then 1 else 0
  {
    RunInv(q, run, evs, i);
    SizeDivides(q);
    OnceEach(q.Buffers(), h);
    var s := run[i];
    assert (Available(s) + s.held + Unread(s) + InHand(s.pc))[h] == multiset(Heads(q.Buffers()))[h];
  }

  /** Between calls the available index is half the queue ahead of the driver's,
      also across the wrap of the 16-bit indices. */
  lemma {:induction false} IndexDistance(q: Queue, run: seq<Sys>, evs: seq<Event>, i: nat)
    requires IsRun(q, run, evs) && i < |run| && run[i].pc.Outside?
    ensures SlotOf(run[i].lastRx + q.Buffers(), WRAP) == run[i].availIdx
  {
    RunInv(q, run, evs, i);
    SizeDivides(q);
    SumIndex(run[i].read, q.Buffers());
  }

  /** Making a buffer available overwrites none that the device has yet to take. */
  lemma NoOverwrite(q: Queue, run: seq<Sys>, evs: seq<Event>, i: nat, k: nat)
    requires IsRun(q, run, evs) && i < |evs| && evs[i] == Driver && run[i].pc.StoreAvail?
    requires run[i].taken <= k < |run[i].avails|
    ensures Shaped(q, run[i]) && Shaped(q, run[i + 1])
    ensures run[i + 1].availRing[Slot(k, q)] == run[i].availRing[Slot(k, q)] == run[i].avails[k]
  {
    RunInv(q, run, evs, i);
    assert StepAt(q, run, evs, i);
    StoreKeepsInv(q, run[i]);
    assert AvailAt(q, run[i].availRing, run[i].avails, k);
    assert AvailAt(q, run[i + 1].availRing, run[i].avails, k);
  }

  /** A packet read comes from the next returned buffer, and fits both the buffer
      and the caller's. */
  lemma PacketFits(q: Queue, run: seq<Sys>, evs: seq<Event>, i: nat)
    requires IsRun(q, run, evs) && i < |evs| && evs[i] == Driver && run[i].pc.ReadUsed?
    ensures run[i].read < |run[i].useds|
    ensures var s, pc, u := run[i], run[i + 1].pc, run[i].useds[run[i].read];
            && pc.StoreAvail? && pc.head == u.id && pc.len <= s.pc.maxlen && pc.len <= q.capacity
            && (u.len - q.header <= s.pc.maxlen ==> pc.len == u.len - q.header)
  {
    RunInv(q, run, evs, i);
    assert StepAt(q, run, evs, i);
    ReadsNext(q, run[i]);
  }
}
