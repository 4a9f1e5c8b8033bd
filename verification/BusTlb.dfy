/** Filling a bus TLB entry through a tree of buses without controllers, and the
    agreement of the entry with plain address decoding. */
module BusTlb {
  import opened Words
  import opened Bits
  import opened BusAddressing

  datatype Cycle = Read | Write | Lock | Unlock

  /** A host pointer to add a bus address to, when memory can be reached directly. */
  datatype FastPointer = Undefined | At(offset: int)

  /** Who runs a slow cycle: the bus's own fault handler, or a device. */
  datatype Handler = BusFault | DeviceCycle(device: nat)

  datatype Entry = Entry(first: int, last: int, cyclesOk: set<Cycle>,
                         read: FastPointer, write: FastPointer,
                         offset: int, shift: int, handler: Handler)

  /** What a device's own fill function answers for an address of its own. */
  datatype Reply = Filled(entry: Entry) | Refused(error: nat)

  /** All devices' fill functions: device, address on the device, cycles wanted. */
  type Devices = (nat, nat, set<Cycle>) -> Reply

  /** The window of addresses an asker with this sourced mask may ask about. */
  function Window(m: nat, mask: nat, sourced: nat): nat {
    var below := if sourced > 0 then sourced - 1 else if m > 0 then m - 1 else 0;
    Min(Xor(Or(sourced, below), sourced), mask)
  }

  // ---------------------------------------------------------------- mapping an entry

  function Shifted(p: FastPointer, allowed: bool, offset: int): FastPointer {
    if !allowed then Undefined
    else if p.Undefined? then Undefined
    else At(p.offset - offset)
  }

  /** The entry `t`, valid around `addr0` on one bus, made valid around `addr1`
      on another, within [first1, last1] there and for the cycles allowed there. */
  function Mapped(m: nat, t: Entry, addr0: int, first1: int, last1: int, cycles1: set<Cycle>, addr1: int): Entry {
    var offset := WSub(m, addr1, addr0);
    var before := Min(WSub(m, addr0, t.first), WSub(m, addr1, first1));
    var after := Min(WSub(m, t.last, addr0), WSub(m, last1, addr1));
    var cycles := t.cyclesOk * cycles1;
    Entry(WSub(m, addr1, before), WAdd(m, addr1, after), cycles,
          Shifted(t.read, Read in cycles, offset), Shifted(t.write, Write in cycles, offset),
          WSub(m, t.offset, offset), t.shift, t.handler)
  }

  ghost predicate EntryWords(m: nat, t: Entry) {
    0 <= t.first < m && 0 <= t.last < m && 0 <= t.offset < m
  }

  /** Two fast pointers reach the same byte, up to the width of an address. */
  ghost predicate SameByte(m: nat, p: FastPointer, x: nat, q: FastPointer, y: nat) {
    p.At? ==> q.At? && exists k: int :: p.offset + x == q.offset + y + k * m
  }

  /** `t` at address `x` does exactly what `u` does at address `y`. */
  ghost predicate Agrees(m: nat, t: Entry, x: nat, u: Entry, y: nat) {
    && t.first <= x <= t.last < m && u.first <= y <= u.last < m
    && EntryWords(m, t) && EntryWords(m, u)
    && WAdd(m, x, t.offset) == WAdd(m, y, u.offset)
    && t.shift == u.shift && t.handler == u.handler
    && t.cyclesOk <= u.cyclesOk && u.cyclesOk * {Read, Write} <= t.cyclesOk
    && SameByte(m, t.read, x, u.read, y) && SameByte(m, t.write, x, u.write, y)
    && (Read in t.cyclesOk && u.read.At? ==> t.read.At?)
    && (Write in t.cyclesOk && u.write.At? ==> t.write.At?)
  }

  lemma SameByteStep(m: nat, p: FastPointer, allowed: bool, addr0: nat, addr1: nat, x: nat, y: nat, q: FastPointer, z: nat)
    requires addr0 < m && addr1 < m
    requires x + addr0 == y + addr1
    requires SameByte(m, p, y, q, z)
    ensures SameByte(m, Shifted(p, allowed, WSub(m, addr1, addr0)), x, q, z)
  {
    var r := Shifted(p, allowed, WSub(m, addr1, addr0));
    if r.At? {
      var k: int :| p.offset + y == q.offset + z + k * m;
      var k' := if addr0 <= addr1 then k else k - 1;
      assert (k - 1) * m == k * m - m;
      assert r.offset + x == q.offset + z + k' * m;
    }
  }

  /** A mapped entry covers the address asked about and stays inside both ranges. */
  lemma MappedRange(m: nat, t: Entry, addr0: nat, first1: nat, last1: nat, addr1: nat)
    requires EntryWords(m, t)
    requires t.first <= addr0 <= t.last
    requires first1 <= addr1 <= last1 < m
    ensures var r := Mapped(m, t, addr0, first1, last1, {Read, Write}, addr1);
      && EntryWords(m, r)
      && r.first <= addr1 <= r.last && first1 <= r.first && r.last <= last1
      && t.first <= r.first - addr1 + addr0 && r.last - addr1 + addr0 <= t.last
      && r.last - addr1 == Min(t.last - addr0, last1 - addr1)
  {
  }

  /** Each address a mapped entry covers does what the address it stands for did. */
  lemma MappedAgrees(m: nat, t: Entry, addr0: nat, first1: nat, last1: nat, addr1: nat, x: nat, u: Entry, z: nat)
    requires EntryWords(m, t)
    requires t.first <= addr0 <= t.last
    requires first1 <= addr1 <= last1 < m
    requires var r := Mapped(m, t, addr0, first1, last1, {Read, Write}, addr1); r.first <= x <= r.last
    requires 0 <= x - addr1 + addr0 && Agrees(m, t, x - addr1 + addr0, u, z)
    ensures Agrees(m, Mapped(m, t, addr0, first1, last1, {Read, Write}, addr1), x, u, z)
  {
    MappedRange(m, t, addr0, first1, last1, addr1);
    var r := Mapped(m, t, addr0, first1, last1, {Read, Write}, addr1);
    var y := x - addr1 + addr0;
    SameByteStep(m, t.read, Read in r.cyclesOk, addr0, addr1, x, y, u.read, z);
    SameByteStep(m, t.write, Write in r.cyclesOk, addr0, addr1, x, y, u.write, z);
  }

  /** A fast pointer is kept exactly, not only up to the address width, if and
      only if the address does not fall when it is mapped. */
  lemma PointerKeptIff(m: nat, p: FastPointer, addr0: nat, addr1: nat, x: nat, y: nat)
    requires addr0 < m && addr1 < m && p.At? && x + addr0 == y + addr1
    ensures Shifted(p, true, WSub(m, addr1, addr0)).offset + x == p.offset + y <==> addr0 <= addr1
  {
  }

  // ---------------------------------------------------------------- plain decoding

  datatype Place = OnDevice(device: nat, address: nat) | Hole(asked: nat)

  /** Where decoding ends, and through which regions it went. */
  datatype Decoded = Decoded(path: seq<nat>, place: Place)

  /** Decode an asker's address one bus at a time. */
  function Decode(map_: AddressMap, sourced: nat, address: nat): Decoded
    decreases map_, 1
  {
    DecodeOnBus(map_, Or(sourced, address))
  }

  function DecodeOnBus(map_: AddressMap, asked: nat): Decoded
    decreases map_, 0
  {
    var pivot := Locate(map_.addressables, asked);
    if pivot < 0 then Decoded([], Hole(asked))
    else
      var a := map_.addressables[pivot];
      var inner := asked - a.connection.address;
      match a.connection.other
      case Device(id) => Decoded([pivot], OnDevice(id, inner))
      case Nested(bus, s) =>
        var d := Decode(bus, s, inner);
        Decoded([pivot] + d.path, d.place)
  }

  // ---------------------------------------------------------------- filling

  datatype Fill = Success(entry: Entry) | Failure(error: nat)

  ghost predicate MapOk(m: nat, map_: AddressMap, sourced: nat) {
    1 < m && IsPow2(m) && map_.mask < m && sourced < m && Ordered(map_.mask, map_.addressables)
  }

  /** An address an asker may ask of this tree: on every bus that decoding comes
      through, it lies below the sourced bits of the connection asked through. */
  ghost predicate Askable(m: nat, map_: AddressMap, sourced: nat, address: nat)
    decreases map_
  {
    && MapOk(m, map_, sourced)
    && address <= Window(m, map_.mask, sourced)
    && var pivot := Locate(map_.addressables, Or(sourced, address));
       (pivot >= 0 ==>
          var a := map_.addressables[pivot];
          a.connection.other.Nested? ==>
            Askable(m, a.connection.other.bus, a.connection.other.sourced, Or(sourced, address) - a.connection.address))
  }

  /** A correct device answers with an entry that covers the address asked. */
  ghost predicate DevicesOk(m: nat, devices: Devices) {
    forall d: nat, y: nat, c: set<Cycle> :: devices(d, y, c).Filled? ==>
      var t := devices(d, y, c).entry;
      EntryWords(m, t) && t.first <= y <= t.last && t.handler == DeviceCycle(d)
  }

  /** Below its sourced bits, the address an asker means is a sum. */
  lemma AskedAddress(m: nat, mask: nat, sourced: nat, address: nat)
    requires 1 < m && IsPow2(m) && mask < m && sourced < m
    requires address <= Window(m, mask, sourced)
    ensures Or(sourced, address) == sourced + address < m
  {
    if sourced > 0 {
      var size := BelowLowestBit(sourced);
      OrIsAdd(sourced, address, size);
      Pow2Divides(size, m);
      RoomAboveMultiple(sourced, size, m);
    }
  }

  /** The window is all there is below them: an address is in it iff it is on the bus and
      it and every lower one mean a sum. */
  lemma WindowIff(m: nat, mask: nat, sourced: nat, address: nat)
    requires 1 < m && IsPow2(m) && mask < m && sourced < m
    ensures address <= Window(m, mask, sourced) <==>
      address <= mask && forall a: nat :: a <= address ==> Or(sourced, a) == sourced + a
  {
    hide IsPow2;
    if address <= Window(m, mask, sourced) {
      forall a: nat | a <= address ensures Or(sourced, a) == sourced + a {
        AskedAddress(m, mask, sourced, a);
      }
    } else if sourced > 0 {
      var size := BelowLowestBit(sourced);
      assert Or(sourced, size) != sourced + size;
    }
  }

  /** The entry the code makes for an asked address that nothing covers, before
      it is mapped back to the asker's address. */
  function HoleEntry(m: nat, map_: AddressMap, pivot: nat): Entry
    requires pivot <= |map_.addressables|
  {
    var first := if pivot == 0 then 0 else map_.addressables[pivot - 1].Last() + 1;
    var last := if pivot == |map_.addressables| then map_.mask
                else WSub(m, map_.addressables[pivot].connection.address, 1);
    Entry(first, last, {Read, Write}, Undefined, Undefined, 0, 0, BusFault)
  }

  function FillHole(m: nat, map_: AddressMap, sourced: nat, address: nat, p: nat): Entry
    requires p <= |map_.addressables|
  {
    Mapped(m, HoleEntry(m, map_, p), Or(sourced, address), 0, Window(m, map_.mask, sourced), {Read, Write}, address)
  }

  /** A region's answer `t`, mapped back to the asker's address. */
  function FillRegion(m: nat, map_: AddressMap, sourced: nat, address: nat, i: nat, t: Entry): Entry
    requires i < |map_.addressables|
  {
    var a := map_.addressables[i];
    Mapped(m, t, Or(sourced, address) - a.connection.address,
           Max(a.First(), Or(sourced, 0)) - sourced,
           Min(a.Last(), Or(sourced, Window(m, map_.mask, sourced))) - sourced,
           {Read, Write}, address)
  }

  /** What the code answers for an address of this tree. */
  function Filling(m: nat, map_: AddressMap, sourced: nat, address: nat, cycles: set<Cycle>, devices: Devices): Fill
    decreases map_
  {
    var asked := Or(sourced, address);
    var pivot := Locate(map_.addressables, asked);
    if pivot < 0 then
      Success(FillHole(m, map_, sourced, address, -1 - pivot))
    else
      var a := map_.addressables[pivot];
      var inner := asked - a.connection.address;
      Lift(m, map_, sourced, address, pivot, AnswerOf(m, a.connection.other, inner, cycles, devices))
  }

  function Lift(m: nat, map_: AddressMap, sourced: nat, address: nat, i: nat, f: Fill): Fill
    requires i < |map_.addressables|
  {
    if f.Success? then Success(FillRegion(m, map_, sourced, address, i, f.entry)) else f
  }

  function AnswerOf(m: nat, other: Responder, address: nat, cycles: set<Cycle>, devices: Devices): Fill
    decreases other
  {
    match other
    case Device(id) =>
      (match devices(id, address, cycles) case Filled(t) => Success(t) case Refused(e) => Failure(e))
    case Nested(bus, s) => Filling(m, bus, s, address, cycles, devices)
  }

  ghost predicate HoleAt(m: nat, map_: AddressMap, sourced: nat, address: nat, p: nat) {
    && MapOk(m, map_, sourced) && p <= |map_.addressables|
    && address <= Window(m, map_.mask, sourced)
    && Locate(map_.addressables, Or(sourced, address)) == -1 - p
  }

  ghost predicate RegionAt(m: nat, map_: AddressMap, sourced: nat, address: nat, i: nat) {
    && MapOk(m, map_, sourced) && i < |map_.addressables|
    && address <= Window(m, map_.mask, sourced)
    && Locate(map_.addressables, Or(sourced, address)) == i
  }

  /** Two decodings went through the same regions to the same place, `shift` apart. */
  predicate SameTurns(at: Decoded, d: Decoded, shift: int) {
    && d.path == at.path
    && match at.place
       case Hole(y) => 0 <= y + shift && d.place == Hole(y + shift)
       case OnDevice(id, y) => 0 <= y + shift && d.place == OnDevice(id, y + shift)
  }

  /** `x` decodes through the same regions as `address`, to the same place. */
  predicate SameWay(map_: AddressMap, sourced: nat, address: nat, x: nat) {
    SameTurns(Decode(map_, sourced, address), Decode(map_, sourced, x), x - address)
  }

  /** At `x` the entry does what the place that `address` decodes to does there. */
  ghost predicate Does(m: nat, place: Place, address: nat, cycles: set<Cycle>, devices: Devices, t: Entry, x: nat) {
    match place
    case Hole(y) =>
      && t.handler == BusFault && t.read == t.write == Undefined && t.shift == 0
      && t.cyclesOk == {Read, Write} && WAdd(m, address, t.offset) == y
    case OnDevice(id, y) =>
      && devices(id, y, cycles).Filled?
      && 0 <= y + x - address && Agrees(m, t, x, devices(id, y, cycles).entry, y + x - address)
  }

  /** An entry for an address is faithful when every address it covers decodes
      through the same regions to the same place, where it does the same thing. */
  ghost predicate Faithful(m: nat, map_: AddressMap, sourced: nat, address: nat, cycles: set<Cycle>, devices: Devices, t: Entry) {
    forall x: nat {:trigger SameWay(map_, sourced, address, x)} :: t.first <= x <= t.last ==>
      && SameWay(map_, sourced, address, x)
      && Does(m, Decode(map_, sourced, address).place, address, cycles, devices, t, x)
  }

  /** The guard on an asked address in a hole.  The code ends the hole just below
      the next region's connection address, leaving out the offset of that region;
      an address that already lies at or above that connection address gets an
      entry as long as the askers' windows allow, so these must end before the
      region itself starts. */
  predicate HoleGuard(map_: AddressMap, asked: nat, left: int, p: nat)
    requires p <= |map_.addressables|
  {
    p < |map_.addressables| ==>
      || asked < map_.addressables[p].connection.address
      || asked + left < map_.addressables[p].First()
  }

  /** The guard taken down the tree to the bus that has the hole, if any; `room`
      is what the windows passed on the way down leave above the address. */
  predicate HoleSafe(m: nat, map_: AddressMap, sourced: nat, address: nat, room: int)
    decreases map_
  {
    var asked := Or(sourced, address);
    var left := Min(room, Window(m, map_.mask, sourced) - address);
    var pivot := Locate(map_.addressables, asked);
    if pivot < 0 then
      HoleGuard(map_, asked, left, -1 - pivot)
    else
      var a := map_.addressables[pivot];
      match a.connection.other
      case Device(_) => true
      case Nested(bus, s) => HoleSafe(m, bus, s, asked - a.connection.address, Min(left, a.Last() - asked))
  }

  // ---------------------------------------------------------------- agreement

  /** From the address up, as far as the entry and the callers' windows go. */
  ghost predicate SameWayUpTo(map_: AddressMap, sourced: nat, address: nat, last: int) {
    forall x :: address <= x <= last ==> SameWay(map_, sourced, address, x)
  }

  ghost predicate SameWayFrom(map_: AddressMap, sourced: nat, address: nat, first: int) {
    forall x: nat :: first <= x <= address ==> SameWay(map_, sourced, address, x)
  }

  /** An address that a region covers is decoded through that region. */
  lemma CoveredDecodes(m: nat, map_: AddressMap, sourced: nat, x: nat, i: nat)
    requires MapOk(m, map_, sourced) && x <= Window(m, map_.mask, sourced)
    requires i < |map_.addressables| && map_.addressables[i].Covers(sourced + x)
    ensures Or(sourced, x) == sourced + x
    ensures RegionAt(m, map_, sourced, x, i)
  {
    AskedAddress(m, map_.mask, sourced, x);
    LocatedIsLocate(map_.mask, map_.addressables, sourced + x, i);
  }

  /** An address between regions is in that hole. */
  lemma UncoveredLocates(m: nat, map_: AddressMap, sourced: nat, x: nat, p: nat)
    requires MapOk(m, map_, sourced) && x <= Window(m, map_.mask, sourced)
    requires p <= |map_.addressables|
    requires p > 0 ==> map_.addressables[p - 1].Last() < sourced + x
    requires p < |map_.addressables| ==> sourced + x < map_.addressables[p].First()
    ensures Or(sourced, x) == sourced + x
    ensures HoleAt(m, map_, sourced, x, p)
  {
    AskedAddress(m, map_.mask, sourced, x);
    GapLocates(map_.mask, map_.addressables, sourced + x, p);
  }

  lemma DecodesToHole(map_: AddressMap, sourced: nat, x: nat)
    ensures Locate(map_.addressables, Or(sourced, x)) < 0 ==> Decode(map_, sourced, x) == Decoded([], Hole(Or(sourced, x)))
    ensures Locate(map_.addressables, Or(sourced, x)) >= 0 ==> Decode(map_, sourced, x).path != []
  {
    assert Decode(map_, sourced, x) == DecodeOnBus(map_, Or(sourced, x));
  }

  lemma UncoveredDecodes(m: nat, map_: AddressMap, sourced: nat, x: nat, p: nat)
    requires MapOk(m, map_, sourced) && x <= Window(m, map_.mask, sourced)
    requires p <= |map_.addressables|
    requires p > 0 ==> map_.addressables[p - 1].Last() < sourced + x
    requires p < |map_.addressables| ==> sourced + x < map_.addressables[p].First()
    ensures Decode(map_, sourced, x) == Decoded([], Hole(sourced + x))
  {
    UncoveredLocates(m, map_, sourced, x, p);
    DecodesToHole(map_, sourced, x);
  }

  /** Mapping an entry that may end below the asked address: the distance to its
      end then wraps, and only the window bounds it. */
  lemma MappedHole(m: nat, t: Entry, sourced: nat, window: nat, address: nat)
    requires EntryWords(m, t) && t.first <= sourced + address && address <= window && sourced + window < m
    ensures var r := Mapped(m, t, sourced + address, 0, window, {Read, Write}, address);
      && r.first <= address <= r.last <= window && t.first <= sourced + r.first
      && (sourced + address <= t.last ==> sourced + r.last <= t.last)
      && (t.last < sourced + address || t.last == m - 1 ==> r.last == window)
  {
  }

  /** The unmapped entry for a hole, around the asked address. */
  lemma HoleEntryRange(m: nat, map_: AddressMap, sourced: nat, address: nat, p: nat)
    requires HoleAt(m, map_, sourced, address, p)
    ensures Or(sourced, address) == sourced + address
    ensures sourced + Window(m, map_.mask, sourced) < m
    ensures p < |map_.addressables| ==> sourced + address < map_.addressables[p].First() < m
    ensures var t := HoleEntry(m, map_, p);
      && EntryWords(m, t) && t.first <= sourced + address
      && (p > 0 ==> map_.addressables[p - 1].Last() < t.first)
  {
    hide Or, IsPow2, Locate;
    var window := Window(m, map_.mask, sourced);
    AskedAddress(m, map_.mask, sourced, address);
    AskedAddress(m, map_.mask, sourced, window);
    LocateLocates(map_.mask, map_.addressables, sourced + address);
    if p > 0 {
      assert map_.addressables[p - 1].Last() < sourced + address;
    }
    if p < |map_.addressables| {
      assert sourced + address < map_.addressables[p].First() <= map_.mask;
    }
  }

  /** What the entry for a hole covers. */
  lemma HoleRange(m: nat, map_: AddressMap, sourced: nat, address: nat, p: nat)
    requires HoleAt(m, map_, sourced, address, p)
    ensures Or(sourced, address) == sourced + address
    ensures var t := FillHole(m, map_, sourced, address, p);
      && t.handler == BusFault && t.read == t.write == Undefined && t.shift == 0
      && t.cyclesOk == {Read, Write} && WAdd(m, address, t.offset) == sourced + address
      && t.first <= address <= t.last <= Window(m, map_.mask, sourced)
      && (p > 0 ==> map_.addressables[p - 1].Last() < sourced + t.first)
      && (p < |map_.addressables| ==>
           var next := map_.addressables[p];
           && sourced + address < next.First()
           && (sourced + address < next.connection.address ==> sourced + t.last < next.connection.address)
           && (next.connection.address <= sourced + address ==> t.last == Window(m, map_.mask, sourced)))
  {
    HoleEntryRange(m, map_, sourced, address, p);
    MappedHole(m, HoleEntry(m, map_, p), sourced, Window(m, map_.mask, sourced), address);
  }

  lemma HoleSameWayFrom(m: nat, map_: AddressMap, sourced: nat, address: nat, p: nat)
    requires HoleAt(m, map_, sourced, address, p)
    ensures SameWayFrom(map_, sourced, address, FillHole(m, map_, sourced, address, p).first)
  {
    HoleRange(m, map_, sourced, address, p);
    UncoveredDecodes(m, map_, sourced, address, p);
    forall x: nat | FillHole(m, map_, sourced, address, p).first <= x <= address
      ensures SameWay(map_, sourced, address, x)
    {
      UncoveredDecodes(m, map_, sourced, x, p);
    }
  }

  lemma HoleSameWayUpToIff(m: nat, map_: AddressMap, sourced: nat, address: nat, p: nat, room: nat)
    requires HoleAt(m, map_, sourced, address, p)
    ensures SameWayUpTo(map_, sourced, address, Min(FillHole(m, map_, sourced, address, p).last, address + room))
       <==> HoleGuard(map_, sourced + address, Min(room, Window(m, map_.mask, sourced) - address), p)
  {
    var last := Min(FillHole(m, map_, sourced, address, p).last, address + room);
    HoleRange(m, map_, sourced, address, p);
    UncoveredDecodes(m, map_, sourced, address, p);
    if HoleGuard(map_, sourced + address, Min(room, Window(m, map_.mask, sourced) - address), p) {
      forall x | address <= x <= last
        ensures SameWay(map_, sourced, address, x)
      {
        UncoveredDecodes(m, map_, sourced, x, p);
      }
    } else {
      var x := map_.addressables[p].First() - sourced;
      CoveredDecodes(m, map_, sourced, x, p);
      DecodesToHole(map_, sourced, x);
      assert !SameWay(map_, sourced, address, x);
    }
  }

  /** The window of the asker on region `i`, as the code computes it. */
  lemma RegionWindow(m: nat, map_: AddressMap, sourced: nat, address: nat, i: nat, t: Entry) returns (first: nat, last: nat)
    requires RegionAt(m, map_, sourced, address, i) && EntryWords(m, t)
    ensures Or(sourced, address) == sourced + address
    ensures map_.addressables[i].connection.address <= sourced + address
    ensures first <= address <= last <= Window(m, map_.mask, sourced) && last < m
    ensures first == Max(map_.addressables[i].First() - sourced, 0)
    ensures last == Min(map_.addressables[i].Last() - sourced, Window(m, map_.mask, sourced))
    ensures FillRegion(m, map_, sourced, address, i, t)
         == Mapped(m, t, sourced + address - map_.addressables[i].connection.address, first, last, {Read, Write}, address)
  {
    AskedAddress(m, map_.mask, sourced, address);
    AskedAddress(m, map_.mask, sourced, Window(m, map_.mask, sourced));
    AskedAddress(m, map_.mask, sourced, 0);
    first := Max(map_.addressables[i].First(), sourced) - sourced;
    last := Min(map_.addressables[i].Last(), sourced + Window(m, map_.mask, sourced)) - sourced;
  }

  /** What is known of the range of a region's mapped answer `r`. */
  ghost predicate Lifted(m: nat, map_: AddressMap, sourced: nat, address: nat, i: nat, t: Entry, inner: nat, r: Entry) {
    && RegionAt(m, map_, sourced, address, i)
    && Or(sourced, address) == sourced + address == map_.addressables[i].connection.address + inner
    && EntryWords(m, r) && r.first <= address <= r.last <= Window(m, map_.mask, sourced)
    && map_.addressables[i].First() <= sourced + r.first && sourced + r.last <= map_.addressables[i].Last()
    && t.first <= r.first - address + inner && r.last - address + inner <= t.last
    && r.last - address == Min(t.last - inner, Room(m, map_, sourced, address, i))
  }

  /** What the asker's window and the region leave above the address. */
  function Room(m: nat, map_: AddressMap, sourced: nat, address: nat, i: nat): int
    requires i < |map_.addressables|
  {
    Min(map_.addressables[i].Last() - (sourced + address), Window(m, map_.mask, sourced) - address)
  }

  lemma RegionRange(m: nat, map_: AddressMap, sourced: nat, address: nat, i: nat, t: Entry, inner: nat)
    requires RegionAt(m, map_, sourced, address, i) && EntryWords(m, t)
    requires t.first <= inner <= t.last
    requires inner == Or(sourced, address) - map_.addressables[i].connection.address
    ensures Lifted(m, map_, sourced, address, i, t, inner, FillRegion(m, map_, sourced, address, i, t))
  {
    hide Or, IsPow2;
    var first, last := RegionWindow(m, map_, sourced, address, i, t);
    MappedRange(m, t, inner, first, last, address);
  }

  /** Every address a region's mapped answer covers is decoded through that region. */
  lemma RegionCovers(m: nat, map_: AddressMap, sourced: nat, address: nat, i: nat, t: Entry, inner: nat, r: Entry, x: nat)
    requires Lifted(m, map_, sourced, address, i, t, inner, r) && r.first <= x <= r.last
    ensures RegionAt(m, map_, sourced, x, i) && Or(sourced, x) == sourced + x
  {
    CoveredDecodes(m, map_, sourced, x, i);
  }

  lemma RegionAgrees(m: nat, map_: AddressMap, sourced: nat, address: nat, i: nat, t: Entry, inner: nat, x: nat, u: Entry, z: nat)
    requires RegionAt(m, map_, sourced, address, i) && EntryWords(m, t)
    requires t.first <= inner <= t.last
    requires inner == Or(sourced, address) - map_.addressables[i].connection.address
    requires FillRegion(m, map_, sourced, address, i, t).first <= x <= FillRegion(m, map_, sourced, address, i, t).last
    requires 0 <= x - address + inner && Agrees(m, t, x - address + inner, u, z)
    ensures Agrees(m, FillRegion(m, map_, sourced, address, i, t), x, u, z)
  {
    hide Or, IsPow2, RegionAt, Agrees, Mapped, Locate;
    var first, last := RegionWindow(m, map_, sourced, address, i, t);
    MappedAgrees(m, t, inner, first, last, address, x, u, z);
  }

  lemma AgreesWithItself(m: nat, t: Entry, x: nat)
    requires EntryWords(m, t) && t.first <= x <= t.last
    ensures Agrees(m, t, x, t, x)
  {
    assert t.read.At? ==> t.read.offset + x == t.read.offset + x + 0 * m;
    assert t.write.At? ==> t.write.offset + x == t.write.offset + x + 0 * m;
  }

  /** Two addresses in one region go the same way exactly when they do behind it. */
  lemma SameRegionSameTurns(map_: AddressMap, asked: nat, asked': nat, i: nat)
    requires Locate(map_.addressables, asked) == i == Locate(map_.addressables, asked')
    ensures var base := map_.addressables[i].connection.address;
      && base <= asked && base <= asked'
      && (SameTurns(DecodeOnBus(map_, asked), DecodeOnBus(map_, asked'), asked' - asked)
          <==> match map_.addressables[i].connection.other
               case Device(_) => true
               case Nested(bus, s) => SameWay(bus, s, asked - base, asked' - base))
  {
    var other := map_.addressables[i].connection.other;
    if other.Nested? {
      var base := map_.addressables[i].connection.address;
      var at := Decode(other.bus, other.sourced, asked - base);
      var d := Decode(other.bus, other.sourced, asked' - base);
      assert at.path == ([i] + at.path)[1..] && d.path == ([i] + d.path)[1..];
    }
  }

  lemma SameRegionSameWay(map_: AddressMap, sourced: nat, address: nat, x: nat, i: nat)
    requires Locate(map_.addressables, Or(sourced, address)) == i == Locate(map_.addressables, Or(sourced, x))
    requires Or(sourced, address) == sourced + address && Or(sourced, x) == sourced + x
    ensures var base := map_.addressables[i].connection.address;
      && base <= sourced + address && base <= sourced + x
      && (SameWay(map_, sourced, address, x)
          <==> match map_.addressables[i].connection.other
               case Device(_) => true
               case Nested(bus, s) => SameWay(bus, s, sourced + address - base, sourced + x - base))
  {
    hide Or;
    SameRegionSameTurns(map_, Or(sourced, address), Or(sourced, x), i);
  }

  /** What lies behind a region goes the same way as the region's answer. */
  lemma RegionSameWay(m: nat, map_: AddressMap, sourced: nat, address: nat, i: nat, t: Entry, inner: nat, r: Entry, x: nat)
    requires Lifted(m, map_, sourced, address, i, t, inner, r) && r.first <= x <= r.last
    ensures 0 <= x - address + inner
    ensures SameWay(map_, sourced, address, x)
       <==> match map_.addressables[i].connection.other
            case Device(_) => true
            case Nested(bus, s) => SameWay(bus, s, inner, x - address + inner)
  {
    RegionCovers(m, map_, sourced, address, i, t, inner, r, x);
    SameRegionSameWay(map_, sourced, address, x, i);
  }

  lemma NestedSameWayFrom(m: nat, map_: AddressMap, sourced: nat, address: nat, i: nat, t: Entry, inner: nat, r: Entry, bus: AddressMap, s: nat)
    requires Lifted(m, map_, sourced, address, i, t, inner, r) && map_.addressables[i].connection.other == Nested(bus, s)
    requires SameWayFrom(bus, s, inner, t.first)
    ensures SameWayFrom(map_, sourced, address, r.first)
  {
    forall x: nat | r.first <= x <= address
      ensures SameWay(map_, sourced, address, x)
    {
      RegionSameWay(m, map_, sourced, address, i, t, inner, r, x);
    }
  }

  /** Two runs of addresses that go the same way in step. */
  lemma InStep(map_: AddressMap, sourced: nat, address: nat, last: int, bus: AddressMap, s: nat, inner: nat, innerLast: int)
    requires last - address == innerLast - inner
    requires forall x {:trigger SameWay(map_, sourced, address, x)} :: address <= x <= last ==>
               (SameWay(map_, sourced, address, x) <==> SameWay(bus, s, inner, x - address + inner))
    ensures SameWayUpTo(map_, sourced, address, last) <==> SameWayUpTo(bus, s, inner, innerLast)
  {
    if SameWayUpTo(map_, sourced, address, last) {
      forall y | inner <= y <= innerLast
        ensures SameWay(bus, s, inner, y)
      {
        assert SameWay(map_, sourced, address, y - inner + address);
      }
    }
  }

  lemma NestedSameWayUpToIff(m: nat, map_: AddressMap, sourced: nat, address: nat, i: nat, t: Entry, inner: nat, r: Entry, bus: AddressMap, s: nat, room: nat)
    requires Lifted(m, map_, sourced, address, i, t, inner, r) && map_.addressables[i].connection.other == Nested(bus, s)
    ensures SameWayUpTo(map_, sourced, address, Min(r.last, address + room))
       <==> SameWayUpTo(bus, s, inner, Min(t.last, inner + Min(room, Room(m, map_, sourced, address, i))))
  {
    var last := Min(r.last, address + room);
    forall x | address <= x <= last
      ensures SameWay(map_, sourced, address, x) <==> SameWay(bus, s, inner, x - address + inner)
    {
      RegionSameWay(m, map_, sourced, address, i, t, inner, r, x);
    }
    InStep(map_, sourced, address, last, bus, s, inner, Min(t.last, inner + Min(room, Room(m, map_, sourced, address, i))));
  }

  // ---------------------------------------------------------------- the main results

  /** The entry covers the address and stays in the asker's window; below the
      address it always goes the same way, and above it exactly as far as the
      hole guard allows. */
  ghost predicate Routed(m: nat, map_: AddressMap, sourced: nat, address: nat, t: Entry, room: nat) {
    && EntryWords(m, t)
    && t.first <= address <= t.last <= Window(m, map_.mask, sourced)
    && SameWayFrom(map_, sourced, address, t.first)
    && (SameWayUpTo(map_, sourced, address, Min(t.last, address + room)) <==> HoleSafe(m, map_, sourced, address, room))
  }

  lemma HoleRouted(m: nat, map_: AddressMap, sourced: nat, address: nat, p: nat, room: nat)
    requires HoleAt(m, map_, sourced, address, p)
    ensures Routed(m, map_, sourced, address, FillHole(m, map_, sourced, address, p), room)
  {
    HoleRange(m, map_, sourced, address, p);
    HoleSameWayFrom(m, map_, sourced, address, p);
    HoleSameWayUpToIff(m, map_, sourced, address, p, room);
  }

  lemma DeviceRouted(m: nat, map_: AddressMap, sourced: nat, address: nat, i: nat, t: Entry, inner: nat, r: Entry, room: nat)
    requires Lifted(m, map_, sourced, address, i, t, inner, r) && map_.addressables[i].connection.other.Device?
    ensures Routed(m, map_, sourced, address, r, room)
  {
    forall x: nat | r.first <= x <= r.last
      ensures SameWay(map_, sourced, address, x)
    {
      RegionSameWay(m, map_, sourced, address, i, t, inner, r, x);
    }
  }

  lemma HoleSafeThrough(m: nat, map_: AddressMap, sourced: nat, address: nat, i: nat, bus: AddressMap, s: nat, room: nat, inner: nat)
    requires RegionAt(m, map_, sourced, address, i) && map_.addressables[i].connection.other == Nested(bus, s)
    requires Or(sourced, address) == sourced + address == map_.addressables[i].connection.address + inner
    ensures HoleSafe(m, map_, sourced, address, room) <==> HoleSafe(m, bus, s, inner, Min(room, Room(m, map_, sourced, address, i)))
  {
    var left := Min(Min(room, Window(m, map_.mask, sourced) - address), map_.addressables[i].Last() - (sourced + address));
    assert left == Min(room, Room(m, map_, sourced, address, i));
  }

  lemma NestedRouted(m: nat, map_: AddressMap, sourced: nat, address: nat, i: nat, t: Entry, inner: nat, r: Entry, bus: AddressMap, s: nat, room: nat, left: nat)
    requires Lifted(m, map_, sourced, address, i, t, inner, r) && map_.addressables[i].connection.other == Nested(bus, s)
    requires left == Min(room, Room(m, map_, sourced, address, i))
    requires Routed(m, bus, s, inner, t, left)
    ensures Routed(m, map_, sourced, address, r, room)
  {
    NestedSameWayFrom(m, map_, sourced, address, i, t, inner, r, bus, s);
    NestedSameWayUpToIff(m, map_, sourced, address, i, t, inner, r, bus, s, room);
    HoleSafeThrough(m, map_, sourced, address, i, bus, s, room, inner);
  }

  ghost predicate FillRouted(m: nat, map_: AddressMap, sourced: nat, address: nat, f: Fill, room: nat) {
    f.Success? ==> Routed(m, map_, sourced, address, f.entry, room)
  }

  lemma RegionFillRouted(m: nat, map_: AddressMap, sourced: nat, address: nat, i: nat, t: Entry, inner: nat, room: nat, left: nat)
    requires RegionAt(m, map_, sourced, address, i) && EntryWords(m, t)
    requires t.first <= inner <= t.last
    requires inner == Or(sourced, address) - map_.addressables[i].connection.address
    requires left == Min(room, Room(m, map_, sourced, address, i))
    requires map_.addressables[i].connection.other.Nested? ==>
      Routed(m, map_.addressables[i].connection.other.bus, map_.addressables[i].connection.other.sourced, inner, t, left)
    ensures Routed(m, map_, sourced, address, FillRegion(m, map_, sourced, address, i, t), room)
  {
    var r := FillRegion(m, map_, sourced, address, i, t);
    RegionRange(m, map_, sourced, address, i, t, inner);
    match map_.addressables[i].connection.other
    case Device(_) => DeviceRouted(m, map_, sourced, address, i, t, inner, r, room);
    case Nested(bus, s) => NestedRouted(m, map_, sourced, address, i, t, inner, r, bus, s, room, left);
  }

  lemma RegionLift(m: nat, map_: AddressMap, sourced: nat, address: nat, i: nat, inner: nat, room: nat, left: nat, f: Fill, g: Fill)
    requires RegionAt(m, map_, sourced, address, i)
    requires inner == Or(sourced, address) - map_.addressables[i].connection.address
    requires left == Min(room, Room(m, map_, sourced, address, i))
    requires f.Success? ==> EntryWords(m, f.entry) && f.entry.first <= inner <= f.entry.last
    requires map_.addressables[i].connection.other.Nested? ==>
      FillRouted(m, map_.addressables[i].connection.other.bus, map_.addressables[i].connection.other.sourced, inner, f, left)
    requires g == Lift(m, map_, sourced, address, i, f)
    ensures FillRouted(m, map_, sourced, address, g, room)
  {
    if f.Success? {
      RegionFillRouted(m, map_, sourced, address, i, f.entry, inner, room, left);
    }
  }

  /** What is asked through a region may be asked. */
  lemma InnerAskable(m: nat, map_: AddressMap, sourced: nat, address: nat)
    requires Askable(m, map_, sourced, address)
    requires Locate(map_.addressables, Or(sourced, address)) >= 0
    ensures var i := Locate(map_.addressables, Or(sourced, address));
      var a := map_.addressables[i];
      && RegionAt(m, map_, sourced, address, i)
      && Or(sourced, address) == sourced + address <= a.Last()
      && (a.connection.other.Nested? ==>
            Askable(m, a.connection.other.bus, a.connection.other.sourced, sourced + address - a.connection.address))
  {
    AskedAddress(m, map_.mask, sourced, address);
  }

  lemma {:induction false} FillingRouted(m: nat, map_: AddressMap, sourced: nat, address: nat, cycles: set<Cycle>, devices: Devices, room: nat)
    requires Askable(m, map_, sourced, address) && DevicesOk(m, devices)
    ensures FillRouted(m, map_, sourced, address, Filling(m, map_, sourced, address, cycles, devices), room)
    decreases map_, 1
  {
    hide Or, IsPow2, Locate;
    var pivot := Locate(map_.addressables, Or(sourced, address));
    if pivot < 0 {
      HoleRouted(m, map_, sourced, address, -1 - pivot, room);
    } else {
      InnerAskable(m, map_, sourced, address);
      var a := map_.addressables[pivot];
      var inner := sourced + address - a.connection.address;
      var left := Min(room, Room(m, map_, sourced, address, pivot));
      var f := AnswerOf(m, a.connection.other, inner, cycles, devices);
      AnswerRouted(m, a.connection.other, inner, cycles, devices, left);
      RegionLift(m, map_, sourced, address, pivot, inner, room, left, f, Filling(m, map_, sourced, address, cycles, devices));
    }
  }

  lemma {:induction false} AnswerRouted(m: nat, other: Responder, address: nat, cycles: set<Cycle>, devices: Devices, room: nat)
    requires DevicesOk(m, devices)
    requires other.Nested? ==> Askable(m, other.bus, other.sourced, address)
    ensures var f := AnswerOf(m, other, address, cycles, devices);
      && (f.Success? ==> EntryWords(m, f.entry) && f.entry.first <= address <= f.entry.last)
      && (other.Nested? ==> FillRouted(m, other.bus, other.sourced, address, f, room))
    decreases other, 0
  {
    if other.Nested? {
      FillingRouted(m, other.bus, other.sourced, address, cycles, devices, room);
    }
  }

  /** At every address it covers, the entry does what `place` does there. */
  ghost predicate Behaves(m: nat, place: Place, address: nat, cycles: set<Cycle>, devices: Devices, t: Entry) {
    forall x: nat :: t.first <= x <= t.last ==> Does(m, place, address, cycles, devices, t, x)
  }

  /** The answer for a place is an entry that behaves like it, or its refusal. */
  ghost predicate Served(m: nat, place: Place, address: nat, cycles: set<Cycle>, devices: Devices, f: Fill) {
    && (f.Success? ==> Behaves(m, place, address, cycles, devices, f.entry))
    && (f.Failure? <==> place.OnDevice? && devices(place.device, place.address, cycles).Refused?)
    && (f.Failure? ==> devices(place.device, place.address, cycles) == Refused(f.error))
  }

  /** Where an address of a responder ends. */
  function PlaceOf(other: Responder, address: nat): Place {
    match other
    case Device(id) => OnDevice(id, address)
    case Nested(bus, s) => Decode(bus, s, address).place
  }

  lemma HoleServed(m: nat, map_: AddressMap, sourced: nat, address: nat, p: nat, cycles: set<Cycle>, devices: Devices)
    requires HoleAt(m, map_, sourced, address, p)
    ensures Served(m, Hole(Or(sourced, address)), address, cycles, devices, Success(FillHole(m, map_, sourced, address, p)))
  {
    HoleRange(m, map_, sourced, address, p);
    hide FillHole, Or, Window;
  }

  lemma {:induction false} FillingServed(m: nat, map_: AddressMap, sourced: nat, address: nat, cycles: set<Cycle>, devices: Devices)
    requires Askable(m, map_, sourced, address) && DevicesOk(m, devices)
    ensures Served(m, Decode(map_, sourced, address).place, address, cycles, devices, Filling(m, map_, sourced, address, cycles, devices))
    decreases map_, 1
  {
    hide Or, IsPow2, Locate, Served, FillHole;
    var pivot := Locate(map_.addressables, Or(sourced, address));
    DecodesToHole(map_, sourced, address);
    if pivot < 0 {
      HoleServed(m, map_, sourced, address, -1 - pivot, cycles, devices);
    } else {
      InnerAskable(m, map_, sourced, address);
      var a := map_.addressables[pivot];
      var inner := sourced + address - a.connection.address;
      AnswerRouted(m, a.connection.other, inner, cycles, devices, 0);
      AnswerServed(m, a.connection.other, inner, cycles, devices);
      assert Decode(map_, sourced, address) == DecodeOnBus(map_, Or(sourced, address));
      RegionServed(m, map_, sourced, address, pivot, inner, PlaceOf(a.connection.other, inner), cycles, devices,
                   AnswerOf(m, a.connection.other, inner, cycles, devices), Filling(m, map_, sourced, address, cycles, devices));
    }
  }

  lemma {:induction false} AnswerServed(m: nat, other: Responder, address: nat, cycles: set<Cycle>, devices: Devices)
    requires DevicesOk(m, devices)
    requires other.Nested? ==> Askable(m, other.bus, other.sourced, address)
    ensures Served(m, PlaceOf(other, address), address, cycles, devices, AnswerOf(m, other, address, cycles, devices))
    decreases other, 0
  {
    match other
    case Nested(bus, s) =>
      FillingServed(m, bus, s, address, cycles, devices);
    case Device(id) =>
      var f := AnswerOf(m, other, address, cycles, devices);
      if f.Success? {
        forall y: nat | f.entry.first <= y <= f.entry.last
          ensures Does(m, PlaceOf(other, address), address, cycles, devices, f.entry, y)
        {
          AgreesWithItself(m, f.entry, y);
        }
      }
  }

  lemma RegionBehaves(m: nat, map_: AddressMap, sourced: nat, address: nat, i: nat, t: Entry, inner: nat, place: Place, cycles: set<Cycle>, devices: Devices, x: nat)
    requires RegionAt(m, map_, sourced, address, i) && EntryWords(m, t)
    requires t.first <= inner <= t.last
    requires inner == Or(sourced, address) - map_.addressables[i].connection.address
    requires FillRegion(m, map_, sourced, address, i, t).first <= x <= FillRegion(m, map_, sourced, address, i, t).last
    requires Behaves(m, place, inner, cycles, devices, t)
    ensures Does(m, place, address, cycles, devices, FillRegion(m, map_, sourced, address, i, t), x)
  {
    hide Or, IsPow2, Locate, Window;
    RegionRange(m, map_, sourced, address, i, t, inner);
    assert Does(m, place, inner, cycles, devices, t, x - address + inner);
    if place.OnDevice? {
      RegionAgrees(m, map_, sourced, address, i, t, inner, x, devices(place.device, place.address, cycles).entry, place.address + x - address);
    }
  }

  lemma RegionServed(m: nat, map_: AddressMap, sourced: nat, address: nat, i: nat, inner: nat, place: Place, cycles: set<Cycle>, devices: Devices, f: Fill, g: Fill)
    requires RegionAt(m, map_, sourced, address, i)
    requires inner == Or(sourced, address) - map_.addressables[i].connection.address
    requires f.Success? ==> EntryWords(m, f.entry) && f.entry.first <= inner <= f.entry.last
    requires Served(m, place, inner, cycles, devices, f)
    requires g == Lift(m, map_, sourced, address, i, f)
    ensures Served(m, place, address, cycles, devices, g)
  {
    if f.Success? {
      forall x: nat | g.entry.first <= x <= g.entry.last
        ensures Does(m, place, address, cycles, devices, g.entry, x)
      {
        RegionBehaves(m, map_, sourced, address, i, f.entry, inner, place, cycles, devices, x);
      }
    }
  }

  /** For any finite tree of buses over correct devices and any address that
      may be asked, the fill fails exactly when the device decoded to refuses, and
      an entry it returns covers the address.  The entry is faithful (every address
      it covers decodes step by step to the same place, where it does the same
      thing) if and only if the hole guard holds. */
  lemma FillFaithfulIff(m: nat, map_: AddressMap, sourced: nat, address: nat, cycles: set<Cycle>, devices: Devices)
    requires Askable(m, map_, sourced, address) && DevicesOk(m, devices)
    ensures var f, place := Filling(m, map_, sourced, address, cycles, devices), Decode(map_, sourced, address).place;
      && (f.Failure? <==> place.OnDevice? && devices(place.device, place.address, cycles).Refused?)
      && (f.Success? ==>
            && f.entry.first <= address <= f.entry.last
            && (Faithful(m, map_, sourced, address, cycles, devices, f.entry) <==> HoleSafe(m, map_, sourced, address, m)))
  {
    FillingRouted(m, map_, sourced, address, cycles, devices, m);
    FillingServed(m, map_, sourced, address, cycles, devices);
    var f := Filling(m, map_, sourced, address, cycles, devices);
    if f.Success? {
      FaithfulIffRouted(m, map_, sourced, address, cycles, devices, f.entry);
    }
  }

  lemma FaithfulIffRouted(m: nat, map_: AddressMap, sourced: nat, address: nat, cycles: set<Cycle>, devices: Devices, t: Entry)
    requires Routed(m, map_, sourced, address, t, m)
    requires Behaves(m, Decode(map_, sourced, address).place, address, cycles, devices, t)
    ensures Faithful(m, map_, sourced, address, cycles, devices, t) <==> HoleSafe(m, map_, sourced, address, m)
  {
    if Faithful(m, map_, sourced, address, cycles, devices, t) {
      assert SameWayUpTo(map_, sourced, address, Min(t.last, address + m));
    }
    if HoleSafe(m, map_, sourced, address, m) {
      forall x: nat | t.first <= x <= t.last
        ensures SameWay(map_, sourced, address, x)
      {
      }
    }
  }

  // ---------------------------------------------------------------- how far an entry reaches

  /** A mapped entry reaches as far as both ranges do. */
  lemma MappedCoversIff(m: nat, t: Entry, addr0: nat, first1: nat, last1: nat, addr1: nat, x: nat)
    requires EntryWords(m, t)
    requires t.first <= addr0 <= t.last
    requires first1 <= addr1 <= last1 < m
    ensures var r := Mapped(m, t, addr0, first1, last1, {Read, Write}, addr1);
      r.first <= x <= r.last <==> first1 <= x <= last1 && t.first <= x - addr1 + addr0 <= t.last
  {
  }

  /** Two addresses of a hole that one entry covers: nothing lies between them, and none of
      them is past the connection address of the next region, or the end of the bus, unless
      the one asked about already is. */
  predicate InHole(map_: AddressMap, asked: nat, at: int, p: nat)
    requires p <= |map_.addressables|
  {
    && (p > 0 ==> map_.addressables[p - 1].Last() < at)
    && (if p == |map_.addressables| then asked <= map_.mask ==> at <= map_.mask
        else
          var next := map_.addressables[p].connection.address;
          asked < next ==> at < next)
  }

  /** The entry for one address is to cover another: on each bus on the way down both lie in
      the asker's window and in the same region, or hole, and the device's own entry covers
      them both. */
  ghost predicate Reaches(m: nat, map_: AddressMap, sourced: nat, address: nat, cycles: set<Cycle>, devices: Devices, x: nat)
    decreases map_
  {
    && x <= Window(m, map_.mask, sourced)
    && var asked, at := Or(sourced, address), sourced + x;
       var pivot := Locate(map_.addressables, asked);
       if pivot < 0 then InHole(map_, asked, at, -1 - pivot)
       else
         var a := map_.addressables[pivot];
         a.Covers(at) && match a.connection.other
           case Device(id) =>
             var reply := devices(id, asked - a.connection.address, cycles);
             reply.Filled? && reply.entry.first <= at - a.connection.address <= reply.entry.last
           case Nested(bus, s) =>
             Reaches(m, bus, s, asked - a.connection.address, cycles, devices, at - a.connection.address)
  }

  lemma HoleReaches(m: nat, map_: AddressMap, sourced: nat, address: nat, p: nat, x: nat)
    requires HoleAt(m, map_, sourced, address, p)
    ensures var t := FillHole(m, map_, sourced, address, p);
      t.first <= x <= t.last <==>
        x <= Window(m, map_.mask, sourced) && InHole(map_, Or(sourced, address), sourced + x, p)
  {
    hide Or, IsPow2, Locate, Window;
    HoleEntryRange(m, map_, sourced, address, p);
  }

  lemma RegionReaches(m: nat, map_: AddressMap, sourced: nat, address: nat, i: nat, t: Entry, inner: nat, x: nat)
    requires RegionAt(m, map_, sourced, address, i) && EntryWords(m, t)
    requires t.first <= inner <= t.last
    requires inner == Or(sourced, address) - map_.addressables[i].connection.address
    ensures var r := FillRegion(m, map_, sourced, address, i, t);
      r.first <= x <= r.last <==>
        && x <= Window(m, map_.mask, sourced) && map_.addressables[i].Covers(sourced + x)
        && t.first <= sourced + x - map_.addressables[i].connection.address <= t.last
  {
    hide Or, IsPow2, Locate, Window, Mapped;
    var first, last := RegionWindow(m, map_, sourced, address, i, t);
    MappedCoversIff(m, t, inner, first, last, address, x);
  }

  /** An entry covers just the addresses it is to reach: none is left out, so what is said
      of a faithful entry is said of them all. */
  lemma {:induction false} FillCoversIff(m: nat, map_: AddressMap, sourced: nat, address: nat, cycles: set<Cycle>, devices: Devices, x: nat)
    requires Askable(m, map_, sourced, address) && DevicesOk(m, devices)
    requires Filling(m, map_, sourced, address, cycles, devices).Success?
    ensures var t := Filling(m, map_, sourced, address, cycles, devices).entry;
      t.first <= x <= t.last <==> Reaches(m, map_, sourced, address, cycles, devices, x)
    decreases map_
  {
    hide Or, IsPow2, Locate, Window, FillRegion, FillHole;
    var pivot := Locate(map_.addressables, Or(sourced, address));
    if pivot < 0 {
      HoleReaches(m, map_, sourced, address, -1 - pivot, x);
    } else {
      InnerAskable(m, map_, sourced, address);
      var a := map_.addressables[pivot];
      var inner := sourced + address - a.connection.address;
      AnswerRouted(m, a.connection.other, inner, cycles, devices, 0);
      RegionReaches(m, map_, sourced, address, pivot, AnswerOf(m, a.connection.other, inner, cycles, devices).entry, inner, x);
      if a.Covers(sourced + x) && a.connection.other.Nested? {
        FillCoversIff(m, a.connection.other.bus, a.connection.other.sourced, inner, cycles, devices, sourced + x - a.connection.address);
      }
    }
  }

  /** A fast pointer in an entry is for cycles that the entry allows, and it allows reads and
      writes at most. */
  lemma FillAllows(m: nat, map_: AddressMap, sourced: nat, address: nat, cycles: set<Cycle>, devices: Devices)
    requires Filling(m, map_, sourced, address, cycles, devices).Success?
    ensures var t := Filling(m, map_, sourced, address, cycles, devices).entry;
      && (t.read.At? ==> Read in t.cyclesOk) && (t.write.At? ==> Write in t.cyclesOk)
      && t.cyclesOk <= {Read, Write}
  {
    hide Or, Locate, Window;
    var pivot := Locate(map_.addressables, Or(sourced, address));
    if pivot >= 0 {
      var a := map_.addressables[pivot];
      var f := AnswerOf(m, a.connection.other, Or(sourced, address) - a.connection.address, cycles, devices);
      assert Filling(m, map_, sourced, address, cycles, devices) == Lift(m, map_, sourced, address, pivot, f);
    }
  }

  /** Every region on every bus of the tree starts at its connection's own address. */
  ghost predicate ZeroOffsets(map_: AddressMap) {
    forall i {:trigger map_.addressables[i]} :: 0 <= i < |map_.addressables| ==>
      && map_.addressables[i].subregion.first == 0
      && (map_.addressables[i].connection.other.Nested? ==> ZeroOffsets(map_.addressables[i].connection.other.bus))
  }

  /** With no region offsets the hole guard always holds, so every entry is faithful. */
  lemma {:induction false} ZeroOffsetsAreSafe(m: nat, map_: AddressMap, sourced: nat, address: nat, room: int)
    requires Askable(m, map_, sourced, address) && ZeroOffsets(map_)
    ensures HoleSafe(m, map_, sourced, address, room)
    decreases map_
  {
    var pivot := Locate(map_.addressables, Or(sourced, address));
    LocateLocates(map_.mask, map_.addressables, Or(sourced, address));
    if pivot < 0 {
      if -1 - pivot < |map_.addressables| {
        assert Or(sourced, address) < map_.addressables[-1 - pivot].First();
      }
    } else {
      InnerAskable(m, map_, sourced, address);
      var a := map_.addressables[pivot];
      if a.connection.other.Nested? {
        var left := Min(room, Window(m, map_.mask, sourced) - address);
        ZeroOffsetsAreSafe(m, a.connection.other.bus, a.connection.other.sourced, sourced + address - a.connection.address,
                           Min(left, a.Last() - Or(sourced, address)));
      }
    }
  }

  /** The guard is needed: below a region that starts four above its connection's
      address, the entry for a hole runs over the region and past it. */
  lemma HoleEntryCanRunOver(devices: Devices)
    requires DevicesOk(16, devices)
    ensures var bus := AddressMap(15, [Addressable(Connection(true, false, 4, [Subregion(4, 7)], Device(0)), Subregion(4, 7))]);
      && Askable(16, bus, 0, 5)
      && Filling(16, bus, 0, 5, {}, devices) == Success(Entry(0, 15, {Read, Write}, Undefined, Undefined, 5 - 5, 0, BusFault))
      && Decode(bus, 0, 8) == Decoded([0], OnDevice(0, 4))
  {
    var bus := AddressMap(15, [Addressable(Connection(true, false, 4, [Subregion(4, 7)], Device(0)), Subregion(4, 7))]);
    assert bus.addressables[0].First() == 8;
    assert Window(16, 15, 0) == 15;
    assert Or(0, 5) == 5 && Locate(bus.addressables, 5) == -1;
    assert Or(0, 8) == 8 && Locate(bus.addressables, 8) == 0;
    assert Decode(bus, 0, 8) == DecodeOnBus(bus, 8);
  }

  // ---------------------------------------------------------------- fast pointers, exactly

  /** How many buses on the way to where an address ends are asked through a
      connection that gives the address a higher value there than it has here, so
      that mapping the answer back lowers it. */
  function Lowerings(map_: AddressMap, sourced: nat, address: nat): nat
    decreases map_
  {
    var asked := Or(sourced, address);
    var pivot := Locate(map_.addressables, asked);
    if pivot < 0 then 0
    else
      var a := map_.addressables[pivot];
      var inner := asked - a.connection.address;
      (if address < inner then 1 else 0) + LoweringsBehind(a.connection.other, inner)
  }

  function LoweringsBehind(other: Responder, address: nat): nat
    decreases other
  {
    match other
    case Device(_) => 0
    case Nested(bus, s) => Lowerings(bus, s, address)
  }

  /** A pointer filled for `address` reaches byte for byte what the device's own
      reached for `inner`, but for `lowered` times the width of an address. */
  predicate PointerFrom(m: nat, p: FastPointer, address: nat, q: FastPointer, inner: nat, lowered: nat) {
    p.At? ==> q.At? && p.offset + address == q.offset + inner - lowered * m
  }

  ghost predicate PointersFrom(m: nat, place: Place, address: nat, cycles: set<Cycle>, devices: Devices, f: Fill, lowered: nat) {
    f.Success? ==>
      match place
      case Hole(_) => f.entry.read == f.entry.write == Undefined
      case OnDevice(id, y) =>
        && devices(id, y, cycles).Filled?
        && var u := devices(id, y, cycles).entry;
           && PointerFrom(m, f.entry.read, address, u.read, y, lowered)
           && PointerFrom(m, f.entry.write, address, u.write, y, lowered)
  }

  lemma ShiftedFrom(m: nat, p: FastPointer, allowed: bool, addr0: nat, addr1: nat, q: FastPointer, y: nat, lowered: nat)
    requires PointerFrom(m, p, addr0, q, y, lowered)
    ensures PointerFrom(m, Shifted(p, allowed, WSub(m, addr1, addr0)), addr1, q, y,
                        (if addr1 < addr0 then 1 else 0) + lowered)
  {
    assert (1 + lowered) * m == m + lowered * m;
  }

  /** Each bus on the way adds the width of an address or nothing. */
  lemma {:induction false} FillingPointers(m: nat, map_: AddressMap, sourced: nat, address: nat, cycles: set<Cycle>, devices: Devices)
    ensures PointersFrom(m, Decode(map_, sourced, address).place, address, cycles, devices,
                         Filling(m, map_, sourced, address, cycles, devices), Lowerings(map_, sourced, address))
    decreases map_, 1
  {
    hide Or, Locate;
    var asked := Or(sourced, address);
    var pivot := Locate(map_.addressables, asked);
    DecodesToHole(map_, sourced, address);
    assert Decode(map_, sourced, address) == DecodeOnBus(map_, asked);
    if pivot >= 0 {
      var a := map_.addressables[pivot];
      var inner := asked - a.connection.address;
      AnswerPointers(m, a.connection.other, inner, cycles, devices);
      var f := AnswerOf(m, a.connection.other, inner, cycles, devices);
      var place := PlaceOf(a.connection.other, inner);
      if f.Success? && place.OnDevice? {
        var u := devices(place.device, place.address, cycles).entry;
        var lowered := LoweringsBehind(a.connection.other, inner);
        var cyclesOk := f.entry.cyclesOk * {Read, Write};
        ShiftedFrom(m, f.entry.read, Read in cyclesOk, inner, address, u.read, place.address, lowered);
        ShiftedFrom(m, f.entry.write, Write in cyclesOk, inner, address, u.write, place.address, lowered);
      }
    }
  }

  lemma {:induction false} AnswerPointers(m: nat, other: Responder, address: nat, cycles: set<Cycle>, devices: Devices)
    ensures PointersFrom(m, PlaceOf(other, address), address, cycles, devices,
                         AnswerOf(m, other, address, cycles, devices), LoweringsBehind(other, address))
    decreases other, 0
  {
    match other
    case Device(id) =>
    case Nested(bus, s) => FillingPointers(m, bus, s, address, cycles, devices);
  }

  /** The fast pointer of an entry for reads, or for writes. */
  function PointerOf(t: Entry, c: Cycle): FastPointer {
    if c.Write? then t.write else t.read
  }

  /** At `x` one pointer reaches the very byte the other reaches `shift` further on. */
  predicate VeryByte(p: FastPointer, q: FastPointer, shift: int, x: nat) {
    p.At? && q.At? && p.offset + x == q.offset + (x + shift)
  }

  ghost predicate Exactly(p: FastPointer, q: FastPointer, shift: int) {
    forall x: nat :: VeryByte(p, q, shift, x)
  }

  /** A fast pointer of a filled entry reaches the very bytes that the device's own
      reaches iff no bus on the way lowers the address. */
  lemma FillPointersExactIff(m: nat, map_: AddressMap, sourced: nat, address: nat, cycles: set<Cycle>, devices: Devices, c: Cycle)
    requires m > 0
    requires var f := Filling(m, map_, sourced, address, cycles, devices); f.Success? && PointerOf(f.entry, c).At?
    ensures var place := Decode(map_, sourced, address).place;
      && place.OnDevice? && devices(place.device, place.address, cycles).Filled?
      && var p := PointerOf(Filling(m, map_, sourced, address, cycles, devices).entry, c);
         var q := PointerOf(devices(place.device, place.address, cycles).entry, c);
         Exactly(p, q, place.address - address) <==> Lowerings(map_, sourced, address) == 0
  {
    FillingPointers(m, map_, sourced, address, cycles, devices);
    var place := Decode(map_, sourced, address).place;
    var p := PointerOf(Filling(m, map_, sourced, address, cycles, devices).entry, c);
    var q := PointerOf(devices(place.device, place.address, cycles).entry, c);
    var n := Lowerings(map_, sourced, address);
    MultipleBounds(n, m);
    if n > 0 {
      assert !VeryByte(p, q, place.address - address, 0);
    }
  }

  // ---------------------------------------------------------------- the entry in place

  datatype Outcome = Done | Errno(error: nat)

  class Tlb {
    var first: int
    var last: int
    var cyclesOk: set<Cycle>
    var read: FastPointer
    var write: FastPointer
    var offset: int
    var shift: int
    var handler: Handler

    ghost function Value(): Entry
      reads this
    {
      Entry(first, last, cyclesOk, read, write, offset, shift, handler)
    }

    /** No address, no cycle, no pointer. */
    constructor (m: nat)
      ensures Value() == Entry(m - 1, 0, {}, Undefined, Undefined, 0, 0, BusFault)
    {
      first, last, cyclesOk := m - 1, 0, {};
      read, write, offset, shift, handler := Undefined, Undefined, 0, 0, BusFault;
    }

    method Initialize(m: nat)
      modifies this
      ensures Value() == Entry(m - 1, 0, {}, Undefined, Undefined, 0, 0, BusFault)
    {
      first, last, cyclesOk := m - 1, 0, {};
      read, write, offset, shift, handler := Undefined, Undefined, 0, 0, BusFault;
    }

    method Store(t: Entry)
      modifies this
      ensures Value() == t
    {
      first, last, cyclesOk := t.first, t.last, t.cyclesOk;
      read, write, offset, shift, handler := t.read, t.write, t.offset, t.shift, t.handler;
    }

    method Map(m: nat, addr0: int, first1: int, last1: int, cycles1: set<Cycle>, addr1: int)
      modifies this
      ensures Value() == Mapped(m, old(Value()), addr0, first1, last1, cycles1, addr1)
    {
      var addrOffset := WSub(m, addr1, addr0);
      var extraBefore0, extraAfter0 := WSub(m, addr0, first), WSub(m, last, addr0);
      var extraBefore1, extraAfter1 := WSub(m, addr1, first1), WSub(m, last1, addr1);
      first := WSub(m, addr1, Min(extraBefore0, extraBefore1));
      last := WAdd(m, addr1, Min(extraAfter0, extraAfter1));
      cyclesOk := cyclesOk * cycles1;
      if Read !in cyclesOk {
        read := Undefined;
      } else if read != Undefined {
        read := At(read.offset - addrOffset);
      }
      if Write !in cyclesOk {
        write := Undefined;
      } else if write != Undefined {
        write := At(write.offset - addrOffset);
      }
      offset := WSub(m, offset, addrOffset);
    }
  }

  method TlbFillHole(m: nat, map_: AddressMap, sourced: nat, tlb: Tlb, address: nat, p: nat)
    requires p <= |map_.addressables|
    modifies tlb
    ensures tlb.Value() == FillHole(m, map_, sourced, address, p)
  {
    tlb.Initialize(m);
    tlb.first := if p == 0 then 0 else map_.addressables[p - 1].Last() + 1;
    tlb.last := if p == |map_.addressables| then map_.mask
                else WSub(m, map_.addressables[p].connection.address, 1);
    tlb.cyclesOk := {Read, Write};
    tlb.Map(m, Or(sourced, address), 0, Window(m, map_.mask, sourced), {Read, Write}, address);
  }

  /** Fill an entry in place, down the tree of buses. */
  method TlbFill(m: nat, map_: AddressMap, sourced: nat, tlb: Tlb, address: nat, cycles: set<Cycle>, devices: Devices) returns (rc: Outcome)
    requires Askable(m, map_, sourced, address)
    modifies tlb
    ensures var f := Filling(m, map_, sourced, address, cycles, devices);
      if f.Success? then rc == Done && tlb.Value() == f.entry else rc == Errno(f.error)
    decreases map_
  {
    hide Or, IsPow2, Mapped;
    tlb.handler := BusFault;
    var asked := Or(sourced, address);
    var pivot := AddressSearch(map_.mask, map_.addressables, asked);
    if pivot < 0 {
      TlbFillHole(m, map_, sourced, tlb, address, -1 - pivot);
      return Done;
    }
    InnerAskable(m, map_, sourced, address);
    var a := map_.addressables[pivot];
    rc := Ask(m, a.connection.other, tlb, asked - a.connection.address, cycles, devices);
    if rc == Done {
      MapRegion(m, map_, sourced, tlb, address, pivot);
    }
  }

  method MapRegion(m: nat, map_: AddressMap, sourced: nat, tlb: Tlb, address: nat, i: nat)
    requires i < |map_.addressables|
    modifies tlb
    ensures tlb.Value() == FillRegion(m, map_, sourced, address, i, old(tlb.Value()))
  {
    var a := map_.addressables[i];
    tlb.Map(m, Or(sourced, address) - a.connection.address,
            Max(a.First(), Or(sourced, 0)) - sourced,
            Min(a.Last(), Or(sourced, Window(m, map_.mask, sourced))) - sourced,
            {Read, Write}, address);
  }

  /** The other side of a connection fills the entry. */
  method Ask(m: nat, other: Responder, tlb: Tlb, address: nat, cycles: set<Cycle>, devices: Devices) returns (rc: Outcome)
    requires other.Nested? ==> Askable(m, other.bus, other.sourced, address)
    modifies tlb
    ensures var f := AnswerOf(m, other, address, cycles, devices);
      if f.Success? then rc == Done && tlb.Value() == f.entry else rc == Errno(f.error)
    decreases other
  {
    match other
    case Device(id) =>
      var reply := devices(id, address, cycles);
      if reply.Refused? {
        return Errno(reply.error);
      }
      tlb.Store(reply.entry);
      return Done;
    case Nested(bus, s) =>
      rc := TlbFill(m, bus, s, tlb, address, cycles, devices);
  }
}
