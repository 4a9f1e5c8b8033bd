/** The address map of a generic bus: the sorted addressables, the binary search
    over them, the test whether a new connection fits, and making connections. */
module BusAddressing {
  import opened Words

  datatype Subregion = Subregion(first: nat, last: nat)

  /** What answers on the other side of a connection: a device, or another bus
      that takes this bus's requests through a connection of its own, whose
      sourced mask it adds to every address asked. */
  datatype Responder = Device(id: nat) | Nested(bus: AddressMap, sourced: nat)

  datatype Connection = Connection(addressable: bool, controller: bool, address: nat,
                                   subregions: seq<Subregion>, other: Responder)

  datatype Addressable = Addressable(connection: Connection, subregion: Subregion) {
    function First(): nat { connection.address + subregion.first }
    function Last(): nat { connection.address + subregion.last }
    predicate Covers(address: nat) { First() <= address <= Last() }
  }

  datatype AddressMap = AddressMap(mask: nat, addressables: seq<Addressable>)

  datatype State = Half | Full

  datatype ReturnCode = Ok | Exists

  /** The map is sorted, its regions are pairwise disjoint, and all lie on the bus. */
  ghost predicate Ordered(mask: nat, addressables: seq<Addressable>) {
    && (forall i {:trigger addressables[i]} :: 0 <= i < |addressables| ==>
          addressables[i].First() <= addressables[i].Last() <= mask)
    && (forall i, j {:trigger addressables[i], addressables[j]} :: 0 <= i < j < |addressables| ==>
          addressables[i].Last() < addressables[j].First())
  }

  /** What a search result means, independently of how it was found: the index
      that covers the address, or minus one minus the only insertion point. */
  ghost predicate Located(addressables: seq<Addressable>, address: nat, pivot: int) {
    if pivot >= 0 then
      pivot < |addressables| && addressables[pivot].Covers(address)
    else
      && -1 - pivot <= |addressables|
      && (forall i {:trigger addressables[i]} :: 0 <= i < -1 - pivot ==> addressables[i].Last() < address)
      && (forall i {:trigger addressables[i]} :: -1 - pivot <= i < |addressables| ==> address < addressables[i].First())
  }

  /** The covering index, or the number of regions that lie below the address:
      what the binary search finds, by linear search. */
  function Locate(addressables: seq<Addressable>, address: nat): (pivot: int)
    ensures -1 - |addressables| <= pivot < |addressables|
    ensures pivot >= 0 ==> addressables[pivot].Covers(address)
  {
    if addressables == [] then -1
    else if addressables[0].Covers(address) then 0
    else if address < addressables[0].First() then -1
    else
      var rest := Locate(addressables[1..], address);
      if rest >= 0 then rest + 1 else rest - 1
  }

  lemma {:induction false} LocateLocates(mask: nat, addressables: seq<Addressable>, address: nat)
    requires Ordered(mask, addressables)
    ensures Located(addressables, address, Locate(addressables, address))
  {
    if addressables != [] && !addressables[0].Covers(address) && !(address < addressables[0].First()) {
      LocateLocates(mask, addressables[1..], address);
      var pivot := Locate(addressables, address);
      assert forall i {:trigger addressables[i]} :: 1 <= i < |addressables| ==> addressables[i] == addressables[1..][i - 1];
    }
  }

  /** In an ordered map a search has exactly one possible result. */
  lemma {:induction false} LocatedIsLocate(mask: nat, addressables: seq<Addressable>, address: nat, pivot: int)
    requires Ordered(mask, addressables)
    requires Located(addressables, address, pivot)
    ensures pivot == Locate(addressables, address)
  {
    if addressables != [] {
      var head, tail := addressables[0], addressables[1..];
      assert forall i {:trigger tail[i]} :: 0 <= i < |tail| ==> tail[i] == addressables[i + 1];
      if !head.Covers(address) && !(address < head.First()) && pivot != -1 {
        LocatedIsLocate(mask, tail, address, if pivot >= 0 then pivot - 1 else pivot + 1);
      }
    }
  }

  /** Between two neighbours that do not cover it, an address locates to the gap. */
  lemma GapLocates(mask: nat, addressables: seq<Addressable>, address: nat, p: nat)
    requires Ordered(mask, addressables) && p <= |addressables|
    requires p > 0 ==> addressables[p - 1].Last() < address
    requires p < |addressables| ==> address < addressables[p].First()
    ensures Locate(addressables, address) == -1 - p
  {
    LocatedIsLocate(mask, addressables, address, -1 - p);
  }

  method AddressSearch(mask: nat, addressables: seq<Addressable>, address: nat) returns (pivot: int)
    requires Ordered(mask, addressables)
    ensures Located(addressables, address, pivot)
    ensures pivot == Locate(addressables, address)
  {
    var left, right := 0, |addressables| - 1;
    pivot := 0;
    while left <= right
      invariant 0 <= left <= right + 1 <= |addressables|
      invariant left > right ==> pivot == left
      invariant forall i :: 0 <= i < left ==> addressables[i].Last() < address
      invariant forall i :: right < i < |addressables| ==> address < addressables[i].First()
      decreases right - left
    {
      pivot := (left + right) / 2;
      var a := addressables[pivot];
      if address < a.First() {
        right := pivot - 1;
      } else if address > a.Last() {
        pivot := pivot + 1;
        left := pivot;
      } else {
        LocatedIsLocate(mask, addressables, address, pivot);
        return;
      }
    }
    pivot := -1 - pivot;
    LocatedIsLocate(mask, addressables, address, pivot);
  }

  // ---------------------------------------------------------------- fitting

  /** No existing region shares an address with [first, last]. */
  ghost predicate Free(addressables: seq<Addressable>, first: nat, last: nat) {
    forall i {:trigger addressables[i]} :: 0 <= i < |addressables| ==>
      last < addressables[i].First() || addressables[i].Last() < first
  }

  /** What makes a subregion acceptable: well formed, on the bus, overlapping nothing. */
  ghost predicate SubregionAvailable(mask: nat, addressables: seq<Addressable>, address: nat, s: Subregion) {
    && s.first <= s.last
    && address + s.last <= mask
    && Free(addressables, address + s.first, address + s.last)
  }

  ghost predicate AllAvailable(mask: nat, addressables: seq<Addressable>, address: nat, subregions: seq<Subregion>) {
    forall k :: 0 <= k < |subregions| ==> SubregionAvailable(mask, addressables, address, subregions[k])
  }

  ghost predicate Available(map_: AddressMap, c: Connection) {
    c.addressable ==>
      AllAvailable(map_.mask, map_.addressables, c.address, c.subregions)
  }

  /** The test the code makes of one subregion, in words of modulus `m`. */
  predicate SubregionPasses(m: nat, mask: nat, addressables: seq<Addressable>, address: nat, s: Subregion)
    requires mask < m && address < m && s.first < m && s.last < m
  {
    && s.first <= s.last
    && s.last <= WSub(m, mask, address)
    && var start := Locate(addressables, (WAdd(m, address, s.first)));
       var end := Locate(addressables, WAdd(m, address, s.last));
       start < 0 && end < 0 && start == end
  }

  ghost predicate InWords(m: nat, mask: nat, c: Connection) {
    mask < m && c.address < m && forall k :: 0 <= k < |c.subregions| ==> c.subregions[k].first < m && c.subregions[k].last < m
  }

  predicate Passes(m: nat, map_: AddressMap, c: Connection)
    requires InWords(m, map_.mask, c)
  {
    c.addressable ==>
      forall k :: 0 <= k < |c.subregions| ==> SubregionPasses(m, map_.mask, map_.addressables, c.address, c.subregions[k])
  }

  /** A search for a higher address does not stop before one for a lower. */
  lemma {:induction false} LocateMonotone(mask: nat, addressables: seq<Addressable>, first: nat, last: nat)
    requires Ordered(mask, addressables)
    requires first <= last && Locate(addressables, first) < 0 && Locate(addressables, last) < 0
    ensures Locate(addressables, last) <= Locate(addressables, first)
  {
    if addressables != [] && addressables[0].Last() < first {
      LocateMonotone(mask, addressables[1..], first, last);
    }
  }

  /** Two searches that stop at the same place saw no region between them. */
  lemma {:induction false} SearchesAgreeIffFree(mask: nat, addressables: seq<Addressable>, first: nat, last: nat)
    requires Ordered(mask, addressables) && first <= last
    ensures var start, end := Locate(addressables, first), Locate(addressables, last);
            (start < 0 && end < 0 && start == end) <==> Free(addressables, first, last)
  {
    LocateLocates(mask, addressables, first);
    LocateLocates(mask, addressables, last);
    var start, end := Locate(addressables, first), Locate(addressables, last);
    if start >= 0 {
      var a := addressables[start];
      assert a.First() <= first <= a.Last();
    } else if end >= 0 {
      var a := addressables[end];
      assert a.First() <= last <= a.Last();
    } else {
      LocateMonotone(mask, addressables, first, last);
      if end < start {
        var a := addressables[-1 - start];
        assert first < a.First() && a.Last() < last;
      }
    }
  }

  lemma SubregionPassesIffAvailable(m: nat, mask: nat, addressables: seq<Addressable>, address: nat, s: Subregion)
    requires Ordered(mask, addressables) && mask < m && address <= mask && s.first < m && s.last < m
    ensures SubregionPasses(m, mask, addressables, address, s) <==> SubregionAvailable(mask, addressables, address, s)
  {
    hide Locate, Free, Ordered;
    if s.first <= s.last && address + s.last <= mask {
      SearchesAgreeIffFree(mask, addressables, address + s.first, address + s.last);
    }
  }

  /** The fit test is exact for a connection whose own address is on the bus,
      which is what the argument parser enforces. */
  lemma PassesIffAvailable(m: nat, map_: AddressMap, c: Connection)
    requires Ordered(map_.mask, map_.addressables) && InWords(m, map_.mask, c)
    requires c.address <= map_.mask
    ensures Passes(m, map_, c) <==> Available(map_, c)
  {
    forall k | 0 <= k < |c.subregions|
      ensures SubregionPasses(m, map_.mask, map_.addressables, c.address, c.subregions[k])
         <==> SubregionAvailable(map_.mask, map_.addressables, c.address, c.subregions[k])
    {
      SubregionPassesIffAvailable(m, map_.mask, map_.addressables, c.address, c.subregions[k]);
    }
  }

  /** And only then: the subtraction from the mask wraps for an address beyond
      the bus, so the test is exact on all maps and subregions if and only if the
      address is on the bus. */
  lemma FitTestExactIff(m: nat, mask: nat, address: nat)
    requires mask < m && address < m
    ensures (forall map_: AddressMap, c: Connection ::
               map_.mask == mask && c.address == address && Ordered(mask, map_.addressables) && InWords(m, mask, c)
               ==> (Passes(m, map_, c) <==> Available(map_, c)))
       <==> address <= mask
  {
    if address <= mask {
      forall map_: AddressMap, c: Connection |
        map_.mask == mask && c.address == address && Ordered(mask, map_.addressables) && InWords(m, mask, c)
        ensures Passes(m, map_, c) <==> Available(map_, c)
      {
        PassesIffAvailable(m, map_, c);
      }
    } else {
      var map_ := AddressMap(mask, []);
      var s := Subregion(0, 0);
      var c := Connection(true, false, address, [s], Device(0));
      assert SubregionPasses(m, mask, [], address, s);
      assert Passes(m, map_, c);
      assert !SubregionAvailable(mask, [], address, c.subregions[0]);
    }
  }

  // ---------------------------------------------------------------- making connections

  /** The map with one region put in at its place. */
  function Insert(addressables: seq<Addressable>, a: Addressable): seq<Addressable> {
    var pivot := Locate(addressables, a.First());
    if pivot >= 0 then addressables
    else PutIn(addressables, -1 - pivot, a)
  }

  function InsertAll(addressables: seq<Addressable>, c: Connection, subregions: seq<Subregion>): seq<Addressable>
    decreases |subregions|
  {
    if subregions == [] then addressables
    else InsertAll(Insert(addressables, Addressable(c, subregions[0])), c, subregions[1..])
  }

  /** A connection's own subregions do not overlap each other. */
  ghost predicate Apart(subregions: seq<Subregion>) {
    forall i, j {:trigger subregions[i], subregions[j]} :: 0 <= i < j < |subregions| ==>
      subregions[i].last < subregions[j].first || subregions[j].last < subregions[i].first
  }

  /** The map with `a` put in before position `p`. */
  function PutIn(addressables: seq<Addressable>, p: nat, a: Addressable): (r: seq<Addressable>)
    requires p <= |addressables|
    ensures |r| == |addressables| + 1
    ensures forall i {:trigger r[i]} :: 0 <= i < |r| ==>
              r[i] == if i < p then addressables[i] else if i == p then a else addressables[i - 1]
    ensures multiset(r) == multiset(addressables) + multiset{a}
  {
    assert addressables == addressables[..p] + addressables[p..];
    addressables[..p] + [a] + addressables[p..]
  }

  lemma PutInKeepsOrder(mask: nat, addressables: seq<Addressable>, p: nat, a: Addressable)
    requires Ordered(mask, addressables) && p <= |addressables|
    requires a.First() <= a.Last() <= mask
    requires forall i {:trigger addressables[i]} :: 0 <= i < p ==> addressables[i].Last() < a.First()
    requires forall i {:trigger addressables[i]} :: p <= i < |addressables| ==> a.Last() < addressables[i].First()
    ensures Ordered(mask, PutIn(addressables, p, a))
  {
    var r := PutIn(addressables, p, a);
    forall i | 0 <= i < |r|
      ensures r[i].First() <= r[i].Last() <= mask
    {
    }
    forall i, j | 0 <= i < j < |r|
      ensures r[i].Last() < r[j].First()
    {
    }
  }

  /** Where a free range goes: after what lies below it, before what lies above. */
  lemma FreePlace(mask: nat, addressables: seq<Addressable>, first: nat, last: nat)
    requires Ordered(mask, addressables) && first <= last && Free(addressables, first, last)
    ensures Locate(addressables, first) < 0
    ensures var p := -1 - Locate(addressables, first);
      && (forall i {:trigger addressables[i]} :: 0 <= i < p ==> addressables[i].Last() < first)
      && (forall i {:trigger addressables[i]} :: p <= i < |addressables| ==> last < addressables[i].First())
  {
    SearchesAgreeIffFree(mask, addressables, first, last);
    LocateLocates(mask, addressables, first);
    LocateLocates(mask, addressables, last);
  }

  lemma InsertKeepsOrder(mask: nat, addressables: seq<Addressable>, a: Addressable)
    requires Ordered(mask, addressables)
    requires SubregionAvailable(mask, addressables, a.connection.address, a.subregion)
    ensures Locate(addressables, a.First()) < 0
    ensures Insert(addressables, a) == PutIn(addressables, -1 - Locate(addressables, a.First()), a)
    ensures Ordered(mask, Insert(addressables, a))
  {
    FreePlace(mask, addressables, a.First(), a.Last());
    PutInKeepsOrder(mask, addressables, -1 - Locate(addressables, a.First()), a);
  }

  /** The regions of a connection, as the map holds them. */
  function Regions(c: Connection, subregions: seq<Subregion>): multiset<Addressable> {
    if subregions == [] then multiset{}
    else multiset{Addressable(c, subregions[0])} + Regions(c, subregions[1..])
  }

  /** The regions still to be put in all fit, with each other too. */
  ghost predicate Ready(mask: nat, addressables: seq<Addressable>, address: nat, subregions: seq<Subregion>) {
    Ordered(mask, addressables) && AllAvailable(mask, addressables, address, subregions) && Apart(subregions)
  }

  lemma AfterPutIn(mask: nat, addressables: seq<Addressable>, p: nat, a: Addressable, address: nat, subregions: seq<Subregion>, k: nat)
    requires p <= |addressables| && 0 < k < |subregions| && a == Addressable(a.connection, subregions[0]) && a.connection.address == address
    requires AllAvailable(mask, addressables, address, subregions) && Apart(subregions)
    ensures SubregionAvailable(mask, PutIn(addressables, p, a), address, subregions[k])
  {
    var s := subregions[k];
    assert SubregionAvailable(mask, addressables, address, s) && SubregionAvailable(mask, addressables, address, subregions[0]);
    PutInLeavesFree(addressables, p, a, address + s.first, address + s.last);
  }

  lemma AllAfterPutIn(mask: nat, addressables: seq<Addressable>, p: nat, a: Addressable, address: nat, subregions: seq<Subregion>)
    requires p <= |addressables| && subregions != [] && a == Addressable(a.connection, subregions[0]) && a.connection.address == address
    requires AllAvailable(mask, addressables, address, subregions) && Apart(subregions)
    ensures AllAvailable(mask, PutIn(addressables, p, a), address, subregions[1..])
  {
    forall k | 0 <= k < |subregions[1..]|
      ensures SubregionAvailable(mask, PutIn(addressables, p, a), address, subregions[1..][k])
    {
      AfterPutIn(mask, addressables, p, a, address, subregions, k + 1);
    }
  }

  lemma ApartTail(subregions: seq<Subregion>)
    requires subregions != [] && Apart(subregions)
    ensures Apart(subregions[1..])
  {
  }

  lemma ReadyStep(mask: nat, addressables: seq<Addressable>, c: Connection, subregions: seq<Subregion>)
    requires subregions != [] && Ready(mask, addressables, c.address, subregions)
    ensures var a := Addressable(c, subregions[0]);
      && Locate(addressables, a.First()) < 0
      && Ready(mask, Insert(addressables, a), c.address, subregions[1..])
  {
    var a := Addressable(c, subregions[0]);
    assert SubregionAvailable(mask, addressables, c.address, subregions[0]);
    InsertKeepsOrder(mask, addressables, a);
    AllAfterPutIn(mask, addressables, -1 - Locate(addressables, a.First()), a, c.address, subregions);
    ApartTail(subregions);
  }

  /** Adding a connection adds exactly its regions, and keeps the order. */
  lemma {:induction false} InsertAllKeepsOrder(mask: nat, addressables: seq<Addressable>, c: Connection, subregions: seq<Subregion>)
    requires Ready(mask, addressables, c.address, subregions)
    ensures Ordered(mask, InsertAll(addressables, c, subregions))
    ensures multiset(InsertAll(addressables, c, subregions)) == multiset(addressables) + Regions(c, subregions)
    decreases |subregions|
  {
    if subregions != [] {
      ReadyStep(mask, addressables, c, subregions);
      InsertAllKeepsOrder(mask, Insert(addressables, Addressable(c, subregions[0])), c, subregions[1..]);
    }
  }

  lemma PutInLeavesFree(addressables: seq<Addressable>, p: nat, a: Addressable, first: nat, last: nat)
    requires p <= |addressables| && Free(addressables, first, last)
    requires last < a.First() || a.Last() < first
    ensures Free(PutIn(addressables, p, a), first, last)
  {
  }

  // ---------------------------------------------------------------- runs

  /** A bus that connections are offered to; it may have one controller. */
  datatype Made = Made(map_: AddressMap, controlled: bool)

  /** An offer is taken if it fits and is no second controller. */
  predicate Taken(m: nat, bus: Made, c: Connection)
    requires InWords(m, bus.map_.mask, c)
  {
    Passes(m, bus.map_, c) && !(c.controller && bus.controlled)
  }

  function Offer(m: nat, bus: Made, c: Connection): Made
    requires InWords(m, bus.map_.mask, c)
  {
    if !Taken(m, bus, c) then bus
    else
      Made(if c.addressable then AddressMap(bus.map_.mask, InsertAll(bus.map_.addressables, c, c.subregions)) else bus.map_,
           bus.controlled || c.controller)
  }

  ghost predicate GoodOffer(m: nat, mask: nat, c: Connection) {
    InWords(m, mask, c) && c.address <= mask && Apart(c.subregions)
  }

  ghost function Run(m: nat, bus: Made, offers: seq<Connection>): Made
    requires forall i :: 0 <= i < |offers| ==> InWords(m, bus.map_.mask, offers[i])
    decreases |offers|
  {
    if offers == [] then bus else Run(m, Offer(m, bus, offers[0]), offers[1..])
  }

  /** The regions of the addressable connections that a run takes. */
  ghost function TakenRegions(m: nat, bus: Made, offers: seq<Connection>): multiset<Addressable>
    requires forall i :: 0 <= i < |offers| ==> InWords(m, bus.map_.mask, offers[i])
    decreases |offers|
  {
    if offers == [] then multiset{}
    else
      var c := offers[0];
      (if c.addressable && Taken(m, bus, c) then Regions(c, c.subregions) else multiset{})
      + TakenRegions(m, Offer(m, bus, c), offers[1..])
  }

  /** Whatever is offered, in whatever order, the map stays sorted, disjoint and
      on the bus, and holds what it held and the regions taken, and no more. */
  lemma {:induction false} RunKeepsOrder(m: nat, bus: Made, offers: seq<Connection>)
    requires Ordered(bus.map_.mask, bus.map_.addressables)
    requires forall i :: 0 <= i < |offers| ==> GoodOffer(m, bus.map_.mask, offers[i])
    ensures forall i :: 0 <= i < |offers| ==> InWords(m, bus.map_.mask, offers[i])
    ensures var end := Run(m, bus, offers).map_;
      && end.mask == bus.map_.mask
      && Ordered(end.mask, end.addressables)
      && multiset(end.addressables) == multiset(bus.map_.addressables) + TakenRegions(m, bus, offers)
    decreases |offers|
  {
    if offers != [] {
      var c := offers[0];
      if c.addressable && Taken(m, bus, c) {
        PassesIffAvailable(m, bus.map_, c);
        InsertAllKeepsOrder(bus.map_.mask, bus.map_.addressables, c, c.subregions);
      }
      RunKeepsOrder(m, Offer(m, bus, c), offers[1..]);
    }
  }

  // ---------------------------------------------------------------- which offers are taken

  /** A connection fits a bus that holds these regions. */
  ghost predicate Fits(mask: nat, held: multiset<Addressable>, c: Connection) {
    c.addressable ==> forall k :: 0 <= k < |c.subregions| ==>
      var s := c.subregions[k];
      && s.first <= s.last && c.address + s.last <= mask
      && forall a :: a in held ==> c.address + s.last < a.First() || a.Last() < c.address + s.first
  }

  /** Each offer in turn is taken iff it fits what is held by then, and is no second
      controller. */
  ghost function Accepted(mask: nat, held: multiset<Addressable>, controlled: bool, offers: seq<Connection>): seq<Connection>
    decreases |offers|
  {
    if offers == [] then []
    else
      var c := offers[0];
      if Fits(mask, held, c) && !(c.controller && controlled) then
        [c] + Accepted(mask, held + RegionsOf([c]), controlled || c.controller, offers[1..])
      else Accepted(mask, held, controlled, offers[1..])
  }

  /** What connections put on the map. */
  ghost function RegionsOf(connections: seq<Connection>): multiset<Addressable> {
    if connections == [] then multiset{}
    else
      var c := connections[0];
      (if c.addressable then Regions(c, c.subregions) else multiset{}) + RegionsOf(connections[1..])
  }

  function Controllers(connections: seq<Connection>): nat {
    if connections == [] then 0 else (if connections[0].controller then 1 else 0) + Controllers(connections[1..])
  }

  lemma FitsIffAvailable(map_: AddressMap, c: Connection)
    ensures Fits(map_.mask, multiset(map_.addressables), c) <==> Available(map_, c)
  {
    if c.addressable {
      forall k | 0 <= k < |c.subregions|
        ensures Free(map_.addressables, c.address + c.subregions[k].first, c.address + c.subregions[k].last) <==>
          forall a :: a in multiset(map_.addressables) ==>
            c.address + c.subregions[k].last < a.First() || a.Last() < c.address + c.subregions[k].first
      {
        assert forall a :: a in multiset(map_.addressables) <==> a in map_.addressables;
      }
    }
  }

  lemma RegionsOfOne(c: Connection, rest: seq<Connection>)
    ensures RegionsOf([c] + rest) == RegionsOf([c]) + RegionsOf(rest)
    ensures RegionsOf([c]) == if c.addressable then Regions(c, c.subregions) else multiset{}
    ensures Controllers([c] + rest) == (if c.controller then 1 else 0) + Controllers(rest)
  {
    assert ([c] + rest)[1..] == rest && [c][1..] == [];
  }

  /** One offer. */
  lemma OfferTakes(m: nat, bus: Made, c: Connection)
    requires Ordered(bus.map_.mask, bus.map_.addressables) && GoodOffer(m, bus.map_.mask, c)
    ensures var held, bus' := multiset(bus.map_.addressables), Offer(m, bus, c);
      && bus'.map_.mask == bus.map_.mask && Ordered(bus.map_.mask, bus'.map_.addressables)
      && if Fits(bus.map_.mask, held, c) && !(c.controller && bus.controlled) then
           && multiset(bus'.map_.addressables) == held + (if c.addressable then Regions(c, c.subregions) else multiset{})
           && bus'.controlled == (bus.controlled || c.controller)
         else bus' == bus
  {
    hide Fits, Passes;
    FitsIffAvailable(bus.map_, c);
    PassesIffAvailable(m, bus.map_, c);
    if c.addressable && Taken(m, bus, c) {
      InsertAllKeepsOrder(bus.map_.mask, bus.map_.addressables, c, c.subregions);
    }
  }

  /** After any run the map holds what it held and the regions of the offers that fitted in
      their turn, and has a controller iff it had one or took one; it takes one at most, and
      none if it had one. */
  lemma {:induction false} RunTakes(m: nat, bus: Made, offers: seq<Connection>)
    requires Ordered(bus.map_.mask, bus.map_.addressables)
    requires forall i :: 0 <= i < |offers| ==> GoodOffer(m, bus.map_.mask, offers[i])
    ensures forall i :: 0 <= i < |offers| ==> InWords(m, bus.map_.mask, offers[i])
    ensures var end := Run(m, bus, offers);
      var taken := Accepted(bus.map_.mask, multiset(bus.map_.addressables), bus.controlled, offers);
      && multiset(end.map_.addressables) == multiset(bus.map_.addressables) + RegionsOf(taken)
      && (end.controlled <==> bus.controlled || Controllers(taken) > 0)
      && Controllers(taken) <= if bus.controlled then 0 else 1
    decreases |offers|
  {
    hide Fits, Regions, Offer;
    if offers != [] {
      var c, bus' := offers[0], Offer(m, bus, offers[0]);
      OfferTakes(m, bus, c);
      RunTakes(m, bus', offers[1..]);
      var held := multiset(bus.map_.addressables);
      var rest := Accepted(bus.map_.mask, multiset(bus'.map_.addressables), bus'.controlled, offers[1..]);
      RegionsOfOne(c, rest);
    }
  }

  // ---------------------------------------------------------------- the bus

  class Bus {
    const m: nat
    const mask: nat
    var controller: seq<Connection>   // none or one
    var connections: seq<Connection>  // newest first
    var addressables: seq<Addressable>

    ghost predicate Valid()
      reads this
    {
      mask < m && |controller| <= 1 && Ordered(mask, addressables)
    }

    ghost function View(): AddressMap
      reads this
    {
      AddressMap(mask, addressables)
    }

    ghost function SoFar(): Made
      reads this
    {
      Made(View(), controller != [])
    }

    constructor (m: nat, mask: nat)
      requires mask < m
      ensures Valid() && this.m == m && this.mask == mask
      ensures controller == [] && connections == [] && addressables == []
    {
      this.m, this.mask := m, mask;
      controller, connections, addressables := [], [], [];
    }

    method ConnectionOk(c: Connection) returns (ok: bool)
      requires Valid() && InWords(m, mask, c)
      ensures ok == Passes(m, View(), c)
      ensures c.address <= mask ==> (ok <==> Available(View(), c))
    {
      if c.address <= mask {
        PassesIffAvailable(m, View(), c);
      }
      if !c.addressable {
        return true;
      }
      for k := 0 to |c.subregions|
        invariant forall i :: 0 <= i < k ==> SubregionPasses(m, mask, addressables, c.address, c.subregions[i])
      {
        var s := c.subregions[k];
        if s.last < s.first {
          return false;
        }
        if s.last > WSub(m, mask, c.address) {
          return false;
        }
        var start := AddressSearch(mask, addressables, WAdd(m, c.address, s.first));
        var end := AddressSearch(mask, addressables, WAdd(m, c.address, s.last));
        if start >= 0 || end >= 0 || start != end {
          return false;
        }
      }
      return true;
    }

    method ConnectionMake(c: Connection, state: State) returns (rc: ReturnCode)
      requires Valid()
      requires c.addressable && state == Full ==> Available(View(), c) && Apart(c.subregions)
      modifies this
      ensures Valid()
      ensures rc == if state == Full && c.controller && old(controller) != [] then Exists else Ok
      ensures state == Half || rc == Exists ==>
        controller == old(controller) && connections == old(connections) && addressables == old(addressables)
      ensures state == Full && rc == Ok ==>
        && connections == [c] + old(connections)
        && controller == (if c.controller then [c] else old(controller))
        && addressables == (if c.addressable then InsertAll(old(addressables), c, c.subregions) else old(addressables))
      ensures state == Full && InWords(m, mask, c) && Passes(m, old(View()), c) ==> SoFar() == Offer(m, old(SoFar()), c)
    {
      if state == Half {
        return Ok;
      }
      if c.controller {
        if controller != [] {
          return Exists;
        }
        controller := [c];
      }
      connections := [c] + connections;
      if c.addressable && state == Full {
        AddRegions(c);
      }
      return Ok;
    }

    method AddRegions(c: Connection)
      requires Ready(mask, addressables, c.address, c.subregions)
      modifies this`addressables
      ensures Ordered(mask, addressables)
      ensures addressables == InsertAll(old(addressables), c, c.subregions)
    {
      for k := 0 to |c.subregions|
        invariant Ready(mask, addressables, c.address, c.subregions[k..])
        invariant InsertAll(addressables, c, c.subregions[k..]) == InsertAll(old(addressables), c, c.subregions)
      {
        assert c.subregions[k..][1..] == c.subregions[k + 1..];
        ReadyStep(mask, addressables, c, c.subregions[k..]);
        AddRegion(Addressable(c, c.subregions[k]));
      }
    }

    method AddRegion(a: Addressable)
      requires Ordered(mask, addressables) && Locate(addressables, a.First()) < 0
      modifies this`addressables
      ensures addressables == Insert(old(addressables), a)
    {
      var pivot := AddressSearch(mask, addressables, a.First());
      assert pivot < 0;
      pivot := -1 - pivot;
      addressables := PutIn(addressables, pivot, a);
    }
  }
}
