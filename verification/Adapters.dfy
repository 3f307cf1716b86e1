/** adapt.c: the table of adapters, handles, and the searches that go through it. */
module Adapters {
  import opened Wrappers
  import opened CText
  import opened SaTables
  import opened Rports
  import opened Ports
  import opened Books
  import opened Registry
  import opened AdapterNames

  const HANDLE_OFFSET: nat := 0x100
  const INVALID_HANDLE: nat := 0   // HBA_HANDLE_INVALID; the HBA-API header is not part of this model

  datatype Status = Ok | Error | IllegalIndex | IllegalWwn | AmbiguousWwn | InvalidHandle | MoreData

  // ---- counting matches of a world wide name ----

  predicate HasWwn(slot: Option<PortInfo>, wwn: Wwn) {
    slot.Some? && slot.value.attr.portWwn == wwn
  }

  // How many ports of a table have this port name.
  function PortHits(slots: seq<Option<PortInfo>>, wwn: Wwn): nat {
    if slots == [] then 0
    else PortHits(slots[..|slots| - 1], wwn) + if HasWwn(slots[|slots| - 1], wwn) then 1 else 0
  }

  /** One for an adapter with this node name, otherwise one for each of its ports with this
      port name. */
  function Hits(a: AdapterInfo, ports: seq<Option<PortInfo>>, wwn: Wwn): nat {
    if a.nodeWwn == wwn then 1 else PortHits(ports, wwn)
  }

  function TotalHits(adapters: seq<AdapterInfo>, ports: seq<seq<Option<PortInfo>>>, n: nat, wwn: Wwn): nat
    requires n <= |adapters| == |ports|
  {
    if n == 0 then 0 else TotalHits(adapters, ports, n - 1, wwn) + Hits(adapters[n - 1], ports[n - 1], wwn)
  }

  lemma {:induction false} TotalHitsOf(adapters: seq<AdapterInfo>, ports: seq<seq<Option<PortInfo>>>, n: nat, wwn: Wwn, i: nat)
    requires i < n <= |adapters| == |ports|
    ensures Hits(adapters[i], ports[i], wwn) <= TotalHits(adapters, ports, n, wwn)
    ensures forall j :: 0 <= j < n && j != i ==>
              Hits(adapters[i], ports[i], wwn) + Hits(adapters[j], ports[j], wwn) <= TotalHits(adapters, ports, n, wwn)
  {
    if i < n - 1 {
      TotalHitsOf(adapters, ports, n - 1, wwn, i);
    } else {
      forall j | 0 <= j < n && j != i
        ensures Hits(adapters[i], ports[i], wwn) + Hits(adapters[j], ports[j], wwn) <= TotalHits(adapters, ports, n, wwn)
      {
        TotalHitsOf(adapters, ports, n - 1, wwn, j);
      }
    }
  }

  // ---- what the counts mean, in the names of adapters and ports ----

  // Slot k holds a port of this name.
  predicate NamedAt(slots: seq<Option<PortInfo>>, wwn: Wwn, k: int) {
    0 <= k < |slots| && slots[k].Some? && slots[k].value.attr.portWwn == wwn
  }

  ghost predicate NoneNamed(slots: seq<Option<PortInfo>>, wwn: Wwn) {
    forall k :: !NamedAt(slots, wwn, k)
  }

  // Exactly one slot holds a port of this name.
  ghost predicate OneNamed(slots: seq<Option<PortInfo>>, wwn: Wwn) {
    exists k :: NamedAt(slots, wwn, k) && forall j :: NamedAt(slots, wwn, j) ==> j == k
  }

  lemma NamedInFront(slots: seq<Option<PortInfo>>, wwn: Wwn)
    requires slots != []
    ensures var n := |slots| - 1;
            forall k :: NamedAt(slots, wwn, k) <==> NamedAt(slots[..n], wwn, k) || (k == n && HasWwn(slots[n], wwn))
  {}

  lemma {:induction false} PortHitsNone(slots: seq<Option<PortInfo>>, wwn: Wwn)
    ensures PortHits(slots, wwn) == 0 <==> NoneNamed(slots, wwn)
  {
    if slots != [] {
      var n := |slots| - 1;
      NamedInFront(slots, wwn);
      PortHitsNone(slots[..n], wwn);
      if HasWwn(slots[n], wwn) { assert NamedAt(slots, wwn, n); }
    }
  }

  lemma OneAlike(s: seq<Option<PortInfo>>, t: seq<Option<PortInfo>>, wwn: Wwn)
    requires OneNamed(s, wwn) && forall k :: NamedAt(s, wwn, k) <==> NamedAt(t, wwn, k)
    ensures OneNamed(t, wwn)
  {
    var k :| NamedAt(s, wwn, k) && forall j :: NamedAt(s, wwn, j) ==> j == k;
    assert NamedAt(t, wwn, k);
  }

  lemma OneIsLast(slots: seq<Option<PortInfo>>, wwn: Wwn)
    requires slots != [] && HasWwn(slots[|slots| - 1], wwn)
    ensures OneNamed(slots, wwn) <==> NoneNamed(slots[..|slots| - 1], wwn)
  {
    var n := |slots| - 1;
    NamedInFront(slots, wwn);
    assert NamedAt(slots, wwn, n);
    if OneNamed(slots, wwn) {
      var k :| NamedAt(slots, wwn, k) && forall j :: NamedAt(slots, wwn, j) ==> j == k;
      assert k == n;
    }
  }

  // The one slot of a table is its last, or the one of its front.
  lemma OneInFront(slots: seq<Option<PortInfo>>, wwn: Wwn)
    requires slots != []
    ensures var n := |slots| - 1;
            OneNamed(slots, wwn) <==> if HasWwn(slots[n], wwn) then NoneNamed(slots[..n], wwn) else OneNamed(slots[..n], wwn)
  {
    var n := |slots| - 1;
    if HasWwn(slots[n], wwn) {
      OneIsLast(slots, wwn);
    } else {
      NamedInFront(slots, wwn);
      if OneNamed(slots, wwn) { OneAlike(slots, slots[..n], wwn); }
      if OneNamed(slots[..n], wwn) { OneAlike(slots[..n], slots, wwn); }
    }
  }

  /** The count of a table is 0 when no slot holds a port of the name, and 1 when exactly one
      does. */
  lemma {:induction false} PortHitsMean(slots: seq<Option<PortInfo>>, wwn: Wwn)
    ensures PortHits(slots, wwn) == 0 <==> NoneNamed(slots, wwn)
    ensures PortHits(slots, wwn) == 1 <==> OneNamed(slots, wwn)
  {
    PortHitsNone(slots, wwn);
    if slots != [] {
      OneInFront(slots, wwn);
      PortHitsNone(slots[..|slots| - 1], wwn);
      PortHitsMean(slots[..|slots| - 1], wwn);
    }
  }

  // Neither the adapter nor a port of it has the name.
  ghost predicate NoMatch(a: AdapterInfo, slots: seq<Option<PortInfo>>, wwn: Wwn) {
    a.nodeWwn != wwn && NoneNamed(slots, wwn)
  }

  // The adapter has the name, or else exactly one of its ports has.
  ghost predicate OneMatch(a: AdapterInfo, slots: seq<Option<PortInfo>>, wwn: Wwn) {
    a.nodeWwn == wwn || OneNamed(slots, wwn)
  }

  // Adapter i is the only one with a match, and it has one.
  ghost predicate OnlyMatch(adapters: seq<AdapterInfo>, ports: seq<seq<Option<PortInfo>>>, n: nat, wwn: Wwn, i: int)
    requires n <= |adapters| == |ports|
  {
    0 <= i < n && OneMatch(adapters[i], ports[i], wwn) &&
    forall j :: 0 <= j < n && j != i ==> NoMatch(adapters[j], ports[j], wwn)
  }

  lemma HitsMean(a: AdapterInfo, slots: seq<Option<PortInfo>>, wwn: Wwn)
    ensures Hits(a, slots, wwn) == 0 <==> NoMatch(a, slots, wwn)
    ensures Hits(a, slots, wwn) == 1 <==> OneMatch(a, slots, wwn)
  {
    PortHitsMean(slots, wwn);
  }

  /** The total is 0 when no adapter and no port has the name, and 1 when exactly one adapter has
      a match and just one: its own name, or else one of its ports. */
  lemma {:induction false} TotalHitsMean(adapters: seq<AdapterInfo>, ports: seq<seq<Option<PortInfo>>>, n: nat, wwn: Wwn)
    requires n <= |adapters| == |ports|
    ensures TotalHits(adapters, ports, n, wwn) == 0 <==> forall i :: 0 <= i < n ==> NoMatch(adapters[i], ports[i], wwn)
    ensures TotalHits(adapters, ports, n, wwn) == 1 <==> exists i :: OnlyMatch(adapters, ports, n, wwn, i)
  {
    if n > 0 {
      var m := n - 1;
      TotalHitsMean(adapters, ports, m, wwn);
      HitsMean(adapters[m], ports[m], wwn);
      if i :| OnlyMatch(adapters, ports, m, wwn, i) {
        if NoMatch(adapters[m], ports[m], wwn) { assert OnlyMatch(adapters, ports, n, wwn, i); }
      }
      if TotalHits(adapters, ports, m, wwn) == 0 && OneMatch(adapters[m], ports[m], wwn) {
        assert OnlyMatch(adapters, ports, n, wwn, m);
      }
      if i :| OnlyMatch(adapters, ports, n, wwn, i) {
        HitsMean(adapters[i], ports[i], wwn);
        if i < m { assert OnlyMatch(adapters, ports, m, wwn, i); }
      }
    }
  }

  function NamesOf(adapters: seq<AdapterInfo>): (names: seq<string>)
    ensures |names| == |adapters| && forall i :: 0 <= i < |names| ==> names[i] == adapters[i].name
  {
    seq(|adapters|, i requires 0 <= i < |adapters| => adapters[i].name)
  }

  function PortIn(ports: seq<seq<Option<PortInfo>>>, handle: u32, port: u32): Option<PortInfo> {
    if HANDLE_OFFSET <= handle < HANDLE_OFFSET + |ports| then At(ports[handle - HANDLE_OFFSET], port) else None
  }

  // The host and channel of a port.
  function KeyIn(ports: seq<seq<Option<PortInfo>>>, handle: u32, port: u32): Option<Key> {
    var pp := PortIn(ports, handle, port);
    if pp.Some? then Some(pp.value.PortKey()) else None
  }

  // Mentioned where the invariant of the library is needed in full.
  predicate ReadyInFull(n: int) { true }

  class AdapterLib {
    const adapterTable: SaTable<AdapterInfo>
    const reg: Registry

    ghost var adapters: seq<AdapterInfo>
    ghost var tables: seq<SaTable<PortInfo>>          // their tables of ports
    ghost var ports: seq<seq<Option<PortInfo>>>       // what those hold

    constructor (reg: Registry)
      requires reg.Valid()
      ensures this.reg == reg && Ready() && adapters == [] && ports == [] && fresh(adapterTable)
    {
      this.reg := reg;
      adapterTable := new SaTable<AdapterInfo>();
      adapters, tables, ports := [], [], [];
    }

    /** Slot i holds the adapter with index i, and no slot is empty. */
    ghost predicate Valid()
      reads this, adapterTable, adapters, tables
    {
      && adapterTable.Valid()
      && adapterTable.Slots() == Full(adapters) && |adapters| == |tables| == |ports|
      && (forall i :: 0 <= i < |adapters| ==> adapters[i].adIndex == i)
      && (forall i :: 0 <= i < |adapters| ==> adapters[i].ports == tables[i])
      && PortsShow()
    }

    // The adapters' tables hold their ports.
    ghost predicate PortsShow()
      reads `tables, `ports, tables
    {
      |tables| == |ports| && forall i :: 0 <= i < |tables| ==> tables[i].Valid() && tables[i].Slots() == ports[i]
    }

    /** A new adapter takes the next index. */
    method Create(ap: AdapterInfo) returns (status: Status)
      requires Valid() && |adapters| < INDEX_LIMIT
      requires ap !in adapters && ap.ports.Valid() && ap.ports as object != adapterTable
      modifies `adapters, `tables, `ports, adapterTable, ap`adIndex
      ensures Valid() && (status == Ok || status == Error)
      ensures status == Error ==> !reg.ample && old(adapterTable.stLimit == adapterTable.stSize)
      ensures adapters == old(adapters) + (if status == Ok then [ap] else [])
      ensures tables == old(tables) + (if status == Ok then [ap.ports] else [])
      ensures ports == old(ports) + (if status == Ok then [ap.ports.Slots()] else [])
    {
      var memory: bool :| reg.ample ==> memory;
      var index, _ := adapterTable.Append(Some(ap), memory);
      if index < 0 {
        return Error;
      }
      adapters, tables, ports := adapters + [ap], tables + [ap.ports], ports + [ap.ports.Slots()];
      ap.adIndex := index;
      assert adapterTable.Slots() == Full(adapters);
      status := Ok;
    }

    /** A handle resolves exactly when it is 0x100 plus an index in use; the subtraction wraps
        for smaller handles. */
    function OpenHandle(handle: u32): (ap: Option<AdapterInfo>)
      reads this, adapterTable, adapters, tables
      requires Valid()
      ensures ap == if 0x100 <= handle < 0x100 + |adapters| then Some(adapters[handle - 0x100]) else None
    {
      adapterTable.Lookup((handle + U32 - HANDLE_OFFSET) % U32)
    }

    /** The printed name of the adapter with this index, or an illegal index. */
    function GetName(index: u32): (name: Option<string>)
      reads this, adapterTable, adapters, tables
      requires Valid()
      ensures name == if index < |adapters| then Some(PrintedAll(NamesOf(adapters))[index]) else None
    {
      var ap := adapterTable.Lookup(index);
      if ap.Some? then Some(Printed(ap.value.name, index)) else None
    }

    /** Opening by name: the handle of the first adapter that prints it, or 0. */
    method Open(name: string) returns (handle: int)
      requires Valid()
      ensures var k := FirstNamed(PrintedAll(NamesOf(adapters)), name, 0);
              handle == if k.Some? then HANDLE_OFFSET + k.value else 0
    {
      for i := 0 to adapterTable.stLimit
        invariant FirstNamed(PrintedAll(NamesOf(adapters)), name, 0) == FirstNamed(PrintedAll(NamesOf(adapters)), name, i)
      {
        var buf := GetName(i);
        if buf.None? {
          return 0;
        }
        if buf.value == name {
          return HANDLE_OFFSET + i;
        }
      }
      handle := 0;
    }

    /** Opening the printed name of any adapter gives that adapter's handle. */
    method OpenPrintedName(i: u32) returns (handle: int)
      requires Valid() && i < |adapters|
      ensures handle == 0x100 + i
    {
      var name := GetName(i);
      forall j | 0 <= j <= i ensures Untruncated(adapters[j].name, j) { HostNamesFit(adapters[j].name, j); }
      FindPrintedName(NamesOf(adapters), i);
      handle := Open(name.value);
    }

    /** The port of a handle and a port number, if both exist. */
    ghost function PortAt(handle: u32, port: u32): Option<PortInfo>
      reads `ports
    {
      PortIn(ports, handle, port)
    }

    function GetPort(handle: u32, port: u32): (pp: Option<PortInfo>)
      reads this, adapterTable, adapters, tables
      requires Valid()
      ensures pp == PortAt(handle, port)
    {
      var ap := OpenHandle(handle);
      if ap.Some? then ap.value.ports.Lookup(port) else None
    }

    // The same in the library between two calls: such a port is a local port.
    method LocalPort(handle: u32, port: u32) returns (pp: Option<PortInfo>)
      requires Ready()
      ensures Ready() && pp == PortAt(handle, port) && (pp.Some? ==> pp.value in reg.locals)
    {
      assert ReadyInFull(0);
      pp := GetPort(handle, port);
    }

    /** The unique port of an adapter with this name, and how many there are. */
    method GetPortByWwn(handle: u32, wwn: Wwn) returns (found: Option<PortInfo>, count: nat)
      requires Valid()
      ensures HANDLE_OFFSET <= handle < HANDLE_OFFSET + |adapters| ==>
                var slots := ports[handle - HANDLE_OFFSET];
                count == PortHits(slots, wwn) && (found.Some? <==> OneNamed(slots, wwn)) &&
                (count == 0 <==> NoneNamed(slots, wwn)) &&
                (found.Some? ==> exists p :: NamedAt(slots, wwn, p) && slots[p] == found)
      ensures !(HANDLE_OFFSET <= handle < HANDLE_OFFSET + |adapters|) ==> count == 0
      ensures found.Some? <==> count == 1
    {
      found, count := None, 0;
      var ap := OpenHandle(handle);
      if ap.Some? {
        found, count := LastPort(ap.value, wwn);
        PortHitsMean(ports[handle - HANDLE_OFFSET], wwn);
      }
      if count > 1 {
        found := None;
      }
    }

    // The same in the library between two calls: such a port is a local port.
    method LocalByWwn(handle: u32, wwn: Wwn) returns (found: Option<PortInfo>)
      requires Ready()
      ensures Ready()
      ensures found.Some? <==> HANDLE_OFFSET <= handle < HANDLE_OFFSET + |ports| &&
                               OneNamed(ports[handle - HANDLE_OFFSET], wwn)
      ensures found.Some? ==>
                found in ports[handle - HANDLE_OFFSET] && found.value.attr.portWwn == wwn &&
                found.value in reg.locals && found.value !in reg.book.objs
    {
      assert ReadyInFull(0);
      var count;
      found, count := GetPortByWwn(handle, wwn);
      if found.Some? { reg.TableOfLocal(found.value); }
    }

    // The loop over the ports of one adapter: the last match and the number of matches.
    method LastPort(ap: AdapterInfo, wwn: Wwn) returns (found: Option<PortInfo>, count: nat)
      requires ap.ports.Valid()
      ensures var slots := ap.ports.Slots();
              count == PortHits(slots, wwn) && (found.Some? <==> count > 0) &&
              (found.Some? ==> exists p :: NamedAt(slots, wwn, p) && slots[p] == found)
    {
      found, count := None, 0;
      ghost var slots := ap.ports.Slots();
      for p := 0 to ap.ports.stLimit
        invariant count == PortHits(slots[..p], wwn) && (found.Some? <==> count > 0)
        invariant found.Some? ==> exists q :: q < p && NamedAt(slots, wwn, q) && slots[q] == found
      {
        assert slots[..p + 1][..p] == slots[..p];
        var pp := ap.ports.stTable[p];
        assert pp == slots[p];
        if pp.Some? && pp.value.attr.portWwn == wwn {
          count, found := count + 1, pp;
          assert NamedAt(slots, wwn, p);
        }
      }
      assert slots[..|slots|] == slots;
    }

    /** Opening by world wide name: illegal when no adapter and no port has the name, OK with the
        handle of the one adapter that matches when just one name does, otherwise ambiguous. */
    method OpenByWwn(wwn: Wwn) returns (status: Status, handle: nat)
      requires Valid()
      ensures status == IllegalWwn <==> forall i :: 0 <= i < |adapters| ==> NoMatch(adapters[i], ports[i], wwn)
      ensures status == Ok <==> exists i :: OnlyMatch(adapters, ports, |adapters|, wwn, i)
      ensures status == IllegalWwn || status == Ok || status == AmbiguousWwn
      ensures if status == Ok then OnlyMatch(adapters, ports, |adapters|, wwn, handle - 0x100) else handle == INVALID_HANDLE
    {
      TotalHitsMean(adapters, ports, |adapters|, wwn);
      status, handle := CountByWwn(wwn);
      if status == Ok {
        forall i | 0 <= i < |adapters|
          ensures if i == handle - 0x100 then OneMatch(adapters[i], ports[i], wwn) else NoMatch(adapters[i], ports[i], wwn)
        {
          HitsMean(adapters[i], ports[i], wwn);
        }
      }
    }

    // The same by the number of matches.
    method CountByWwn(wwn: Wwn) returns (status: Status, handle: nat)
      requires Valid()
      ensures var total := TotalHits(adapters, ports, |adapters|, wwn);
              status == if total == 1 then Ok else if total > 1 then AmbiguousWwn else IllegalWwn
      ensures status != Ok ==> handle == INVALID_HANDLE
      ensures status == Ok ==>
                HANDLE_OFFSET <= handle < HANDLE_OFFSET + |adapters| &&
                forall i :: 0 <= i < |adapters| ==>
                  Hits(adapters[i], ports[i], wwn) == if i == handle - HANDLE_OFFSET then 1 else 0
    {
      var foundHandle, count := 0, 0;
      for i := 0 to adapterTable.stLimit
        invariant count == TotalHits(adapters, ports, i, wwn)
        invariant count > 0 ==> HANDLE_OFFSET <= foundHandle < HANDLE_OFFSET + i
        invariant count > 0 ==> Hits(adapters[foundHandle - HANDLE_OFFSET], ports[foundHandle - HANDLE_OFFSET], wwn) > 0
      {
        var slot := adapterTable.stTable[i];
        assert slot == Some(adapters[i]);
        if slot.Some? {
          var ap := slot.value;
          if ap.nodeWwn == wwn {
            count := count + 1;
            foundHandle := ap.adIndex + HANDLE_OFFSET;
          } else {
            var found, n := LastPort(ap, wwn);
            if n > 0 {
              count := count + n;
              foundHandle := ap.adIndex + HANDLE_OFFSET;
            }
          }
        }
      }
      handle := INVALID_HANDLE;
      if count == 1 {
        status, handle := Ok, foundHandle;
        forall i | 0 <= i < |adapters|
          ensures Hits(adapters[i], ports[i], wwn) == if i == handle - HANDLE_OFFSET then 1 else 0
        {
          TotalHitsOf(adapters, ports, |adapters|, wwn, handle - HANDLE_OFFSET);
        }
      } else if count > 1 {
        status := AmbiguousWwn;
      } else {
        status := IllegalWwn;
      }
    }

    // ---- remote ports through a handle ----

    // The adapters' tables are apart from all other tables.
    ghost predicate Apart()
      reads this, reg`owner
    {
      && adapterTable as object != reg.rportsTable
      && (forall t :: t in reg.owner ==> t as object != adapterTable)
      && (forall i :: 0 <= i < |tables| ==>
            tables[i] != reg.rportsTable && tables[i] !in reg.owner && tables[i] as object != adapterTable)
    }

    // The adapters' ports are local ports of the registry.
    ghost predicate Connected()
      reads `ports, reg`locals
    {
      forall i, k :: 0 <= i < |ports| && 0 <= k < |ports[i]| && ports[i][k].Some? ==> ports[i][k].value in reg.locals
    }

    /** The library between two calls, as one fact that a proof spells out by mentioning
        ReadyInFull. */
    ghost predicate Ready()
      reads this, adapterTable, adapters, tables
      reads reg, reg.rportsTable, reg.book.objs, reg.book.locals.Keys, reg.owner.Keys
    {
      forall n: int {:trigger ReadyInFull(n)} :: ReadyInFull(n) ==> Valid() && reg.Valid() && Apart() && Connected()
    }

    /** The three queries by handle and port number. Every invariant is kept. With distinct
        local ports, and as long as no allocation fails, the answer is the one computed from
        the sysfs directory for the host and channel of the port. */
    method GetRport(handle: u32, port: u32, q: Query) returns (r: Option<PortInfo>)
      requires Ready()
      modifies reg`book, reg`clean, reg.rportsTable, reg.owner.Keys, reg.book.objs`adapt
      ensures Ready() && (reg.clean ==> old(reg.clean))
      ensures forall o :: o in reg.book.objs ==> o in old(reg.book.objs) || fresh(o)
      ensures var pp := PortAt(handle, port);
              if pp.None? then r == None else IsAnswer(reg.book, pp.value, q, r)
      ensures reg.clean && DistinctKeys(reg.locals) ==> RecordOf(r) == ScratchAt(reg.listing, KeyIn(ports, handle, port), q)
      ensures reg.ample ==> reg.clean == old(reg.clean)
    {
      assert ReadyInFull(0);
      r := None;
      var pp := GetPort(handle, port);
      if pp.Some? {
        r := AskPort(pp.value, q);
      }
    }

    /** The queries on a port, which the two others of the five are from the start. */
    method AskPort(pp: PortInfo, q: Query) returns (r: Option<PortInfo>)
      requires Ready() && pp in reg.locals
      modifies reg`book, reg`clean, reg.rportsTable, reg.owner.Keys, reg.book.objs`adapt
      ensures Ready() && (reg.clean ==> old(reg.clean)) && IsAnswer(reg.book, pp, q, r)
      ensures forall o :: o in reg.book.objs ==> o in old(reg.book.objs) || fresh(o)
      ensures reg.clean && DistinctKeys(reg.locals) ==> RecordOf(r) == FromScratch(reg.listing, pp.PortKey(), q)
      ensures reg.ample ==> reg.clean == old(reg.clean)
    {
      assert ReadyInFull(0);
      reg.TableOfLocal(pp);
      r := Find(pp, q);
      reg.ServedIsAnswer(pp, q, r);
    }

    // A query of the registry leaves the adapters alone.
    method Find(pp: PortInfo, q: Query) returns (r: Option<PortInfo>)
      requires Ready() && pp in reg.locals
      modifies reg`book, reg`clean, reg.rportsTable, pp.rports, reg.book.objs`adapt
      ensures Ready() && reg.Served(pp, q, r) && (reg.clean ==> old(reg.clean) && reg.IsScanned())
      ensures forall o :: o in reg.book.objs ==> o in old(reg.book.objs) || fresh(o)
      ensures reg.ample ==> reg.clean == old(reg.clean)
    {
      assert ReadyInFull(0);
      r := FindApart(pp, q);
    }

    method FindApart(pp: PortInfo, q: Query) returns (r: Option<PortInfo>)
      requires Valid() && reg.Valid() && Apart() && pp in reg.locals
      modifies reg`book, reg`clean, reg.rportsTable, pp.rports, reg.book.objs`adapt
      ensures Valid() && reg.Valid()
      ensures reg.Served(pp, q, r) && (reg.clean ==> old(reg.clean) && reg.IsScanned())
      ensures forall o :: o in reg.book.objs ==> o in old(reg.book.objs) || fresh(o)
      ensures reg.ample ==> reg.clean == old(reg.clean)
    {
      reg.TableOfLocal(pp);
      r := FindInRegistry(pp, q);
    }

    method FindInRegistry(pp: PortInfo, q: Query) returns (r: Option<PortInfo>)
      requires PortsShow() && reg.Valid() && pp in reg.locals
      requires forall i :: 0 <= i < |tables| ==> tables[i] != reg.rportsTable && tables[i] != pp.rports
      modifies reg`book, reg`clean, reg.rportsTable, pp.rports, reg.book.objs`adapt
      ensures PortsShow()
      ensures reg.Valid() && reg.Served(pp, q, r) && (reg.clean ==> old(reg.clean) && reg.IsScanned())
      ensures forall o :: o in reg.book.objs ==> o in old(reg.book.objs) || fresh(o)
      ensures reg.ample ==> reg.clean == old(reg.clean)
    {
      ghost var gs, ok;
      r, gs, ok := reg.FindRport(pp, q);
    }

    // ---- loading ----

    // A new adapter with one local port in slot 0, if there is memory.
    static method MakeHost(kern: u32, name: HostName, attr: Attr, memory: bool) returns (ok: bool, ap: AdapterInfo, pp: PortInfo)
      ensures fresh(ap) && fresh(ap.ports) && fresh(pp) && fresh(pp.rports)
      ensures ap.ports != pp.rports
      ensures ap.kernIndex == kern && ap.name == name && ap.nodeWwn == attr.nodeWwn && ap.ports.Valid()
      ensures pp.PortKey() == Key(kern, 0) && pp.attr == attr && pp.adapt == ap
      ensures pp.rports.Valid() && pp.rports.Slots() == []
      ensures ap.ports.Slots() == (if ok then [Some(pp)] else []) && ok == memory
    {
      ap := new AdapterInfo(kern, name, attr.nodeWwn);
      pp := new PortInfo(Key(kern, 0), 0, 0, attr, ap);
      assert pp.Record().attr == attr && pp.Record().key == pp.PortKey();
      var r, _ := ap.ports.Insert(0, Some(pp), memory);
      ok := r >= 0;
    }

    /** The end of the scan of one host: the new adapter goes to the table, and its port joins
        the registry's local ports. Every invariant is kept, so every state reached by loading
        hosts and asking queries has them. */
    method AddHost(kern: u32, ifname: IfName, attr: Attr) returns (status: Status, ap: AdapterInfo, pp: PortInfo)
      requires Ready() && |adapters| < INDEX_LIMIT
      modifies `adapters, `tables, `ports, adapterTable, reg`locals, reg`owner, reg`book, reg`clean
      ensures Ready() && fresh(ap) && fresh(pp) && reg.clean == old(reg.clean) && reg.book.objs == old(reg.book.objs)
      ensures forall t :: t in reg.owner ==> t in old(reg.owner) || fresh(t)
      ensures adapters == old(adapters) + (if status == Ok then [ap] else [])
      ensures reg.locals == if status == Ok then old(reg.locals) + {pp} else old(reg.locals)
      ensures ap.kernIndex == kern && ap.name == NameOfHost(ifname) && ap.nodeWwn == attr.nodeWwn
      ensures pp.PortKey() == Key(kern, 0) && pp.attr == attr
      ensures ports == old(ports) + (if status == Ok then [[Some(pp)]] else [])
      ensures reg.ample ==> status == Ok
      ensures status == Ok || status == Error
    {
      assert ReadyInFull(0);
      var memory: bool :| reg.ample ==> memory;
      var ok;
      ok, ap, pp := MakeHost(kern, NameOfHost(ifname), attr, memory);
      if !ok {
        return Error, ap, pp;
      }
      status := Join(ap, pp);
    }

    // The new adapter enters the table and its port the registry.
    method Join(ap: AdapterInfo, pp: PortInfo) returns (status: Status)
      requires Ready() && |adapters| < INDEX_LIMIT
      requires ap !in adapters && ap.ports.Valid() && ap.ports.Slots() == [Some(pp)] && pp.adapt == ap
      requires ap.ports != reg.rportsTable && ap.ports !in reg.owner && ap.ports as object != adapterTable
      requires reg.NewLocal(pp) && pp.rports != ap.ports && pp.rports as object != adapterTable
      requires pp.rports !in tables
      modifies `adapters, `tables, `ports, adapterTable, ap`adIndex, reg`locals, reg`owner, reg`book, reg`clean
      ensures Ready() && reg.clean == old(reg.clean) && reg.book.objs == old(reg.book.objs)
      ensures forall t :: t in reg.owner ==> t in old(reg.owner) || t == pp.rports
      ensures adapters == old(adapters) + (if status == Ok then [ap] else [])
      ensures ports == old(ports) + (if status == Ok then [[Some(pp)]] else [])
      ensures reg.locals == if status == Ok then old(reg.locals) + {pp} else old(reg.locals)
      ensures reg.ample ==> status == Ok
      ensures status == Ok || status == Error
    {
      assert ReadyInFull(0);
      status := Create(ap);
      if status == Ok {
        Register(pp);
      }
    }

    ghost method Register(pp: PortInfo)
      requires Valid() && reg.Valid() && Apart()
      requires reg.NewLocal(pp) && pp.rports as object != adapterTable && pp.rports !in tables
      modifies reg`locals, reg`owner, reg`book, reg`clean
      ensures Valid() && reg.Valid() && Apart() && reg.clean == old(reg.clean) && reg.locals == old(reg.locals) + {pp}
      ensures reg.book.objs == old(reg.book.objs) && reg.owner == old(reg.owner)[pp.rports := pp]
    {
      reg.AddLocal(pp);
    }

    // ---- unloading ----

    /** Every adapter is freed once, in order, with its ports, and the table is emptied. The
        registry is not touched: the remote ports and the claims on them stay. */
    method DestroyAll() returns (freed: seq<AdapterInfo>)
      requires Valid()
      modifies `adapters, `tables, `ports, adapterTable, tables
      ensures Valid() && adapters == [] && freed == old(adapters)
    {
      freed := [];
      for i := 0 to adapterTable.stLimit
        invariant adapters == old(adapters) && tables == old(tables) && |tables| == |adapters|
        invariant |adapterTable.stTable| == old(|adapterTable.stTable|) && adapterTable.Valid()
        invariant |adapterTable.Slots()| == |adapters| >= i && freed == adapters[..i]
        invariant forall k :: 0 <= k < |adapters| ==> adapterTable.Slots()[k] == Some(adapters[k])
        invariant forall k :: i <= k < |tables| ==> tables[k].Valid() && adapters[k].ports == tables[k]
      {
        var slot := adapterTable.stTable[i];
        assert slot == Some(adapters[i]);
        if slot.Some? {
          assert slot.value.ports == tables[i];
          var rps := slot.value.ports.DestroyAll();
          freed := freed + [slot.value];
        }
      }
      adapterTable.Destroy();
      adapters, tables, ports := [], [], [];
    }
  }
}
