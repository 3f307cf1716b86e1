/** bind.c: the FCP target mapping, built from a directory of SCSI devices. */
module TargetMapping {
  import opened Wrappers
  import opened CText
  import opened SaTables
  import opened Rports
  import opened Ports
  import opened Books
  import opened Registry
  import opened Adapters
  import DeviceId
  import SafeCopy

  const ANY: u32 := 0xFFFF_FFFF   // -1: no restriction on this number
  const PATH_ROOM: nat := 49      // char name[50] less the terminator
  const SG_ROOM: nat := 32        // char oc_sg[32]
  const LUID_SIZE: nat := 256

  // ---- directory names ----

  datatype Address = Address(hba: u32, port: u32, target: u32, lun: u32)

  // "%u:%u:%u:%u"
  const LUN: seq<Directive> := [Unsigned32(10)]
  const TARGET_LUN: seq<Directive> := [Unsigned32(10), Literal(':')] + LUN
  const PORT_TARGET_LUN: seq<Directive> := [Unsigned32(10), Literal(':')] + TARGET_LUN
  const LUN_FORMAT: seq<Directive> := [Unsigned32(10), Literal(':')] + PORT_TARGET_LUN

  lemma FourNumbers()
    ensures Conversions(LUN_FORMAT) == 4 && Separated(LUN_FORMAT, 10)
  {
    FormatField(10, ':', LUN);
    FormatField(10, ':', TARGET_LUN);
    FormatField(10, ':', PORT_TARGET_LUN);
  }

  function ParseName(name: string): Option<Address> {
    var v := Sscanf(LUN_FORMAT, name);
    if |v| == 4 then Some(Address(v[0], v[1], v[2], v[3])) else None
  }

  function PrintName(a: Address): string {
    FourNumbers();
    Text(LUN_FORMAT, [Decimal(a.hba), Decimal(a.port), Decimal(a.target), Decimal(a.lun)])
  }

  /** A printed address parses to itself. */
  lemma PrintedNameParses(a: Address)
    ensures ParseName(PrintName(a)) == Some(a)
  {
    var digits := [Decimal(a.hba), Decimal(a.port), Decimal(a.target), Decimal(a.lun)];
    FourNumbers();
    SscanfText(LUN_FORMAT, 10, digits, "");
    assert PrintName(a) + "" == PrintName(a);
  }

  predicate NameMatches(filter: Address, name: string) {
    var a := ParseName(name);
    a.Some? && a.value.hba == filter.hba &&
    (a.value.port == filter.port || filter.port == ANY) &&
    (a.value.target == filter.target || filter.target == ANY) &&
    (a.value.lun == filter.lun || filter.lun == ANY)
  }

  /** A printed name has its four numbers in order, with colons between them. */
  lemma PrintedNameText(a: Address)
    ensures PrintName(a) == Decimal(a.hba) + ":" + Decimal(a.port) + ":" + Decimal(a.target) + ":" + Decimal(a.lun)
  {
    var h, p, t, l := Decimal(a.hba), Decimal(a.port), Decimal(a.target), Decimal(a.lun);
    FourNumbers();
    TextOfLast(10, l);
    TextOfField(10, ':', LUN, t, [l]);
    assert [t] + [l] == [t, l];
    TextOfField(10, ':', TARGET_LUN, p, [t, l]);
    assert [p] + [t, l] == [p, t, l];
    TextOfField(10, ':', PORT_TARGET_LUN, h, [p, t, l]);
    assert [h] + [p, t, l] == [h, p, t, l];
  }

  /** All ones in the other numbers of a filter select every name of the host, or of the host
      and port. */
  lemma HostFilter(host: u32, name: string)
    ensures NameMatches(Address(host, 0xFFFF_FFFF, 0xFFFF_FFFF, 0xFFFF_FFFF), name) <==>
              ParseName(name).Some? && ParseName(name).value.hba == host
  {}

  lemma PortFilter(host: u32, port: u32, name: string)
    requires port != 0xFFFF_FFFF
    ensures NameMatches(Address(host, port, 0xFFFF_FFFF, 0xFFFF_FFFF), name) <==>
              ParseName(name).Some? && ParseName(name).value.hba == host && ParseName(name).value.port == port
  {}

  // The matching names, in the order read.
  function Matching(names: seq<string>, filter: Address): (ms: seq<string>)
    ensures |ms| <= |names|
  {
    if names == [] then []
    else
      var n := |names| - 1;
      Matching(names[..n], filter) + if NameMatches(filter, names[n]) then [names[n]] else []
  }

  lemma MatchingNext(names: seq<string>, i: nat, filter: Address)
    requires i < |names|
    ensures names[..i + 1] == names[..i] + [names[i]]
    ensures Matching(names[..i + 1], filter) ==
              Matching(names[..i], filter) + if NameMatches(filter, names[i]) then [names[i]] else []
  {
    assert names[..i + 1][..i] == names[..i];
  }

  lemma {:induction false} MatchingIsFilter(names: seq<string>, filter: Address, name: string)
    ensures name in Matching(names, filter) <==> name in names && NameMatches(filter, name)
    ensures multiset(Matching(names, filter))[name] == if NameMatches(filter, name) then multiset(names)[name] else 0
  {
    if names != [] {
      var n := |names| - 1;
      MatchingIsFilter(names[..n], filter, name);
      assert names == names[..n] + [names[n]];
    }
  }

  // The names of a directory of units.
  function PrintAll(units: seq<Address>): (names: seq<string>)
    ensures |names| == |units| && forall i :: 0 <= i < |units| ==> names[i] == PrintName(units[i])
  {
    seq(|units|, i requires 0 <= i < |units| => PrintName(units[i]))
  }

  // The units of a host, and of a port of it, in the order of the directory.
  function OfHost(units: seq<Address>, host: u32): seq<Address> {
    if units == [] then []
    else
      var n := |units| - 1;
      OfHost(units[..n], host) + if units[n].hba == host then [units[n]] else []
  }

  function OfPort(units: seq<Address>, host: u32, port: u32): seq<Address> {
    if units == [] then []
    else
      var n := |units| - 1;
      OfPort(units[..n], host, port) + if units[n].hba == host && units[n].port == port then [units[n]] else []
  }

  lemma PrintAllNext(units: seq<Address>, us: seq<Address>)
    requires units != []
    ensures PrintAll(units) == PrintAll(units[..|units| - 1]) + [PrintName(units[|units| - 1])]
    ensures PrintAll(us + [units[|units| - 1]]) == PrintAll(us) + [PrintName(units[|units| - 1])]
  {}

  /** The matches of a call that asks for a host are the names of all its units. */
  lemma {:induction false} HostMatches(units: seq<Address>, host: u32)
    ensures Matching(PrintAll(units), Address(host, 0xFFFF_FFFF, 0xFFFF_FFFF, 0xFFFF_FFFF)) == PrintAll(OfHost(units, host))
  {
    if units != [] {
      var n := |units| - 1;
      HostMatches(units[..n], host);
      HostFilter(host, PrintName(units[n]));
      PrintedNameParses(units[n]);
      PrintAllNext(units, OfHost(units[..n], host));
      MatchingNext(PrintAll(units), n, Address(host, 0xFFFF_FFFF, 0xFFFF_FFFF, 0xFFFF_FFFF));
    }
  }

  /** The matches of a call that asks for a port of a host are the names of its units. */
  lemma {:induction false} PortMatches(units: seq<Address>, host: u32, port: u32)
    requires port != 0xFFFF_FFFF
    ensures Matching(PrintAll(units), Address(host, port, 0xFFFF_FFFF, 0xFFFF_FFFF)) == PrintAll(OfPort(units, host, port))
  {
    if units != [] {
      var n := |units| - 1;
      PortMatches(units[..n], host, port);
      PortFilter(host, port, PrintName(units[n]));
      PrintedNameParses(units[n]);
      PrintAllNext(units, OfPort(units[..n], host, port));
      MatchingNext(PrintAll(units), n, Address(host, port, 0xFFFF_FFFF, 0xFFFF_FFFF));
    }
  }

  /** Without a wildcard a name matches only if it holds exactly the filter's four numbers. */
  lemma ExactFilter(filter: Address, name: string)
    requires filter.port != ANY && filter.target != ANY && filter.lun != ANY
    ensures NameMatches(filter, name) <==> ParseName(name) == Some(filter)
  {}

  // ---- what an entry describes ----

  datatype FcpId = FcpId(fcId: u32, nodeWwn: Wwn, portWwn: Wwn, lun: nat)

  datatype Entry = Entry(osName: string, bus: u32, target: u32, lun: u32, fcp: FcpId, luid: seq<DeviceId.byte>)

  const ZERO_ENTRY := Entry("", 0, 0, 0, FcpId(0, 0, 0, 0), DeviceId.Zeros(LUID_SIZE))

  // The names found in a device's directory.
  datatype DeviceNames = DeviceNames(osName: string, sgName: string)

  datatype Version = V1 | V2

  // The surroundings of one call: what each device directory holds and how each generic device
  // replies to the inquiry.
  datatype Surroundings = Surroundings(devices: map<string, DeviceNames>, replies: map<string, DeviceId.Reply>)
  {
    function Device(path: string): DeviceNames {
      if path in devices then devices[path] else DeviceNames("", "")
    }

    function Reply(sg: string): DeviceId.Reply {
      if sg in replies then replies[sg] else DeviceId.OpenFailed
    }

    // Generic names fit the buffer, and residuals are within the transfer length.
    predicate Sane() {
      (forall path :: path in devices ==> |devices[path].sgName| < SG_ROOM && SafeCopy.NUL !in devices[path].sgName) &&
      (forall sg :: sg in replies ==> replies[sg].Completed? ==> replies[sg].resid <= DeviceId.INQUIRY_MAX)
    }
  }

  type World = s: Surroundings | s.Sane() witness Surroundings(map[], map[])

  // The path of a device directory, cut to its buffer.
  function DevicePath(name: string): string {
    Cut("/sys/class/scsi_device/" + name + "/device", PATH_ROOM)
  }

  function SgName(w: World, name: string): string {
    w.Device(DevicePath(name)).sgName
  }

  function FcpOf(rp: Option<Rec>, lun: u32): FcpId {
    if rp.Some? then FcpId(rp.value.attr.fcId, rp.value.attr.nodeWwn, rp.value.attr.portWwn, lun)
    else FcpId(0, 0, 0, 0)
  }

  /** The path of a device is whole for every name of up to 19 characters; longer names are cut
      but still have paths of their own up to 26 characters. */
  lemma DevicePaths(name: string, other: string)
    requires |name| <= 26 && |other| <= 26 && '/' !in name && '/' !in other
    ensures |name| <= 19 ==> DevicePath(name) == "/sys/class/scsi_device/" + name + "/device"
    ensures DevicePath(name) == DevicePath(other) ==> name == other
  {
    PathHasName(name);
    PathHasName(other);
  }

  lemma PathHasName(name: string)
    requires |name| <= 26
    ensures var path := DevicePath(name);
            |path| >= 23 + |name| && path[23..23 + |name|] == name && (|name| < 26 ==> |path| > 23 + |name| && path[23 + |name|] == '/')
  {
    var root, whole := "/sys/class/scsi_device/", "/sys/class/scsi_device/" + name + "/device";
    assert |root| == 23 && whole[23..23 + |name|] == name && whole[23 + |name|] == '/';
  }

  // What the inquiry leaves in the identifier buffer; version 1 has none.
  function LuidOf(w: World, version: Version, sg: string): (luid: seq<DeviceId.byte>)
    ensures |luid| == LUID_SIZE
  {
    if version == V1 || sg == "" then DeviceId.Zeros(LUID_SIZE)
    else
      var reply := w.Reply(sg);
      DeviceId.DevId(DeviceId.Filled(DeviceId.Zeros(LUID_SIZE), DeviceId.INQUIRY_MAX, reply),
                     DeviceId.Got(DeviceId.INQUIRY_MAX, reply))
  }

  /** The entry for a name: its remote port, its device names, its numbers and, in version 2,
      its device identifier. */
  function Describe(w: World, version: Version, rp: Option<Rec>, name: string): Entry
    requires ParseName(name).Some?
  {
    var a := ParseName(name).value;
    Entry(w.Device(DevicePath(name)).osName, a.hba, a.target, a.lun, FcpOf(rp, a.lun), LuidOf(w, version, SgName(w, name)))
  }

  // ---- the reader ----

  // What a reader should hold after these matches, given the remote ports that were found for
  // the first of them: the count, the entries it has room for, the other entries as before,
  // and the last generic name it looked up.
  ghost predicate Described(w: World, version: Version, rps: seq<Option<Rec>>, limit: nat, ms: seq<string>,
                            before: seq<Entry>, now: seq<Entry>, count: nat, sg: string)
  {
    && limit <= |now| == |before| && count == |ms| && |rps| == AtMost(|ms|, limit)
    && (forall k :: 0 <= k < |ms| ==> ParseName(ms[k]).Some?)
    && (forall k :: 0 <= k < |rps| ==> now[k] == Describe(w, version, rps[k], ms[k]))
    && (forall k :: |rps| <= k < |now| ==> now[k] == before[k])
    && (rps != [] ==> sg == SgName(w, ms[|rps| - 1]))
  }

  // One more match, and the remote port found for it, when there is room...
  lemma DescribedStep(w: World, version: Version, rps: seq<Option<Rec>>, limit: nat, ms: seq<string>, name: string,
                      rp: Option<Rec>, before: seq<Entry>, now: seq<Entry>, sg: string)
    requires Described(w, version, rps, limit, ms, before, now, |ms|, sg) && ParseName(name).Some? && |ms| < limit
    ensures Described(w, version, rps + [rp], limit, ms + [name], before,
                      now[|ms| := Describe(w, version, rp, name)], |ms| + 1, SgName(w, name))
  {
    var ms' := ms + [name];
    assert forall k :: 0 <= k < |ms| ==> ms'[k] == ms[k];
    assert ms'[|ms|] == name;
  }

  // ...and when there is none.
  lemma DescribedFull(w: World, version: Version, rps: seq<Option<Rec>>, limit: nat, ms: seq<string>, name: string,
                      before: seq<Entry>, now: seq<Entry>, sg: string)
    requires Described(w, version, rps, limit, ms, before, now, |ms|, sg) && ParseName(name).Some? && |ms| >= limit
    ensures Described(w, version, rps, limit, ms + [name], before, now, |ms| + 1, sg)
  {
    assert forall k :: 0 <= k < |ms| ==> (ms + [name])[k] == ms[k];
  }

  lemma DescribedFirst(w: World, version: Version, rps: seq<Option<Rec>>, ms: seq<string>,
                       before: seq<Entry>, now: seq<Entry>, count: nat, sg: string)
    requires Described(w, version, rps, 1, ms, before, now, count, sg)
    ensures count == |ms| && (count >= 1 ==> sg == SgName(w, ms[0]))
  {}

  /** The remote ports found for these matches are those computed from the sysfs directory: for
      the local port of the handle and the port number of the name, the one with the target
      number of the name; none when there is no such local port. */
  predicate FoundFor(listing: seq<DirEntry>, ports: seq<seq<Option<PortInfo>>>, handle: u32, ms: seq<string>,
                     rps: seq<Option<Rec>>)
  {
    |rps| <= |ms| && forall k :: 0 <= k < |rps| ==> rps[k] == RemoteOf(listing, ports, handle, ms[k])
  }

  // One more match; its remote port counts when there is room for it.
  lemma FoundForNext(listing: seq<DirEntry>, ports: seq<seq<Option<PortInfo>>>, handle: u32, ms: seq<string>,
                     rps: seq<Option<Rec>>, limit: nat, name: string, rp: Option<Rec>)
    requires FoundFor(listing, ports, handle, ms, rps) && |rps| == AtMost(|ms|, limit)
    requires |ms| < limit ==> rp == RemoteOf(listing, ports, handle, name)
    ensures FoundFor(listing, ports, handle, ms + [name], if |ms| < limit then rps + [rp] else rps)
  {
    var ms' := ms + [name];
    assert forall k :: 0 <= k < |ms| ==> ms'[k] == ms[k];
    assert ms'[|ms|] == name;
  }

  function RemoteOf(listing: seq<DirEntry>, ports: seq<seq<Option<PortInfo>>>, handle: u32, name: string): Option<Rec> {
    var a := ParseName(name);
    if a.None? then None
    else ScratchAt(listing, KeyIn(ports, handle, a.value.port), ByTarget(a.value.target))
  }

  // struct binding_context
  class BindingContext {
    const filter: Address
    const limit: nat
    const version: Version
    const entries: array<Entry>
    const rport: Option<PortInfo>
    const lib: AdapterLib
    const handle: u32
    const world: World
    var count: nat
    var sg: string
    ghost var rps: seq<Option<Rec>>   // the remote ports found so far

    constructor (filter: Address, limit: nat, version: Version, entries: array<Entry>, rport: Option<PortInfo>,
                 lib: AdapterLib, handle: u32, world: World)
      requires limit <= entries.Length
      ensures this.filter == filter && this.limit == limit && this.version == version && this.entries == entries
      ensures this.rport == rport && this.lib == lib && this.handle == handle && this.world == world
      ensures count == 0 && sg == "" && rps == []
    {
      this.filter, this.limit, this.version, this.entries := filter, limit, version, entries;
      this.rport, this.lib, this.handle, this.world, count, sg, rps := rport, lib, handle, world, 0, "", [];
    }

    // What the context holds after these matches, given the entries before.
    ghost predicate Holds(ms: seq<string>, before: seq<Entry>)
      reads this, entries
    {
      Described(world, version, rps, limit, ms, before, entries[..], count, sg)
    }

    // What is known of the remote ports found for these matches.
    ghost predicate Found(ms: seq<string>)
      reads `rps, lib`ports, lib.reg`clean, lib.reg`locals
    {
      rport.None? && lib.reg.clean && DistinctKeys(lib.reg.locals) ==>
        FoundFor(lib.reg.listing, lib.ports, handle, ms, rps)
    }

    /** One directory entry: counted when its name matches, described when there is room. */
    method Visit(name: string, ghost ms: seq<string>, ghost before: seq<Entry>)
      requires Holds(ms, before) && Found(ms) && lib.Ready()
      modifies this, entries, lib.reg`book, lib.reg`clean, lib.reg.rportsTable, lib.reg.owner.Keys, lib.reg.book.objs`adapt
      ensures var ms' := ms + (if NameMatches(filter, name) then [name] else []); Holds(ms', before) && Found(ms')
      ensures lib.Ready() && (rport.Some? ==> lib.reg.book == old(lib.reg.book) && lib.reg.clean == old(lib.reg.clean))
      ensures forall o :: o in lib.reg.book.objs ==> o in old(lib.reg.book.objs) || fresh(o)
      ensures lib.reg.ample ==> lib.reg.clean == old(lib.reg.clean)
    {
      assert ms + [] == ms;
      var v := Sscanf(LUN_FORMAT, name);
      if |v| != 4 {
        return;
      }
      var a := Address(v[0], v[1], v[2], v[3]);
      if a.hba != filter.hba || (a.port != filter.port && filter.port != ANY) ||
         (a.target != filter.target && filter.target != ANY) || (a.lun != filter.lun && filter.lun != ANY) {
        return;
      }
      Match(name, a, ms, before);
    }

    // A matching name.
    method Match(name: string, a: Address, ghost ms: seq<string>, ghost before: seq<Entry>)
      requires Holds(ms, before) && Found(ms) && lib.Ready() && ParseName(name) == Some(a)
      modifies this, entries, lib.reg`book, lib.reg`clean, lib.reg.rportsTable, lib.reg.owner.Keys, lib.reg.book.objs`adapt
      ensures Holds(ms + [name], before) && Found(ms + [name])
      ensures lib.Ready() && (rport.Some? ==> lib.reg.book == old(lib.reg.book) && lib.reg.clean == old(lib.reg.clean))
      ensures forall o :: o in lib.reg.book.objs ==> o in old(lib.reg.book.objs) || fresh(o)
      ensures lib.reg.ample ==> lib.reg.clean == old(lib.reg.clean)
    {
      var rp := None;
      if count < limit {
        rp := Remote(a);
      }
      if rport.None? && lib.reg.clean && DistinctKeys(lib.reg.locals) {
        FoundForNext(lib.reg.listing, lib.ports, handle, ms, rps, limit, name, rp);
      }
      PutApart(name, a, rp, ms, before);
    }

    // The context and its entries are apart from the library.
    method PutApart(name: string, a: Address, rp: Option<Rec>, ghost ms: seq<string>, ghost before: seq<Entry>)
      requires Holds(ms, before) && ParseName(name) == Some(a) && lib.Ready()
      modifies this, entries
      ensures Holds(ms + [name], before) && lib.Ready()
      ensures rps == if old(count) < limit then old(rps) + [rp] else old(rps)
    {
      Put(name, a, rp, ms, before);
    }

    // The match with its remote port, as far as the context is concerned.
    method Put(name: string, a: Address, rp: Option<Rec>, ghost ms: seq<string>, ghost before: seq<Entry>)
      requires Holds(ms, before) && ParseName(name) == Some(a)
      modifies this, entries
      ensures Holds(ms + [name], before)
      ensures rps == if old(count) < limit then old(rps) + [rp] else old(rps)
    {
      if count < limit {
        DescribedStep(world, version, rps, limit, ms, name, rp, before, entries[..], sg);
      } else {
        DescribedFull(world, version, rps, limit, ms, name, before, entries[..], sg);
      }
      Add(name, a, rp);
    }

    /** The remote port of an entry: the given one, or the answer for its port and target. */
    method Remote(a: Address) returns (rp: Option<Rec>)
      requires lib.Ready()
      modifies lib.reg`book, lib.reg`clean, lib.reg.rportsTable, lib.reg.owner.Keys, lib.reg.book.objs`adapt
      ensures lib.Ready() && (rport.Some? ==> lib.reg.book == old(lib.reg.book) && lib.reg.clean == old(lib.reg.clean))
      ensures forall o :: o in lib.reg.book.objs ==> o in old(lib.reg.book.objs) || fresh(o)
      ensures count == old(count) && sg == old(sg) && rps == old(rps) && entries[..] == old(entries[..])
      ensures lib.reg.clean ==> old(lib.reg.clean)
      ensures rport.Some? ==> rp == RecordOf(rport)
      ensures rport.None? && lib.reg.clean && DistinctKeys(lib.reg.locals) ==>
                rp == ScratchAt(lib.reg.listing, KeyIn(lib.ports, handle, a.port), ByTarget(a.target))
      ensures lib.reg.ample ==> lib.reg.clean == old(lib.reg.clean)
    {
      var pp := rport;
      if pp.None? {
        pp := lib.GetRport(handle, a.port, ByTarget(a.target));
      }
      rp := RecordOf(pp);
    }

    // What the matching name adds: an entry, when there is room, and one to the count.
    method Add(name: string, a: Address, rp: Option<Rec>)
      requires limit <= entries.Length && ParseName(name) == Some(a)
      modifies this, entries
      ensures count == old(count) + 1
      ensures entries[..] == if old(count) < limit then old(entries[..])[old(count) := Describe(world, version, rp, name)]
                             else old(entries[..])
      ensures sg == if old(count) < limit then SgName(world, name) else old(sg)
      ensures rps == if old(count) < limit then old(rps) + [rp] else old(rps)
    {
      if count < limit {
        var fcp := FcpId(0, 0, 0, 0);
        if rp.Some? {
          var attr := rp.value.attr;
          fcp := FcpId(attr.fcId, attr.nodeWwn, attr.portWwn, a.lun);
        }
        var device := world.Device(DevicePath(name));
        sg := device.sgName;
        var luid := Identify(sg);
        entries[count] := Entry(device.osName, a.hba, a.target, a.lun, fcp, luid);
        rps := rps + [rp];
      }
      count := count + 1;
    }

    // The identifier of a generic device, through a buffer of its own.
    method Identify(sgName: string) returns (luid: seq<DeviceId.byte>)
      ensures luid == LuidOf(world, version, sgName)
    {
      luid := DeviceId.Zeros(LUID_SIZE);
      if version == V2 && sgName != "" {
        var buf := new DeviceId.byte[LUID_SIZE];
        DeviceId.GetDevId(buf, world.Reply(sgName));
        luid := buf[..];
      }
    }

    // The directory reader skips the names of the directory itself and of its parent.
    method ReadEntry(name: string, ghost ms: seq<string>, ghost before: seq<Entry>)
      requires Holds(ms, before) && Found(ms) && lib.Ready()
      modifies this, entries, lib.reg`book, lib.reg`clean, lib.reg.rportsTable, lib.reg.owner.Keys, lib.reg.book.objs`adapt
      ensures var ms' := ms + (if NameMatches(filter, name) then [name] else []); Holds(ms', before) && Found(ms')
      ensures lib.Ready() && (rport.Some? ==> lib.reg.book == old(lib.reg.book) && lib.reg.clean == old(lib.reg.clean))
      ensures forall o :: o in lib.reg.book.objs ==> o in old(lib.reg.book.objs) || fresh(o)
      ensures lib.reg.ample ==> lib.reg.clean == old(lib.reg.clean)
    {
      if name == "." || name == ".." {
        DotsDoNotMatch(name);
        assert ms + [] == ms;
      } else {
        Visit(name, ms, before);
      }
    }

    /** The whole directory. */
    method ReadDir(names: seq<string>)
      requires count == 0 && sg == "" && rps == [] && limit <= entries.Length && lib.Ready()
      modifies this, entries, lib.reg`book, lib.reg`clean, lib.reg.rportsTable, lib.reg.owner.Keys, lib.reg.book.objs`adapt
      ensures Holds(Matching(names, filter), old(entries[..])) && Found(Matching(names, filter))
      ensures lib.Ready() && (rport.Some? ==> lib.reg.book == old(lib.reg.book) && lib.reg.clean == old(lib.reg.clean))
      ensures forall o :: o in lib.reg.book.objs ==> o in old(lib.reg.book.objs) || fresh(o)
      ensures lib.reg.ample ==> lib.reg.clean == old(lib.reg.clean)
    {
      ghost var before, ms := entries[..], Matching(names[..0], filter);
      for i := 0 to |names|
        invariant ms == Matching(names[..i], filter)
        invariant Holds(ms, before) && Found(ms)
        invariant lib.Ready() && (rport.Some? ==> lib.reg.book == old(lib.reg.book) && lib.reg.clean == old(lib.reg.clean))
        invariant lib.reg.ample ==> lib.reg.clean == old(lib.reg.clean)
        invariant forall o :: o in lib.reg.book.objs ==> o in old(lib.reg.book.objs) || fresh(o)
      {
        assert forall k :: 0 <= k < |lib.reg.book.objs| ==>
                 lib.reg.book.objs[k] in old(lib.reg.book.objs) || fresh(lib.reg.book.objs[k]);
        ReadEntry(names[i], ms, before);
        MatchingNext(names, i, filter);
        ms := Matching(names[..i + 1], filter);
      }
      assert names[..|names|] == names;
    }
  }

  lemma DotsDoNotMatch(name: string)
    requires name == "." || name == ".."
    ensures ParseName(name).None?
  {
    assert !IsDigit('.', 10);
    assert SkipSpace(name) == name;
    assert DigitRun(name, 10) == 0;
    assert ScanNumber(name, 10).None?;
  }

  // ---- the callers ----

  /** What a mapping call leaves, for the remote ports found: the total, the first matches in
      order, zeros up to the limit and nothing changed beyond it; MORE_DATA exactly when they
      did not all fit. */
  ghost predicate IsMapping(w: World, version: Version, names: seq<string>, filter: Address, limit: nat,
                            rps: seq<Option<Rec>>, before: seq<Entry>, after: seq<Entry>, total: nat, status: Status)
    requires limit <= |before| == |after|
  {
    var ms := Matching(names, filter);
    && total == |ms| && status == (if total > limit then MoreData else Ok) && |rps| == AtMost(total, limit)
    && (forall k :: 0 <= k < |rps| ==> ParseName(ms[k]).Some? && after[k] == Describe(w, version, rps[k], ms[k]))
    && (forall k :: |rps| <= k < limit ==> after[k] == ZERO_ENTRY)
    && (forall k :: limit <= k < |after| ==> after[k] == before[k])
  }

  // The part the two callers share: clear the entries, read the directory, compare the count.
  method Build(lib: AdapterLib, handle: u32, w: World, version: Version, names: seq<string>, filter: Address,
               entries: array<Entry>, limit: nat)
    returns (status: Status, total: nat, ghost rps: seq<Option<Rec>>)
    requires limit <= entries.Length && lib.Ready()
    modifies entries, lib.reg`book, lib.reg`clean, lib.reg.rportsTable, lib.reg.owner.Keys, lib.reg.book.objs`adapt
    ensures IsMapping(w, version, names, filter, limit, rps, old(entries[..]), entries[..], total, status)
    ensures lib.Ready() && forall o :: o in lib.reg.book.objs ==> o in old(lib.reg.book.objs) || fresh(o)
    ensures lib.reg.clean && DistinctKeys(lib.reg.locals) ==>
              FoundFor(lib.reg.listing, lib.ports, handle, Matching(names, filter), rps)
    ensures lib.reg.ample ==> lib.reg.clean == old(lib.reg.clean)
  {
    Clear(lib, entries, limit);
    ghost var cleared := entries[..];
    var ctxt := new BindingContext(filter, limit, version, entries, None, lib, handle, w);
    ctxt.ReadDir(names);
    total, rps := ctxt.count, ctxt.rps;
    status := if total > limit then MoreData else Ok;
    DescribedIsMapping(w, version, names, filter, limit, rps, old(entries[..]), cleared, entries[..], total, ctxt.sg);
  }

  // The entries up to the limit, which are apart from the library.
  method Clear(lib: AdapterLib, entries: array<Entry>, limit: nat)
    requires limit <= entries.Length && lib.Ready()
    modifies entries
    ensures lib.Ready()
    ensures forall k :: 0 <= k < entries.Length ==> entries[k] == if k < limit then ZERO_ENTRY else old(entries[k])
  {
    forall k | 0 <= k < limit { entries[k] := ZERO_ENTRY; }
  }

  lemma DescribedIsMapping(w: World, version: Version, names: seq<string>, filter: Address, limit: nat,
                           rps: seq<Option<Rec>>, before: seq<Entry>, cleared: seq<Entry>, after: seq<Entry>,
                           total: nat, sg: string)
    requires Described(w, version, rps, limit, Matching(names, filter), cleared, after, total, sg)
    requires |before| == |cleared|
    requires forall k :: 0 <= k < |cleared| ==> cleared[k] == if k < limit then ZERO_ENTRY else before[k]
    ensures IsMapping(w, version, names, filter, limit, rps, before, after, total, if total > limit then MoreData else Ok)
  {}

  /** Version 1: all ports of the adapter's host. */
  method GetTargetMappingV1(lib: AdapterLib, handle: u32, w: World, names: seq<string>, entries: array<Entry>, limit: nat)
    returns (status: Status, total: nat, ghost rps: seq<Option<Rec>>)
    requires limit <= entries.Length && lib.Ready()
    modifies entries, lib.reg`book, lib.reg`clean, lib.reg.rportsTable, lib.reg.owner.Keys, lib.reg.book.objs`adapt
    ensures lib.Ready() && forall o :: o in lib.reg.book.objs ==> o in old(lib.reg.book.objs) || fresh(o)
    ensures !(0x100 <= handle < 0x100 + |lib.adapters|) ==>
              status == InvalidHandle && total == limit && entries[..] == old(entries[..])
    ensures 0x100 <= handle < 0x100 + |lib.adapters| ==>
              var filter := Address(lib.adapters[handle - 0x100].kernIndex, ANY, ANY, ANY);
              && IsMapping(w, V1, names, filter, limit, rps, old(entries[..]), entries[..], total, status)
              && (lib.reg.clean && DistinctKeys(lib.reg.locals) ==>
                    FoundFor(lib.reg.listing, lib.ports, handle, Matching(names, filter), rps))
    ensures lib.reg.ample ==> lib.reg.clean == old(lib.reg.clean)
  {
    assert ReadyInFull(0);
    var ap := lib.OpenHandle(handle);
    if ap.None? {
      return InvalidHandle, limit, [];
    }
    status, total, rps := Build(lib, handle, w, V1, names, Address(ap.value.kernIndex, ANY, ANY, ANY), entries, limit);
  }

  /** Version 2: the one port with the given name. */
  method GetTargetMappingV2(lib: AdapterLib, handle: u32, wwn: Wwn, w: World, names: seq<string>, entries: array<Entry>,
                            limit: nat)
    returns (status: Status, total: nat, ghost pp: Option<PortInfo>, ghost rps: seq<Option<Rec>>)
    requires limit <= entries.Length && lib.Ready()
    modifies entries, lib.reg`book, lib.reg`clean, lib.reg.rportsTable, lib.reg.owner.Keys, lib.reg.book.objs`adapt
    ensures lib.Ready() && forall o :: o in lib.reg.book.objs ==> o in old(lib.reg.book.objs) || fresh(o)
    ensures pp.Some? <==> 0x100 <= handle < 0x100 + |lib.ports| && OneNamed(lib.ports[handle - 0x100], wwn)
    ensures pp.Some? ==> pp in lib.ports[handle - 0x100] && pp.value.attr.portWwn == wwn
    ensures pp.None? || pp.value.adapt == null ==>
              status == InvalidHandle && total == limit && entries[..] == old(entries[..])
    ensures pp.Some? && pp.value.adapt != null ==>
              var filter := Address(pp.value.adapt.kernIndex, pp.value.index, ANY, ANY);
              && IsMapping(w, V2, names, filter, limit, rps, old(entries[..]), entries[..], total, status)
              && (lib.reg.clean && DistinctKeys(lib.reg.locals) ==>
                    FoundFor(lib.reg.listing, lib.ports, handle, Matching(names, filter), rps))
    ensures lib.reg.ample ==> lib.reg.clean == old(lib.reg.clean)
  {
    var found := lib.LocalByWwn(handle, wwn);
    pp, rps := found, [];
    if found.None? || found.value.adapt == null {
      return InvalidHandle, limit, found, [];
    }
    status, total, rps := Build(lib, handle, w, V2, names, Address(found.value.adapt.kernIndex, found.value.index, ANY, ANY),
                                entries, limit);
  }

  // An entry in full: a unit's numbers and device name, the identifiers of its remote port or
  // zeros, and its device identifier.
  ghost predicate IsEntry(w: World, version: Version, e: Entry, u: Address, rp: Option<Rec>) {
    && e.bus == u.hba && e.target == u.target && e.lun == u.lun
    && e.osName == w.Device(DevicePath(PrintName(u))).osName
    && (rp.Some? ==> e.fcp.fcId == rp.value.attr.fcId && e.fcp.nodeWwn == rp.value.attr.nodeWwn &&
                     e.fcp.portWwn == rp.value.attr.portWwn && e.fcp.lun == u.lun)
    && (rp.None? ==> e.fcp.fcId == 0 && e.fcp.nodeWwn == 0 && e.fcp.portWwn == 0 && e.fcp.lun == 0)
    && IsLuid(w, version, e.luid, w.Device(DevicePath(PrintName(u))).sgName)
  }

  // Without a generic device, and in version 1, no identifier; otherwise what the inquiry gives.
  ghost predicate IsLuid(w: World, version: Version, luid: seq<DeviceId.byte>, sg: string) {
    && |luid| == 256
    && (version == V1 || sg == "" ==> AllZero(luid))
    && (version == V2 && sg != "" ==>
          luid == DeviceId.DevId(DeviceId.Filled(DeviceId.Zeros(256), 255, w.Reply(sg)), DeviceId.Got(255, w.Reply(sg))))
  }

  predicate AllZero(s: seq<DeviceId.byte>) {
    forall i :: 0 <= i < |s| ==> s[i] == 0
  }

  predicate Blank(e: Entry) {
    e.osName == "" && e.bus == e.target == e.lun == 0 && e.fcp.fcId == 0 && e.fcp.nodeWwn == 0 && e.fcp.portWwn == 0 &&
    e.fcp.lun == 0 && |e.luid| == 256 && AllZero(e.luid)
  }

  // The result of a call that should find these units, when no allocation fails: their number,
  // the first of them in order, each with the remote port of its port and target, and zeros.
  ghost predicate Maps(w: World, version: Version, us: seq<Address>, limit: nat, after: seq<Entry>, total: nat,
                       status: Status, listing: seq<DirEntry>, ports: seq<seq<Option<PortInfo>>>, handle: u32)
    requires limit <= |after|
  {
    && total == |us| && status == (if |us| > limit then MoreData else Ok)
    && (forall k :: 0 <= k < limit && k < |us| ==>
          IsEntry(w, version, after[k], us[k],
                  ScratchAt(listing, KeyIn(ports, handle, us[k].port), ByTarget(us[k].target))))
    && (forall k :: |us| <= k < limit ==> Blank(after[k]))
  }

  lemma MappingOfUnits(w: World, version: Version, names: seq<string>, us: seq<Address>, filter: Address, limit: nat,
                       rps: seq<Option<Rec>>, before: seq<Entry>, after: seq<Entry>, total: nat, status: Status,
                       listing: seq<DirEntry>, ports: seq<seq<Option<PortInfo>>>, handle: u32)
    requires limit <= |before| == |after| && Matching(names, filter) == PrintAll(us)
    requires IsMapping(w, version, names, filter, limit, rps, before, after, total, status)
    requires FoundFor(listing, ports, handle, Matching(names, filter), rps)
    ensures Maps(w, version, us, limit, after, total, status, listing, ports, handle)
  {
    forall k | 0 <= k < limit && k < |us|
      ensures IsEntry(w, version, after[k], us[k],
                      ScratchAt(listing, KeyIn(ports, handle, us[k].port), ByTarget(us[k].target)))
    {
      PrintedNameParses(us[k]);
      DescribedEntry(w, version, us[k], rps[k]);
    }
  }

  lemma DescribedEntry(w: World, version: Version, u: Address, rp: Option<Rec>)
    requires ParseName(PrintName(u)) == Some(u)
    ensures IsEntry(w, version, Describe(w, version, rp, PrintName(u)), u, rp)
  {
    LuidIs(w, version, w.Device(DevicePath(PrintName(u))).sgName);
  }

  lemma LuidIs(w: World, version: Version, sg: string)
    ensures IsLuid(w, version, LuidOf(w, version, sg), sg)
  {
    assert AllZero(DeviceId.Zeros(LUID_SIZE));
  }

  /** Version 1 on a directory of units: those of the adapter's host. */
  lemma MappingOfHost(w: World, units: seq<Address>, host: u32, limit: nat, rps: seq<Option<Rec>>, before: seq<Entry>,
                      after: seq<Entry>, total: nat, status: Status, listing: seq<DirEntry>,
                      ports: seq<seq<Option<PortInfo>>>, handle: u32)
    requires limit <= |before| == |after|
    requires IsMapping(w, V1, PrintAll(units), Address(host, ANY, ANY, ANY), limit, rps, before, after, total, status)
    requires FoundFor(listing, ports, handle, Matching(PrintAll(units), Address(host, ANY, ANY, ANY)), rps)
    ensures Maps(w, V1, OfHost(units, host), limit, after, total, status, listing, ports, handle)
  {
    HostMatches(units, host);
    MappingOfUnits(w, V1, PrintAll(units), OfHost(units, host), Address(host, ANY, ANY, ANY), limit, rps, before, after,
                   total, status, listing, ports, handle);
  }

  /** Version 2: those of the one port. */
  lemma MappingOfPort(w: World, units: seq<Address>, host: u32, port: u32, limit: nat, rps: seq<Option<Rec>>,
                      before: seq<Entry>, after: seq<Entry>, total: nat, status: Status, listing: seq<DirEntry>,
                      ports: seq<seq<Option<PortInfo>>>, handle: u32)
    requires limit <= |before| == |after| && port != ANY
    requires IsMapping(w, V2, PrintAll(units), Address(host, port, ANY, ANY), limit, rps, before, after, total, status)
    requires FoundFor(listing, ports, handle, Matching(PrintAll(units), Address(host, port, ANY, ANY)), rps)
    ensures Maps(w, V2, OfPort(units, host, port), limit, after, total, status, listing, ports, handle)
  {
    PortMatches(units, host, port);
    MappingOfUnits(w, V2, PrintAll(units), OfPort(units, host, port), Address(host, port, ANY, ANY), limit, rps, before,
                   after, total, status, listing, ports, handle);
  }

  /** In a session without failed allocations slot k carries the identifiers of the remote port
      computed from the sysfs directory for the k-th match, and zeros when there is none. */
  lemma SlotIsFromScratch(w: World, version: Version, names: seq<string>, filter: Address, limit: nat,
                          rps: seq<Option<Rec>>, before: seq<Entry>, after: seq<Entry>, total: nat, status: Status,
                          listing: seq<DirEntry>, ports: seq<seq<Option<PortInfo>>>, handle: u32, k: nat)
    requires limit <= |before| == |after| && k < AtMost(total, limit)
    requires IsMapping(w, version, names, filter, limit, rps, before, after, total, status)
    requires FoundFor(listing, ports, handle, Matching(names, filter), rps)
    ensures var name := Matching(names, filter)[k];
            ParseName(name).Some? && after[k] == Describe(w, version, RemoteOf(listing, ports, handle, name), name)
    ensures var a := ParseName(Matching(names, filter)[k]).value;
            KeyIn(ports, handle, a.port).None? ==> after[k].fcp == FcpId(0, 0, 0, 0)
  {}

  /** Calling again with room for the total succeeds, and extends what the first call gave:
      every entry but for its remote port, and the remote ports too when no allocation fails. */
  lemma RetrySucceeds(w: World, version: Version, names: seq<string>, filter: Address, limit: nat, limit': nat,
                      rps: seq<Option<Rec>>, before: seq<Entry>, after: seq<Entry>, total: nat, status: Status,
                      rps': seq<Option<Rec>>, before': seq<Entry>, after': seq<Entry>, total': nat, status': Status,
                      listing: seq<DirEntry>, ports: seq<seq<Option<PortInfo>>>, handle: u32)
    requires limit <= |before| == |after| && limit' <= |before'| == |after'| && limit' >= total
    requires IsMapping(w, version, names, filter, limit, rps, before, after, total, status)
    requires IsMapping(w, version, names, filter, limit', rps', before', after', total', status')
    ensures status' == Ok && total' == total
    ensures forall k, f :: 0 <= k < AtMost(total, limit) ==> after'[k].(fcp := f) == after[k].(fcp := f)
    ensures var ms, n := Matching(names, filter), AtMost(total, limit);
            FoundFor(listing, ports, handle, ms, rps) && FoundFor(listing, ports, handle, ms, rps') ==> after'[..n] == after[..n]
  {
    var ms, n := Matching(names, filter), AtMost(total, limit);
    if FoundFor(listing, ports, handle, ms, rps) && FoundFor(listing, ports, handle, ms, rps') {
      assert forall k :: 0 <= k < n ==> rps'[k] == rps[k];
    }
  }

  // ---- the generic device of one logical unit ----

  datatype SgResult = Found | NoPort | NoEntry   // 0, HBA_STATUS_ERROR_ILLEGAL_WWN, ENOENT

  // The directory read with room for one entry.
  method ReadUnit(lib: AdapterLib, rp: PortInfo, fcLun: nat, w: World, names: seq<string>) returns (count: nat, sg: string)
    requires lib.Ready()
    modifies lib.reg`book, lib.reg`clean, lib.reg.rportsTable, lib.reg.owner.Keys, lib.reg.book.objs`adapt
    ensures lib.Ready() && lib.reg.book == old(lib.reg.book) && lib.reg.clean == old(lib.reg.clean)
    ensures var ms := UnitMatches(rp, fcLun, names);
            count == |ms| && (count >= 1 ==> sg == SgName(w, ms[0]))
  {
    var entry := new Entry[1](_ => ZERO_ENTRY);
    var ctxt := new BindingContext(UnitFilter(rp.Record(), fcLun), 1, V1, entry, Some(rp), lib, 0, w);
    ghost var before := entry[..];
    ctxt.ReadDir(names);
    count, sg := ctxt.count, ctxt.sg;
    DescribedFirst(w, V1, ctxt.rps, UnitMatches(rp, fcLun, names), before, entry[..], count, sg);
  }

  // The matches for a remote port's unit.
  function UnitMatches(rp: PortInfo, fcLun: nat, names: seq<string>): seq<string> {
    Matching(names, UnitFilter(rp.Record(), fcLun))
  }

  // A remote port that is found has this name and the host and channel of the local port.
  predicate IsNamed(lp: PortInfo, wwn: Wwn, rp: Option<PortInfo>) {
    rp.Some? ==> rp.value.attr.portWwn == wwn && rp.value.kernHba == lp.kernHba && rp.value.index == lp.index
  }

  lemma AnswerIsNamed(b: Account, lp: PortInfo, wwn: Wwn, rp: Option<PortInfo>)
    requires IsAnswer(b, lp, ByWwn(wwn), rp)
    ensures IsNamed(lp, wwn, rp)
  {
    if rp.Some? { AnswerHas(b, lp, ByWwn(wwn), rp); }
  }

  // The generic name, if there is one.
  method UnitName(lib: AdapterLib, lp: PortInfo, wwn: Wwn, fcLun: nat, w: World, names: seq<string>)
    returns (result: SgResult, sg: string, ghost rp: Option<PortInfo>)
    requires lib.Ready() && lp in lib.reg.locals
    modifies lib.reg`book, lib.reg`clean, lib.reg.rportsTable, lib.reg.owner.Keys, lib.reg.book.objs`adapt
    ensures lib.Ready() && IsAnswer(lib.reg.book, lp, ByWwn(wwn), rp)
    ensures IsNamed(lp, wwn, rp)
    ensures lib.reg.clean && DistinctKeys(lib.reg.locals) ==>
              RecordOf(rp) == FromScratch(lib.reg.listing, lp.PortKey(), ByWwn(wwn))
    ensures result == ResultOf(rp, fcLun, names)
    ensures result == Found ==> sg == SgName(w, UnitMatches(rp.value, fcLun, names)[0])
    ensures lib.reg.ample ==> lib.reg.clean == old(lib.reg.clean)
  {
    var found := lib.AskPort(lp, ByWwn(wwn));
    rp := found;
    AnswerIsNamed(lib.reg.book, lp, wwn, rp);
    assert forall k :: 0 <= k < |lib.reg.book.objs| ==>
             lib.reg.book.objs[k] in old(lib.reg.book.objs) || fresh(lib.reg.book.objs[k]);
    result, sg := NameOfFound(lib, found, fcLun, w, names);
  }

  // The same once the remote port has been looked for.
  method NameOfFound(lib: AdapterLib, rp: Option<PortInfo>, fcLun: nat, w: World, names: seq<string>)
    returns (result: SgResult, sg: string)
    requires lib.Ready()
    modifies lib.reg`book, lib.reg`clean, lib.reg.rportsTable, lib.reg.owner.Keys, lib.reg.book.objs`adapt
    ensures lib.Ready() && lib.reg.book == old(lib.reg.book) && lib.reg.clean == old(lib.reg.clean)
    ensures result == ResultOf(rp, fcLun, names)
    ensures result == Found ==> sg == SgName(w, UnitMatches(rp.value, fcLun, names)[0])
  {
    if rp.None? {
      return NoPort, "";
    }
    if rp.value.scsiTarget == ANY {
      return NoEntry, "";
    }
    var count;
    count, sg := ReadUnit(lib, rp.value, fcLun, w, names);
    result := if count == 1 then Found else NoEntry;
  }

  // Found exactly for a remote port with a target number and one name that matches.
  function ResultOf(rp: Option<PortInfo>, fcLun: nat, names: seq<string>): SgResult {
    if rp.None? then NoPort
    else if rp.value.scsiTarget != ANY && |UnitMatches(rp.value, fcLun, names)| == 1 then Found
    else NoEntry
  }

  // The contents of the caller's buffer with a generic name copied to it.
  function NameInBuffer(before: seq<char>, len: nat, sg: string): seq<char>
    requires 1 <= len <= |before| && |sg| < SG_ROOM && SafeCopy.NUL !in sg
  {
    var src := sg + [SafeCopy.NUL];
    var c, n := SafeCopy.Clean(len, src, SG_ROOM), SafeCopy.CopyLength(len, src, SG_ROOM);
    c + SafeCopy.Nuls(n + 1 - |c|) + before[n + 1..]
  }

  /** A printable name that does not end in a blank is copied whole when there is room, and
      terminated. */
  lemma NameCopied(before: seq<char>, len: nat, sg: string)
    requires |sg| < len <= |before| && |sg| < 32
    requires forall i :: 0 <= i < |sg| ==> 32 <= sg[i] as int <= 126
    requires sg != [] ==> sg[|sg| - 1] != ' '
    ensures NameInBuffer(before, len, sg) == sg + ['\0'] + before[|sg| + 1..]
  {
    var src := sg + [SafeCopy.NUL];
    SafeCopy.CleanIs(len, src, SG_ROOM);
    SafeCopy.FirstNul(sg, []);
    assert sg + [SafeCopy.NUL] + [] == src;
    var c := SafeCopy.Clean(len, src, SG_ROOM);
    assert SafeCopy.CopyLength(len, src, SG_ROOM) == |sg|;
    assert forall i :: 0 <= i < |sg| ==> src[i] == sg[i] && SafeCopy.Sanitise(src[i]) == sg[i];
    assert |c| == |sg| && c == sg;
  }

  // The copy to the caller's buffer, which is apart from the library.
  method CopyName(lib: AdapterLib, buf: array<char>, len: nat, sg: string)
    requires 1 <= len <= buf.Length && |sg| < SG_ROOM && SafeCopy.NUL !in sg && lib.Ready()
    modifies buf
    ensures lib.Ready() && buf[..] == NameInBuffer(old(buf[..]), len, sg)
  {
    SafeCopy.StrncpySafe(buf, len, sg + [SafeCopy.NUL], SG_ROOM);
  }

  /** Found exactly when the local port has a remote port of that name with a target number and
      exactly one directory name matches it; then the buffer holds the sanitised generic name of
      that match. The remote port is the registry's answer for the name. */
  method GetSgName(lib: AdapterLib, lp: PortInfo, wwn: Wwn, fcLun: nat, w: World, names: seq<string>, buf: array<char>, len: nat)
    returns (result: SgResult, ghost rp: Option<PortInfo>)
    requires 1 <= len <= buf.Length && lib.Ready() && lp in lib.reg.locals
    modifies buf, lib.reg`book, lib.reg`clean, lib.reg.rportsTable, lib.reg.owner.Keys, lib.reg.book.objs`adapt
    ensures lib.Ready() && IsAnswer(lib.reg.book, lp, ByWwn(wwn), rp)
    ensures rp.Some? ==> rp.value.attr.portWwn == wwn && rp.value.kernHba == lp.kernHba && rp.value.index == lp.index
    ensures lib.reg.clean && DistinctKeys(lib.reg.locals) ==>
              RecordOf(rp) == FromScratch(lib.reg.listing, lp.PortKey(), ByWwn(wwn))
    ensures result == NoPort <==> rp.None?
    ensures result == Found <==> rp.Some? && rp.value.scsiTarget != ANY && |UnitMatches(rp.value, fcLun, names)| == 1
    ensures buf[..] == if result == Found then NameInBuffer(old(buf[..]), len, SgName(w, UnitMatches(rp.value, fcLun, names)[0]))
                       else old(buf[..])
    ensures lib.reg.ample ==> lib.reg.clean == old(lib.reg.clean)
  {
    var sg;
    result, sg, rp := UnitName(lib, lp, wwn, fcLun, w, names);
    if result == Found {
      CopyName(lib, buf, len, sg);
    }
  }

  // Host, channel and target of the remote port, and the low 32 bits of the unit number.
  function UnitFilter(rp: Rec, fcLun: nat): Address {
    Address(rp.key.hba, rp.key.channel, rp.target, fcLun % U32)
  }

  /** When the low word of the unit number is not all ones, the match is the name that holds
      exactly the port's host, channel and target and that word. */
  lemma UnitMatchIsExact(rp: Rec, fcLun: nat, names: seq<string>, name: string)
    requires rp.target != ANY && rp.key.channel != ANY && fcLun % U32 != ANY
    ensures name in Matching(names, UnitFilter(rp, fcLun)) <==>
              name in names && ParseName(name) == Some(Address(rp.key.hba, rp.key.channel, rp.target, fcLun % U32))
  {
    MatchingIsFilter(names, UnitFilter(rp, fcLun), name);
    ExactFilter(UnitFilter(rp, fcLun), name);
  }

  /** All ones in the low word match every unit of the target, and only those. */
  lemma AllOnesMatchesEveryUnit(rp: Rec, fcLun: nat, u: Address)
    requires fcLun % 0x1_0000_0000 == 0xFFFF_FFFF && rp.target != ANY && rp.key.channel != ANY
    ensures NameMatches(UnitFilter(rp, fcLun), PrintName(u)) <==>
              u.hba == rp.key.hba && u.port == rp.key.channel && u.target == rp.target
  {
    PrintedNameParses(u);
  }
}
