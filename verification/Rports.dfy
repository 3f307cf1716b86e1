/** What a scan of the remote ports says about one local port, worked out from the scanned
    list alone. rport.c and adapt.c keep tables that must agree with it. */
module Rports {
  import opened Wrappers
  import opened CText
  import opened SaTables
  import ClassList

  type Wwn = n: nat | n < 0x1_0000_0000_0000_0000

  // Host and channel: what ties a remote port to a local one.
  datatype Key = Key(hba: u32, channel: u32)

  datatype Attr = Attr(nodeWwn: Wwn, portWwn: Wwn, fcId: u32)

  // One remote port of the scan.
  datatype Rec = Rec(key: Key, rport: u32, target: u32, attr: Attr)

  // ---- the sysfs directory of remote ports ----

  // The files of one entry: the value each reader would store, None when it fails. The list
  // of classes is given as its text.
  datatype Files = Files(nodeName: Option<Wwn>, portName: Option<Wwn>, portId: Option<u32>,
                         scsiTarget: Option<u32>, portState: Option<nat>, classes: Option<string>)

  datatype DirEntry = DirEntry(name: string, files: Files)

  // "rport-%u:%u-%u"
  const NUMBERS: seq<Directive> :=
    [Unsigned32(10), Literal(':')] + ([Unsigned32(10), Literal('-')] + [Unsigned32(10)])
  const RPORT_FORMAT: seq<Directive> := Letters("rport-") + NUMBERS

  lemma ThreeNumbers()
    ensures Conversions(RPORT_FORMAT) == 3 && Separated(RPORT_FORMAT, 10)
  {
    FormatField(10, '-', [Unsigned32(10)]);
    FormatField(10, ':', [Unsigned32(10), Literal('-')] + [Unsigned32(10)]);
    FormatLetters(10, "rport-", NUMBERS);
  }

  // The directory name of a remote port.
  function RportName(key: Key, rport: u32): string {
    ThreeNumbers();
    Text(RPORT_FORMAT, [Decimal(key.hba), Decimal(key.channel), Decimal(rport)])
  }

  /** The printed name in full. */
  lemma RportNameText(key: Key, rport: u32)
    ensures RportName(key, rport) == "rport-" + (Decimal(key.hba) + ":" + (Decimal(key.channel) + "-" + Decimal(rport)))
  {
    var digits := [Decimal(key.hba), Decimal(key.channel), Decimal(rport)];
    ThreeNumbers();
    NumbersText(digits[0], digits[1], digits[2]);
    TextOfLetters("rport-", NUMBERS, digits);
  }

  lemma NumbersText(h: string, c: string, n: string)
    ensures Conversions(NUMBERS) == 3 && Text(NUMBERS, [h, c, n]) == h + ":" + (c + "-" + n)
  {
    TextOfLast(10, n);
    assert [c] + [n] == [c, n] && [h] + [c, n] == [h, c, n];
    TextOfField(10, '-', [Unsigned32(10)], c, [n]);
    TextOfField(10, ':', [Unsigned32(10), Literal('-')] + [Unsigned32(10)], h, [c, n]);
  }

  /** A printed name is read back, and the entry gives the record of that name with what its
      files hold, if they all read. */
  lemma RportNameParses(key: Key, rport: u32, files: Files)
    ensures Sscanf(RPORT_FORMAT, RportName(key, rport)) == [key.hba, key.channel, rport]
    ensures var r := ReadEntry(DirEntry(RportName(key, rport), files));
            && (r.Some? <==> files.nodeName.Some? && files.portName.Some? && files.portId.Some? &&
                             files.scsiTarget.Some? && files.portState.Some? && ClassesOk(files.classes))
            && (r.Some? ==>
                  && r.value.key.hba == key.hba && r.value.key.channel == key.channel && r.value.rport == rport
                  && Some(r.value.attr.nodeWwn) == files.nodeName && Some(r.value.attr.portWwn) == files.portName
                  && Some(r.value.attr.fcId) == files.portId && Some(r.value.target) == files.scsiTarget)
  {
    ThreeNumbers();
    SscanfText(RPORT_FORMAT, 10, [Decimal(key.hba), Decimal(key.channel), Decimal(rport)], "");
    assert RportName(key, rport) + "" == RportName(key, rport);
  }

  predicate ClassesOk(line: Option<string>) {
    line.Some? && (StrStr(line.value, "unspecified") || ClassList.Parse(line.value, {}).rc == 0)
  }

  // The record an entry gives, if its name parses and every file reads.
  function ReadEntry(e: DirEntry): Option<Rec> {
    var v, f := Sscanf(RPORT_FORMAT, e.name), e.files;
    if |v| == 3 && f.nodeName.Some? && f.portName.Some? && f.portId.Some? && f.scsiTarget.Some? &&
       f.portState.Some? && ClassesOk(f.classes)
    then Some(Rec(Key(v[0], v[1]), v[2], f.scsiTarget.value, Attr(f.nodeName.value, f.portName.value, f.portId.value)))
    else None
  }

  // The directory as a whole. Its size and its rport numbers stay below the index limit of the
  // tables, where the 32-bit arithmetic of the library does not wrap.
  predicate SmallListing(listing: seq<DirEntry>) {
    |listing| < INDEX_LIMIT &&
    forall i :: 0 <= i < |listing| ==>
      (ReadEntry(listing[i]).Some? ==> ReadEntry(listing[i]).value.rport < INDEX_LIMIT)
  }

  type Listing = l: seq<DirEntry> | SmallListing(l) witness []

  // The scanned list when no allocation fails.
  function Readable(listing: seq<DirEntry>): (recs: seq<Rec>)
    ensures |recs| <= |listing|
  {
    if listing == [] then []
    else
      var n := |listing| - 1;
      var e := ReadEntry(listing[n]);
      Readable(listing[..n]) + (if e.Some? then [e.value] else [])
  }

  // The directory for these records, each with a readable state and this line of classes.
  function DirectoryOf(recs: seq<Rec>, line: string): (listing: seq<DirEntry>)
    ensures |listing| == |recs|
  {
    seq(|recs|, i requires 0 <= i < |recs| => EntryFor(recs[i], line))
  }

  function EntryFor(rec: Rec, line: string): DirEntry {
    DirEntry(RportName(rec.key, rec.rport),
             Files(Some(rec.attr.nodeWwn), Some(rec.attr.portWwn), Some(rec.attr.fcId), Some(rec.target), Some(0), Some(line)))
  }

  /** Such a directory is read back in full and in order. */
  lemma {:induction false} DirectoryReads(recs: seq<Rec>, line: string)
    requires ClassesOk(Some(line))
    ensures Readable(DirectoryOf(recs, line)) == recs
  {
    if recs != [] {
      var n := |recs| - 1;
      var e := EntryFor(recs[n], line);
      RportNameParses(recs[n].key, recs[n].rport, e.files);
      assert ReadEntry(e) == Some(recs[n]);
      DirectoryReads(recs[..n], line);
      assert DirectoryOf(recs, line)[..n] == DirectoryOf(recs[..n], line);
      assert recs == recs[..n] + [recs[n]];
    }
  }

  // What the two allocations made for an entry give: its own memory, and room in the table.
  datatype Grant = Grant(entry: bool, slot: bool)

  predicate NameReads(e: DirEntry) {
    |Sscanf(RPORT_FORMAT, e.name)| == 3
  }

  // Without memory for an entry the scan stops.
  predicate Stops(e: DirEntry, g: Grant) {
    NameReads(e) && !g.entry
  }

  // An allocation that the entry asks for fails.
  predicate Refused(e: DirEntry, g: Grant) {
    Stops(e, g) || (ReadEntry(e).Some? && !g.slot)
  }

  function Added(e: DirEntry, g: Grant): seq<Rec> {
    if ReadEntry(e).Some? && !Refused(e, g) then [ReadEntry(e).value] else []
  }

  datatype Scan = Scan(recs: seq<Rec>, stopped: bool, ok: bool)

  /** The scan of a directory for any outcome of its allocations. */
  function ScanWith(listing: seq<DirEntry>, gs: seq<Grant>): (s: Scan)
    requires |gs| == |listing|
    ensures s.ok ==> !s.stopped && s.recs == Readable(listing)
    ensures |s.recs| <= |Readable(listing)|
  {
    if listing == [] then Scan([], false, true)
    else
      var n := |listing| - 1;
      var s, e, g := ScanWith(listing[..n], gs[..n]), listing[n], gs[n];
      if s.stopped then s
      else Scan(s.recs + Added(e, g), Stops(e, g), s.ok && !Refused(e, g))
  }

  // The scan on its way: what it has found, and whether it stopped or was refused memory.
  predicate Scanning(listing: seq<DirEntry>, gs: seq<Grant>, recs: seq<Rec>, stop: bool, ok: bool) {
    |gs| <= |listing| && ScanWith(listing[..|gs|], gs) == Scan(recs, stop, ok)
  }

  // The whole scan, up to the entry at which it stopped, and whether every allocation
  // succeeded.
  predicate Scans(listing: seq<DirEntry>, gs: seq<Grant>, recs: seq<Rec>, ok: bool) {
    Scanning(listing, gs, recs, |gs| < |listing|, ok) ||
    (|gs| == |listing| && Scanning(listing, gs, recs, true, ok))
  }

  lemma ScansReadable(listing: seq<DirEntry>, gs: seq<Grant>, recs: seq<Rec>, ok: bool)
    requires Scans(listing, gs, recs, ok)
    ensures ok ==> recs == Readable(listing)
    ensures Readable(listing) == [] ==> recs == []
  {
    assert listing[..|listing|] == listing;
    ReadableGrows(listing, |gs|);
  }

  lemma {:induction false} ReadableGrows(listing: seq<DirEntry>, n: nat)
    requires n <= |listing|
    ensures |Readable(listing[..n])| <= |Readable(listing)|
  {
    if n == |listing| {
      assert listing[..n] == listing;
    } else {
      assert listing[..|listing| - 1][..n] == listing[..n];
      ReadableGrows(listing[..|listing| - 1], n);
    }
  }

  lemma ScansOn(listing: seq<DirEntry>, gs: seq<Grant>, recs: seq<Rec>, ok: bool)
    requires |gs| < |listing| && Scanning(listing, gs, recs, false, ok)
    ensures forall g :: var e := listing[|gs|];
              Scanning(listing, gs + [g], recs + Added(e, g), Stops(e, g), ok && !Refused(e, g))
  {
    var n := |gs|;
    forall g ensures var e := listing[n];
                     Scanning(listing, gs + [g], recs + Added(e, g), Stops(e, g), ok && !Refused(e, g))
    {
      assert listing[..n + 1][..n] == listing[..n] && (gs + [g])[..n] == gs;
    }
  }

  // ---- filtering the scanned list ----

  predicate Matches(recs: seq<Rec>, dropped: set<nat>, key: Key, i: nat, k: nat) {
    i < |recs| && recs[i].key == key && recs[i].rport == k && i !in dropped
  }

  /** The position of the last of the first n records that has this key and rport number. The
      dropped positions are those whose table insert failed. */
  function Winner(recs: seq<Rec>, dropped: set<nat>, key: Key, n: nat, k: nat): (w: Option<nat>)
    ensures w.Some? ==> w.value < n && Matches(recs, dropped, key, w.value, k)
  {
    if n == 0 then None
    else if Matches(recs, dropped, key, n - 1, k) then Some(n - 1)
    else Winner(recs, dropped, key, n - 1, k)
  }

  lemma {:induction false} WinnerIsLast(recs: seq<Rec>, dropped: set<nat>, key: Key, n: nat, k: nat, i: nat)
    requires i < n && Matches(recs, dropped, key, i, k)
    ensures Winner(recs, dropped, key, n, k).Some? && i <= Winner(recs, dropped, key, n, k).value
  {
    if !Matches(recs, dropped, key, n - 1, k) { WinnerIsLast(recs, dropped, key, n - 1, k, i); }
  }

  // Dropping a position that is not among the first n, or has another key, changes nothing.
  lemma {:induction false} WinnerAfterDrop(recs: seq<Rec>, dropped: set<nat>, key: Key, n: nat, k: nat, i: nat)
    requires i >= n || i >= |recs| || recs[i].key != key
    ensures Winner(recs, dropped + {i}, key, n, k) == Winner(recs, dropped, key, n, k)
  {
    if n > 0 { WinnerAfterDrop(recs, dropped, key, n - 1, k, i); }
  }

  // One more than the largest rport number.
  function Bound(recs: seq<Rec>): (b: nat)
    ensures forall i :: 0 <= i < |recs| ==> recs[i].rport < b
  {
    if recs == [] then 0
    else
      var n := |recs| - 1;
      var b := Bound(recs[..n]);
      assert forall i :: 0 <= i < n ==> recs[i] == recs[..n][i];
      if recs[n].rport < b then b else recs[n].rport + 1
  }

  // The winners by rport number.
  function Table(recs: seq<Rec>, dropped: set<nat>, key: Key): (t: seq<Option<nat>>)
    ensures forall k: nat :: At(t, k) == Winner(recs, dropped, key, |recs|, k)
  {
    seq(Bound(recs), k requires 0 <= k < Bound(recs) => Winner(recs, dropped, key, |recs|, k))
  }

  /** The positions of the remote ports of a local port, in increasing rport number. */
  function Discovered(recs: seq<Rec>, dropped: set<nat>, key: Key): seq<nat> {
    Live<nat>(Table(recs, dropped, key))
  }

  // Not overridden by a later record of the same name.
  ghost predicate Wins(recs: seq<Rec>, dropped: set<nat>, key: Key, i: nat) {
    i < |recs| && Matches(recs, dropped, key, i, recs[i].rport) &&
    forall j: nat :: j > i ==> !Matches(recs, dropped, key, j, recs[i].rport)
  }

  lemma WinsIffWinner(recs: seq<Rec>, dropped: set<nat>, key: Key, i: nat)
    requires i < |recs|
    ensures Wins(recs, dropped, key, i) <==> Winner(recs, dropped, key, |recs|, recs[i].rport) == Some(i)
  {
    var k := recs[i].rport;
    var w := Winner(recs, dropped, key, |recs|, k);
    if Wins(recs, dropped, key, i) {
      WinnerIsLast(recs, dropped, key, |recs|, k, i);
    }
    if w == Some(i) {
      forall j: nat | j > i ensures !Matches(recs, dropped, key, j, k) {
        if Matches(recs, dropped, key, j, k) { WinnerIsLast(recs, dropped, key, |recs|, k, j); }
      }
    }
  }

  /** The discovered list is the filter of the scan on the key, sorted by rport number: it is
      strictly increasing in rport number and holds exactly the records not overridden. */
  lemma DiscoveredIsSortedFilter(recs: seq<Rec>, dropped: set<nat>, key: Key)
    ensures var d := Discovered(recs, dropped, key);
            && (forall n :: 0 <= n < |d| ==> d[n] < |recs| && Wins(recs, dropped, key, d[n]))
            && (forall m, n :: 0 <= m < n < |d| ==> recs[d[m]].rport < recs[d[n]].rport)
            && (forall i: nat :: Wins(recs, dropped, key, i) ==> i in d)
  {
    var t, d := Table(recs, dropped, key), Discovered(recs, dropped, key);
    ListingIsExact(t);
    forall n: nat | n < |d|
      ensures d[n] < |recs| && recs[d[n]].rport == Select(t, n) && Wins(recs, dropped, key, d[n])
    {
      assert At(t, Select(t, n)) == Some(d[n]);
      WinsIffWinner(recs, dropped, key, d[n]);
    }
    forall i: nat | Wins(recs, dropped, key, i) ensures i in d {
      WinsIffWinner(recs, dropped, key, i);
      var k := recs[i].rport;
      assert At(t, k) == Some(i);
      LiveAtRank(t, k);
    }
  }

  predicate DistinctNames(recs: seq<Rec>) {
    forall i, j :: 0 <= i < j < |recs| ==> !(recs[i].key == recs[j].key && recs[i].rport == recs[j].rport)
  }

  /** With distinct names and no failed insert it is the plain filter. */
  lemma DiscoveredOfDistinctNames(recs: seq<Rec>, key: Key, i: nat)
    requires DistinctNames(recs)
    ensures i in Discovered(recs, {}, key) <==> i < |recs| && recs[i].key == key
  {
    DiscoveredIsSortedFilter(recs, {}, key);
    if i < |recs| && recs[i].key == key { DistinctWins(recs, key, i); }
  }

  lemma DistinctWins(recs: seq<Rec>, key: Key, i: nat)
    requires DistinctNames(recs) && i < |recs| && recs[i].key == key
    ensures Wins(recs, {}, key, i)
  {
    forall j: nat | j > i && j < |recs| ensures !Matches(recs, {}, key, j, recs[i].rport) {
      assert !(recs[i].key == recs[j].key && recs[i].rport == recs[j].rport);
    }
  }

  /** A sorted list with the same members is the same list, so the two properties above fix
      the discovered list completely. */
  lemma {:induction false} SortedListUnique(recs: seq<Rec>, d: seq<nat>, e: seq<nat>)
    requires forall n :: 0 <= n < |d| ==> d[n] < |recs|
    requires forall n :: 0 <= n < |e| ==> e[n] < |recs|
    requires forall m, n :: 0 <= m < n < |d| ==> recs[d[m]].rport < recs[d[n]].rport
    requires forall m, n :: 0 <= m < n < |e| ==> recs[e[m]].rport < recs[e[n]].rport
    requires forall i: nat :: i in d <==> i in e
    ensures d == e
  {
    if d == [] {
      assert forall n :: 0 <= n < |e| ==> e[n] in e;
    } else {
      assert d[0] in d && d[0] in e;
      assert e[0] in e && e[0] in d;
      var m :| 0 <= m < |e| && e[m] == d[0];
      var n :| 0 <= n < |d| && d[n] == e[0];
      assert recs[e[0]].rport <= recs[d[0]].rport <= recs[e[0]].rport;
      assert m == 0;
      forall i: nat ensures i in d[1..] <==> i in e[1..] {
        assert i in d <==> i == d[0] || i in d[1..];
        assert i in e <==> i == e[0] || i in e[1..];
      }
      SortedListUnique(recs, d[1..], e[1..]);
      assert d == [d[0]] + d[1..] && e == [e[0]] + e[1..];
    }
  }

  // ---- the answers a local port gives ----

  datatype Query =
    | ByIndex(rport: u32) | ByNumber(n: u32) | ByTarget(target: u32) | ByWwn(wwn: Wwn) | ByFcId(fcId: u32)

  predicate Accepts(q: Query, rec: Rec) {
    match q
    case ByIndex(k) => rec.rport == k
    case ByNumber(_) => true
    case ByTarget(t) => rec.target == t
    case ByWwn(w) => rec.attr.portWwn == w
    case ByFcId(f) => rec.attr.fcId == f
  }

  // The first position in a list whose record the query accepts.
  function FirstAccepted(recs: seq<Rec>, d: seq<nat>, q: Query): (a: Option<nat>)
    requires forall n :: 0 <= n < |d| ==> d[n] < |recs|
    ensures a.Some? ==> a.value < |recs|
  {
    if d == [] then None
    else if Accepts(q, recs[d[0]]) then Some(d[0])
    else FirstAccepted(recs, d[1..], q)
  }

  /** The answer computed from scratch: number n of the discovered list, or the first entry of
      the discovered list that the query accepts. */
  function Answer(recs: seq<Rec>, dropped: set<nat>, key: Key, q: Query): (a: Option<nat>)
    ensures a.Some? ==> a.value < |recs|
  {
    DiscoveredIsSortedFilter(recs, dropped, key);
    var d := Discovered(recs, dropped, key);
    if q.ByNumber? then Nth(d, q.n) else FirstAccepted(recs, d, q)
  }

  /** The answer for one session: computed from the sysfs directory alone. */
  function FromScratch(listing: seq<DirEntry>, key: Key, q: Query): Option<Rec> {
    var recs := Readable(listing);
    var a := Answer(recs, {}, key, q);
    if a.Some? then Some(recs[a.value]) else None
  }

  // The same for a port that may not exist.
  function ScratchAt(listing: seq<DirEntry>, key: Option<Key>, q: Query): Option<Rec> {
    if key.Some? then FromScratch(listing, key.value, q) else None
  }

  lemma {:induction false} FirstAcceptedIs(recs: seq<Rec>, d: seq<nat>, q: Query)
    requires forall n :: 0 <= n < |d| ==> d[n] < |recs|
    ensures var a := FirstAccepted(recs, d, q);
            if a.Some? then exists n :: 0 <= n < |d| && d[n] == a.value && Accepts(q, recs[d[n]]) &&
                              forall m :: 0 <= m < n ==> !Accepts(q, recs[d[m]])
            else forall n :: 0 <= n < |d| ==> !Accepts(q, recs[d[n]])
  {
    if d != [] && !Accepts(q, recs[d[0]]) {
      FirstAcceptedIs(recs, d[1..], q);
      var a := FirstAccepted(recs, d[1..], q);
      if a.Some? {
        var n :| 0 <= n < |d[1..]| && d[1..][n] == a.value && Accepts(q, recs[d[1..][n]]) &&
                 forall m :: 0 <= m < n ==> !Accepts(q, recs[d[1..][m]]);
        assert forall m :: 1 <= m < n + 1 ==> d[m] == d[1..][m - 1];
        assert d[n + 1] == a.value;
      } else {
        assert forall n :: 1 <= n < |d| ==> d[n] == d[1..][n - 1];
      }
    }
  }

  // A search answers the record of least rport number that the query accepts.
  lemma AnswerIsLeast(recs: seq<Rec>, dropped: set<nat>, key: Key, q: Query)
    requires !q.ByNumber?
    ensures var a := Answer(recs, dropped, key, q);
            && (a.Some? ==> Wins(recs, dropped, key, a.value) && Accepts(q, recs[a.value]))
            && (a.Some? ==> forall i: nat :: Wins(recs, dropped, key, i) && Accepts(q, recs[i]) ==> recs[a.value].rport <= recs[i].rport)
            && (a.None? ==> forall i: nat :: Wins(recs, dropped, key, i) ==> !Accepts(q, recs[i]))
  {
    DiscoveredIsSortedFilter(recs, dropped, key);
    var d := Discovered(recs, dropped, key);
    FirstAcceptedIs(recs, d, q);
    var a := FirstAccepted(recs, d, q);
    if a.Some? {
      var n :| 0 <= n < |d| && d[n] == a.value && Accepts(q, recs[d[n]]) && forall m :: 0 <= m < n ==> !Accepts(q, recs[d[m]]);
      forall i: nat | Wins(recs, dropped, key, i) && Accepts(q, recs[i]) ensures recs[a.value].rport <= recs[i].rport {
        var m :| 0 <= m < |d| && d[m] == i;
        assert n <= m;
      }
    } else {
      forall i: nat | Wins(recs, dropped, key, i) ensures !Accepts(q, recs[i]) {
        var m :| 0 <= m < |d| && d[m] == i;
      }
    }
  }

  // A record of this key that no later record of the same name replaces.
  ghost predicate Stands(recs: seq<Rec>, key: Key, i: nat) {
    i < |recs| && recs[i].key == key && forall j :: i < j < |recs| ==> !(recs[j].key == key && recs[j].rport == recs[i].rport)
  }

  lemma StandsIsWins(recs: seq<Rec>, key: Key, i: nat)
    ensures Stands(recs, key, i) <==> Wins(recs, {}, key, i)
  {
    if Stands(recs, key, i) {
      forall j: nat | j > i ensures !Matches(recs, {}, key, j, recs[i].rport) {
        if j < |recs| { assert !(recs[j].key == key && recs[j].rport == recs[i].rport); }
      }
    }
    if Wins(recs, {}, key, i) {
      forall j | i < j < |recs| ensures !(recs[j].key == key && recs[j].rport == recs[i].rport) {
        assert !Matches(recs, {}, key, j, recs[i].rport);
      }
    }
  }

  // The record of least rport number for which a position is picked, or none when none is.
  ghost predicate IsLeast(recs: seq<Rec>, key: Key, picks: set<nat>, r: Option<Rec>) {
    && (r.Some? ==> exists i: nat :: i in picks && Stands(recs, key, i) && recs[i] == r.value)
    && (r.Some? ==> forall i: nat :: i in picks && Stands(recs, key, i) ==> r.value.rport <= recs[i].rport)
    && (r.None? ==> forall i: nat :: i in picks ==> !Stands(recs, key, i))
  }

  // The positions of the records with a port name, target, identifier or rport number.
  function WithWwn(recs: seq<Rec>, wwn: Wwn): set<nat> {
    set i | 0 <= i < |recs| && recs[i].attr.portWwn == wwn
  }

  function WithTarget(recs: seq<Rec>, target: u32): set<nat> {
    set i | 0 <= i < |recs| && recs[i].target == target
  }

  function WithFcId(recs: seq<Rec>, fcId: u32): set<nat> {
    set i | 0 <= i < |recs| && recs[i].attr.fcId == fcId
  }

  function WithNumber(recs: seq<Rec>, rport: u32): set<nat> {
    set i | 0 <= i < |recs| && recs[i].rport == rport
  }

  lemma FromScratchIsLeast(listing: seq<DirEntry>, key: Key, q: Query, picks: set<nat>)
    requires !q.ByNumber?
    requires var recs := Readable(listing); forall i: nat :: i in picks <==> i < |recs| && Accepts(q, recs[i])
    ensures IsLeast(Readable(listing), key, picks, FromScratch(listing, key, q))
  {
    var recs := Readable(listing);
    AnswerIsLeast(recs, {}, key, q);
    var a := Answer(recs, {}, key, q);
    forall i: nat ensures Stands(recs, key, i) <==> Wins(recs, {}, key, i) { StandsIsWins(recs, key, i); }
    if a.Some? { assert a.value in picks; }
  }

  /** A query by port name answers the remote port of that name, by target number the one with
      that target, and by identifier the one with that identifier: of several the one of least
      rport number, and nothing when there is none. */
  lemma FromScratchByWwn(listing: seq<DirEntry>, key: Key, wwn: Wwn)
    ensures var recs := Readable(listing);
            IsLeast(recs, key, WithWwn(recs, wwn), FromScratch(listing, key, ByWwn(wwn)))
  {
    var recs := Readable(listing);
    FromScratchIsLeast(listing, key, ByWwn(wwn), WithWwn(recs, wwn));
  }

  lemma FromScratchByTarget(listing: seq<DirEntry>, key: Key, target: u32)
    ensures var recs := Readable(listing);
            IsLeast(recs, key, WithTarget(recs, target), FromScratch(listing, key, ByTarget(target)))
  {
    var recs := Readable(listing);
    FromScratchIsLeast(listing, key, ByTarget(target), WithTarget(recs, target));
  }

  lemma FromScratchByFcId(listing: seq<DirEntry>, key: Key, fcId: u32)
    ensures var recs := Readable(listing);
            IsLeast(recs, key, WithFcId(recs, fcId), FromScratch(listing, key, ByFcId(fcId)))
  {
    var recs := Readable(listing);
    FromScratchIsLeast(listing, key, ByFcId(fcId), WithFcId(recs, fcId));
  }

  /** A query by rport number answers the one of that number. */
  lemma FromScratchByIndex(listing: seq<DirEntry>, key: Key, rport: u32)
    ensures var recs := Readable(listing);
            IsLeast(recs, key, WithNumber(recs, rport), FromScratch(listing, key, ByIndex(rport)))
  {
    var recs := Readable(listing);
    FromScratchIsLeast(listing, key, ByIndex(rport), WithNumber(recs, rport));
  }

  // All the records that stand, in increasing rport number.
  ghost predicate ListsStanding(recs: seq<Rec>, key: Key, d: seq<nat>) {
    && (forall m :: 0 <= m < |d| ==> Stands(recs, key, d[m]))
    && (forall i: nat :: Stands(recs, key, i) ==> i in d)
    && (forall l, m :: 0 <= l < m < |d| ==> recs[d[l]].rport < recs[d[m]].rport)
  }

  lemma DiscoveredLists(recs: seq<Rec>, key: Key)
    ensures ListsStanding(recs, key, Discovered(recs, {}, key))
  {
    var d := Discovered(recs, {}, key);
    DiscoveredIsSortedFilter(recs, {}, key);
    forall m: nat | m < |d| ensures Stands(recs, key, d[m]) { StandsIsWins(recs, key, d[m]); }
    forall i: nat | Stands(recs, key, i) ensures i in d { StandsIsWins(recs, key, i); }
  }

  lemma ListsStandingUnique(recs: seq<Rec>, key: Key, d: seq<nat>, e: seq<nat>)
    requires ListsStanding(recs, key, d) && ListsStanding(recs, key, e)
    ensures d == e
  {
    forall i: nat ensures i in d <==> i in e {
      if i in d { var m :| 0 <= m < |d| && d[m] == i; }
      if i in e { var m :| 0 <= m < |e| && e[m] == i; }
    }
    SortedListUnique(recs, d, e);
  }

  /** A query by number answers that entry of the list of all that stand, which exists and is
      unique, and nothing when there are not so many. */
  lemma FromScratchByNumber(listing: seq<DirEntry>, key: Key, n: u32, d: seq<nat>)
    requires ListsStanding(Readable(listing), key, d)
    ensures FromScratch(listing, key, ByNumber(n)) == if n < |d| then Some(Readable(listing)[d[n]]) else None
  {
    AnswerByNumber(Readable(listing), key, n, d);
  }

  lemma AnswerByNumber(recs: seq<Rec>, key: Key, n: u32, d: seq<nat>)
    requires ListsStanding(recs, key, d)
    ensures Answer(recs, {}, key, ByNumber(n)) == if n < |d| then Some(d[n]) else None
  {
    DiscoveredLists(recs, key);
    ListsStandingUnique(recs, key, d, Discovered(recs, {}, key));
  }

  /** Asking by index is a direct lookup of the record of that name. */
  lemma AnswerByIndex(recs: seq<Rec>, dropped: set<nat>, key: Key, k: u32)
    ensures Answer(recs, dropped, key, ByIndex(k)) == Winner(recs, dropped, key, |recs|, k)
  {
    DiscoveredIsSortedFilter(recs, dropped, key);
    var d, q := Discovered(recs, dropped, key), ByIndex(k);
    FirstAcceptedIs(recs, d, q);
    var a, w := FirstAccepted(recs, d, q), Winner(recs, dropped, key, |recs|, k);
    if w.Some? {
      WinsIffWinner(recs, dropped, key, w.value);
      assert w.value in d;
    }
    if a.Some? {
      WinsIffWinner(recs, dropped, key, a.value);
    }
  }
}
