/** pci.c: the walk over the PCI capability chain (section 6.7 of PCI Local Bus 3.0) and the
    extended capability chain (sections 7.9 and 7.12 of PCI Express Base 3.0) to the device
    serial number. */
module PciWalk {
  import opened Wrappers

  type byte = b: int | 0 <= b < 256
  type dword = d: int | 0 <= d < 0x1_0000_0000

  const STATUS: nat := 0x06
  const STATUS_CAP_LIST: nat := 0x10
  const CAPABILITY_LIST: nat := 0x34
  const CAP_ID_EXP: byte := 0x10
  const EXT_START: nat := 0x100
  const EXT_ID_DSN: nat := 0x0003

  // Configuration space: the bytes that can be read. A read fails when a byte is missing.
  type Config = map<nat, byte>

  function Read8(cfg: Config, o: nat): Option<byte> {
    if o in cfg then Some(cfg[o]) else None
  }

  function Read16(cfg: Config, o: nat): Option<nat> {
    if o in cfg && o + 1 in cfg then Some(cfg[o] as nat + 256 * cfg[o + 1] as nat) else None
  }

  function Read32(cfg: Config, o: nat): (d: Option<dword>) {
    if o in cfg && o + 1 in cfg && o + 2 in cfg && o + 3 in cfg
    then Some(Dword(cfg[o], cfg[o + 1], cfg[o + 2], cfg[o + 3])) else None
  }

  function Dword(a: byte, b: byte, c: byte, d: byte): dword {
    (a as int) + 0x100 * (b as int) + 0x1_0000 * (c as int) + 0x100_0000 * (d as int)
  }

  // ---- the serial number ----

  function HexDigit(n: int): char
    requires 0 <= n < 16
  {
    "0123456789ABCDEF"[n]
  }

  // "%02X"
  function Hex2(n: int): (s: string)
    requires 0 <= n < 256
    ensures |s| == 2
  {
    [HexDigit(n / 16), HexDigit(n % 16)]
  }

  function Byte(d: dword, i: nat): (b: byte)
    requires i < 4
  {
    (if i == 0 then d else if i == 1 then d / 0x100 else if i == 2 then d / 0x1_0000 else d / 0x100_0000) % 256
  }

  /** Six of the eight bytes, high ones first; the two in the middle are not printed. */
  function Serial(low: dword, high: dword): (s: string)
    ensures |s| == 13
  {
    Hex2(Byte(high, 3)) + Hex2(Byte(high, 2)) + Hex2(Byte(high, 1)) +
    Hex2(Byte(low, 2)) + Hex2(Byte(low, 1)) + Hex2(Byte(low, 0)) + "\n"
  }

  lemma Hex2Injective(m: int, n: int)
    requires 0 <= m < 256 && 0 <= n < 256 && Hex2(m) == Hex2(n)
    ensures m == n
  {
    assert Hex2(m)[0] == HexDigit(m / 16) && Hex2(n)[0] == HexDigit(n / 16);
    assert Hex2(m)[1] == HexDigit(m % 16) && Hex2(n)[1] == HexDigit(n % 16);
    HexDigitInjective(m / 16, n / 16);
    HexDigitInjective(m % 16, n % 16);
  }

  lemma HexDigitInjective(m: int, n: int)
    requires 0 <= m < 16 && 0 <= n < 16
    ensures HexDigit(m) == HexDigit(n) <==> m == n
  {
    assert HexDigit(m) as int == if m < 10 then 48 + m else 55 + m;
    assert HexDigit(n) as int == if n < 10 then 48 + n else 55 + n;
  }

  /** Two devices print the same serial number exactly when they agree on the six bytes
      printed, whatever the other two are. */
  lemma SerialShowsSixBytes(l: dword, h: dword, l': dword, h': dword)
    ensures Serial(l, h) == Serial(l', h') <==>
              Byte(h, 3) == Byte(h', 3) && Byte(h, 2) == Byte(h', 2) && Byte(h, 1) == Byte(h', 1) &&
              Byte(l, 2) == Byte(l', 2) && Byte(l, 1) == Byte(l', 1) && Byte(l, 0) == Byte(l', 0)
  {
    var s, t := Serial(l, h), Serial(l', h');
    SerialPieces(l, h);
    SerialPieces(l', h');
    if s == t {
      Hex2Injective(Byte(h, 3), Byte(h', 3));
      Hex2Injective(Byte(h, 2), Byte(h', 2));
      Hex2Injective(Byte(h, 1), Byte(h', 1));
      Hex2Injective(Byte(l, 2), Byte(l', 2));
      Hex2Injective(Byte(l, 1), Byte(l', 1));
      Hex2Injective(Byte(l, 0), Byte(l', 0));
    }
  }

  lemma SerialPieces(l: dword, h: dword)
    ensures var s := Serial(l, h);
            s[0..2] == Hex2(Byte(h, 3)) && s[2..4] == Hex2(Byte(h, 2)) && s[4..6] == Hex2(Byte(h, 1)) &&
            s[6..8] == Hex2(Byte(l, 2)) && s[8..10] == Hex2(Byte(l, 1)) && s[10..12] == Hex2(Byte(l, 0))
  {}

  const UNKNOWN := "Unknown"

  // What is printed for a capability at this offset. A failed read counts as zero: its return
  // code is not looked at.
  function SerialAt(cfg: Config, o: nat): string {
    var low, high := Read32(cfg, o + 4), Read32(cfg, o + 8);
    Serial(if low.Some? then low.value else 0, if high.Some? then high.value else 0)
  }

  // ---- the walk as a machine ----

  // At a capability of the standard chain, at one of the extended chain, or finished.
  datatype State = Std(at: nat) | Ext(at: nat) | Done(serial: string)

  function Step(cfg: Config, s: State): State {
    match s
    case Done(_) => s
    case Std(o) =>
      var id := Read8(cfg, o);
      if id.None? then Done(UNKNOWN)
      else if id.value == CAP_ID_EXP then Ext(EXT_START)
      else
        var next := Read8(cfg, o + 1);
        if next.None? || next.value == 0 then Done(UNKNOWN) else Std(next.value)
    case Ext(o) =>
      var header := Read32(cfg, o);
      if header.None? then Done(UNKNOWN)
      else if header.value % 0x1_0000 == EXT_ID_DSN then Done(SerialAt(cfg, o))
      else if header.value / 0x10_0000 == 0 then Done(UNKNOWN)
      else Ext(header.value / 0x10_0000)
  }

  function Start(cfg: Config): State {
    var status, ptr := Read16(cfg, STATUS), Read8(cfg, CAPABILITY_LIST);
    if status.None? || status.value / STATUS_CAP_LIST % 2 == 0 || ptr.None? || ptr.value == 0 then Done(UNKNOWN)
    else Std(ptr.value)
  }

  // The bytes of configuration space from an offset on.
  predicate Has4(cfg: Config, o: nat, a: byte, b: byte, c: byte, d: byte) {
    o in cfg && o + 1 in cfg && o + 2 in cfg && o + 3 in cfg &&
    cfg[o] == a && cfg[o + 1] == b && cfg[o + 2] == c && cfg[o + 3] == d
  }

  /** The machine in the bytes it reads. Where a byte is missing it ends with "Unknown". It
      starts when bit 4 of the status is set, at the offset in byte 0x34. */
  lemma StartInBytes(cfg: Config)
    ensures Start(cfg) ==
              if 0x06 in cfg && 0x07 in cfg && 0x34 in cfg && cfg[0x06] / 16 % 2 == 1 && cfg[0x34] != 0 then Std(cfg[0x34])
              else Done("Unknown")
  {
    if 0x06 in cfg && 0x07 in cfg {
      var s := cfg[0x06] as nat + 256 * cfg[0x07] as nat;
      assert s / 16 == cfg[0x06] as nat / 16 + 16 * (cfg[0x07] as nat);
    }
  }

  /** A standard capability has its kind and the next offset in two bytes; kind 0x10 leads to
      the extended chain at 0x100. */
  lemma StdStepInBytes(cfg: Config, o: nat)
    ensures Step(cfg, Std(o)) ==
              if o in cfg && cfg[o] == 0x10 then Ext(0x100)
              else if o in cfg && o + 1 in cfg && cfg[o + 1] != 0 then Std(cfg[o + 1])
              else Done("Unknown")
  {}

  /** An extended capability has its kind in two bytes, low byte first, and the next offset in
      the upper 12 bits of four; kind 3 ends the walk with a serial number. */
  lemma ExtStepInBytes(cfg: Config, o: nat, a: byte, b: byte, c: byte, d: byte)
    requires Has4(cfg, o, a, b, c, d)
    ensures a == 3 && b == 0 <==> Step(cfg, Ext(o)) == Done(SerialAt(cfg, o))
    ensures !(a == 3 && b == 0) ==>
              Step(cfg, Ext(o)) == if 16 * d + c / 16 == 0 then Done("Unknown") else Ext(16 * d + c / 16)
  {
    HeaderFields(a, b, c, d);
  }

  lemma HeaderFields(a: byte, b: byte, c: byte, d: byte)
    ensures Dword(a, b, c, d) % 0x1_0000 == a + 256 * b && Dword(a, b, c, d) / 0x10_0000 == 16 * d + c / 16
  {
    assert Dword(a, b, c, d) == (a + 256 * b) + 0x1_0000 * (c + 256 * d);
    assert Dword(a, b, c, d) == (a + 256 * b + 0x1_0000 * (c % 16)) + 0x10_0000 * (16 * d + c / 16);
  }

  lemma ExtStepUnread(cfg: Config, o: nat)
    requires !(o in cfg && o + 1 in cfg && o + 2 in cfg && o + 3 in cfg)
    ensures Step(cfg, Ext(o)) == Done("Unknown")
  {}

  function Run(cfg: Config, n: nat): State {
    if n == 0 then Start(cfg) else Step(cfg, Run(cfg, n - 1))
  }

  ghost predicate Halts(cfg: Config) {
    exists n: nat :: Run(cfg, n).Done?
  }

  /** No offset of either chain is met twice. */
  ghost predicate Acyclic(cfg: Config) {
    forall m: nat, n: nat :: m < n && !Run(cfg, m).Done? ==> Run(cfg, m) != Run(cfg, n)
  }

  lemma {:induction false} DoneStays(cfg: Config, m: nat, n: nat)
    requires m <= n && Run(cfg, m).Done?
    ensures Run(cfg, n) == Run(cfg, m)
  {
    if m < n { DoneStays(cfg, m, n - 1); }
  }

  /** The serial number a halting walk ends with. */
  ghost function Result(cfg: Config): string
    requires Halts(cfg)
  {
    var n: nat :| Run(cfg, n).Done?;
    Run(cfg, n).serial
  }

  lemma ResultAt(cfg: Config, n: nat)
    requires Run(cfg, n).Done?
    ensures Halts(cfg) && Result(cfg) == Run(cfg, n).serial
  {
    var m: nat :| Run(cfg, m).Done? && Result(cfg) == Run(cfg, m).serial;
    if m <= n { DoneStays(cfg, m, n); } else { DoneStays(cfg, n, m); }
  }

  // ---- there are finitely many places to be ----

  const PLACES: nat := 256 + 4096

  // A running state as a number.
  function Place(s: State): nat {
    match s
    case Std(o) => o
    case Ext(o) => 256 + o
    case Done(_) => PLACES
  }

  lemma {:induction false} RunPlace(cfg: Config, n: nat)
    requires !Run(cfg, n).Done?
    ensures Place(Run(cfg, n)) < PLACES
    ensures Run(cfg, n).Std? ==> Run(cfg, n).at < 256
  {
    if n > 0 { RunPlace(cfg, n - 1); }
  }

  lemma SamePlaceSameState(cfg: Config, m: nat, n: nat)
    requires !Run(cfg, m).Done? && !Run(cfg, n).Done? && Place(Run(cfg, m)) == Place(Run(cfg, n))
    ensures Run(cfg, m) == Run(cfg, n)
  {
    RunPlace(cfg, m);
    RunPlace(cfg, n);
  }

  // The places met before step n.
  ghost function Visited(cfg: Config, n: nat): set<nat> {
    if n == 0 then {} else Visited(cfg, n - 1) + {Place(Run(cfg, n - 1))}
  }

  lemma {:induction false} NewPlace(cfg: Config, m: nat, n: nat)
    requires Acyclic(cfg) && m <= n && !Run(cfg, n).Done?
    ensures Place(Run(cfg, n)) !in Visited(cfg, m)
  {
    if m > 0 {
      NewPlace(cfg, m - 1, n);
      RunPlace(cfg, n);
      if Place(Run(cfg, m - 1)) == Place(Run(cfg, n)) { SamePlaceSameState(cfg, m - 1, n); }
    }
  }

  lemma {:induction false} VisitedCount(cfg: Config, n: nat)
    requires Acyclic(cfg) && !Run(cfg, n).Done?
    ensures |Visited(cfg, n)| == n && forall p :: p in Visited(cfg, n) ==> p < PLACES
  {
    if n > 0 {
      VisitedCount(cfg, n - 1);
      RunPlace(cfg, n - 1);
      NewPlace(cfg, n - 1, n - 1);
    }
  }

  lemma {:induction false} SmallSet(s: set<nat>, n: nat)
    requires forall p :: p in s ==> p < n
    ensures |s| <= n
  {
    if n > 0 {
      SmallSet(s - {n - 1}, n - 1);
    } else {
      assert s == {};
    }
  }

  /** A walk that is still running after n steps without meeting a place twice has n < 4352. */
  lemma RunningIsShort(cfg: Config, n: nat)
    requires Acyclic(cfg) && !Run(cfg, n).Done?
    ensures n < PLACES
  {
    VisitedCount(cfg, n);
    NewPlace(cfg, n, n);
    RunPlace(cfg, n);
    SmallSet(Visited(cfg, n) + {Place(Run(cfg, n))}, PLACES);
  }

  lemma {:induction false} Repeats(cfg: Config, m: nat, n: nat, k: nat)
    requires Run(cfg, m) == Run(cfg, n)
    ensures Run(cfg, m + k) == Run(cfg, n + k)
  {
    if k > 0 { Repeats(cfg, m, n, k - 1); }
  }

  // A running state met twice is met again and again, so the walk never ends.
  lemma {:induction false} LoopNeverHalts(cfg: Config, m: nat, n: nat, k: nat)
    requires m < n && !Run(cfg, m).Done? && Run(cfg, m) == Run(cfg, n)
    ensures !Run(cfg, k).Done?
    decreases k
  {
    if k <= n {
      if Run(cfg, k).Done? { DoneStays(cfg, k, n); }
    } else {
      LoopNeverHalts(cfg, m, n, k - (n - m));
      Repeats(cfg, m, n, k - n);
    }
  }

  /** The walk ends exactly when no place is met twice, and then within 4352 steps. */
  lemma HaltsIffAcyclic(cfg: Config)
    ensures Halts(cfg) <==> Acyclic(cfg)
    ensures Halts(cfg) ==> Run(cfg, PLACES).Done?
  {
    if Acyclic(cfg) {
      if !Run(cfg, PLACES).Done? { RunningIsShort(cfg, PLACES); }
    }
    if Halts(cfg) {
      var k: nat :| Run(cfg, k).Done?;
      forall m: nat, n: nat | m < n && !Run(cfg, m).Done? ensures Run(cfg, m) != Run(cfg, n) {
        if Run(cfg, m) == Run(cfg, n) { LoopNeverHalts(cfg, m, n, k); }
      }
    }
  }

  /** In particular a standard chain that closes on itself without the PCI Express capability
      keeps the walk running for ever. */
  lemma CyclicChainNeverHalts(cfg: Config, m: nat, n: nat)
    requires m < n && Run(cfg, m).Std? && Run(cfg, m) == Run(cfg, n)
    ensures !Halts(cfg)
  {
    forall k: nat ensures !Run(cfg, k).Done? { LoopNeverHalts(cfg, m, n, k); }
  }

  /** Such spaces exist: here the capability at 0x40 names itself as the next one, every read
      succeeds, and the walk has no end. */
  lemma SelfLinkedCapability(cfg: Config)
    requires STATUS in cfg && STATUS + 1 in cfg && cfg[STATUS] == STATUS_CAP_LIST
    requires CAPABILITY_LIST in cfg && cfg[CAPABILITY_LIST] == 0x40
    requires 0x40 in cfg && cfg[0x40] != CAP_ID_EXP && 0x41 in cfg && cfg[0x41] == 0x40
    ensures !Halts(cfg) && !Acyclic(cfg)
  {
    assert Run(cfg, 0) == Std(0x40) == Run(cfg, 1);
    CyclicChainNeverHalts(cfg, 0, 1);
    HaltsIffAcyclic(cfg);
  }

  lemma ClosedChainExists() returns (cfg: Config)
    ensures !Halts(cfg)
  {
    cfg := map[STATUS := STATUS_CAP_LIST, STATUS + 1 := 0, CAPABILITY_LIST := 0x40, 0x40 := 1, 0x41 := 0x40];
    SelfLinkedCapability(cfg);
  }

  // ---- the loops ----

  // The inner loop, over the extended chain.
  method WalkExtended(cfg: Config, ghost start: nat) returns (serial: string)
    requires Acyclic(cfg) && Run(cfg, start) == Ext(EXT_START)
    ensures Halts(cfg) && serial == Result(cfg)
  {
    var offset: nat := EXT_START;
    ghost var end := start;
    serial := UNKNOWN;
    while true
      invariant Run(cfg, end) == Ext(offset) && serial == UNKNOWN
      decreases PLACES - end
    {
      RunningIsShort(cfg, end);
      end := end + 1;
      var header := Read32(cfg, offset);
      if header.None? {
        ResultAt(cfg, end);
        return;
      }
      if header.value % 0x1_0000 == EXT_ID_DSN {
        serial := SerialAt(cfg, offset);
        ResultAt(cfg, end);
        return;
      }
      offset := header.value / 0x10_0000;
      if offset == 0 {
        ResultAt(cfg, end);
        return;
      }
    }
  }

  /** The whole of get_device_serial_number: on a configuration space whose chains do not close
      on themselves it ends, with the result of the walk. */
  method GetDeviceSerialNumber(cfg: Config) returns (serial: string)
    requires ChainsOpen(cfg)
    ensures Halts(cfg) && serial == Result(cfg)
  {
    HaltsIffChainsOpen(cfg);
    serial := UNKNOWN;
    ghost var n: nat := 0;
    var status := Read16(cfg, STATUS);
    if status.None? || status.value / STATUS_CAP_LIST % 2 == 0 {
      ResultAt(cfg, 0);
      return;
    }
    var ptr := Read8(cfg, CAPABILITY_LIST);
    if ptr.None? {
      ResultAt(cfg, 0);
      return;
    }
    var offset: nat := ptr.value;
    while offset != 0
      invariant Run(cfg, n) == if offset == 0 then Done(UNKNOWN) else Std(offset)
      invariant serial == UNKNOWN
      decreases PLACES - n, offset != 0
    {
      RunningIsShort(cfg, n);
      var id := Read8(cfg, offset);
      if id.None? {
        ResultAt(cfg, n + 1);
        return;
      }
      if id.value == CAP_ID_EXP {
        serial := WalkExtended(cfg, n + 1);
        return;
      }
      var next := Read8(cfg, offset + 1);
      if next.None? {
        ResultAt(cfg, n + 1);
        return;
      }
      offset := next.value;
      n := n + 1;
    }
    ResultAt(cfg, n);
  }

  // ---- what the result is, in terms of the chains ----

  // A capability that is not PCI Express and the next one.
  predicate StdLink(cfg: Config, a: nat, b: nat) {
    Read8(cfg, a).Some? && Read8(cfg, a).value != CAP_ID_EXP && Read8(cfg, a + 1) == Some(b) && b != 0
  }

  // An extended capability that is not the serial number and the next one.
  predicate ExtLink(cfg: Config, a: nat, b: nat) {
    Read32(cfg, a).Some? && Read32(cfg, a).value % 0x1_0000 != EXT_ID_DSN &&
    Read32(cfg, a).value / 0x10_0000 == b && b != 0
  }

  // The offsets of a chain: a list from the first, each leading to the next.
  predicate StdChain(cfg: Config, chain: seq<nat>) {
    var n := |chain|;
    n > 0 && if n == 1 then Start(cfg) == Std(chain[0])
             else StdChain(cfg, chain[..n - 1]) && StdLink(cfg, chain[n - 2], chain[n - 1])
  }

  predicate ExtChain(cfg: Config, chain: seq<nat>) {
    var n := |chain|;
    n > 0 && if n == 1 then chain[0] == EXT_START
             else ExtChain(cfg, chain[..n - 1]) && ExtLink(cfg, chain[n - 2], chain[n - 1])
  }

  // The standard chain leads to a PCI Express capability.
  ghost predicate IsExpress(cfg: Config, std: seq<nat>) {
    StdChain(cfg, std) && Read8(cfg, std[|std| - 1]) == Some(CAP_ID_EXP)
  }

  // The extended chain leads to a first serial number capability.
  ghost predicate IsDsn(cfg: Config, ext: seq<nat>) {
    ExtChain(cfg, ext) && Read32(cfg, ext[|ext| - 1]).Some? &&
    Read32(cfg, ext[|ext| - 1]).value % 0x1_0000 == EXT_ID_DSN
  }

  lemma {:induction false} StdChainIsRun(cfg: Config, chain: seq<nat>)
    requires StdChain(cfg, chain)
    ensures Run(cfg, |chain| - 1) == Std(chain[|chain| - 1])
  {
    if |chain| > 1 { StdChainIsRun(cfg, chain[..|chain| - 1]); }
  }

  lemma {:induction false} ExtChainIsRun(cfg: Config, std: seq<nat>, ext: seq<nat>)
    requires IsExpress(cfg, std) && ExtChain(cfg, ext)
    ensures Run(cfg, |std| + |ext| - 1) == Ext(ext[|ext| - 1])
  {
    if |ext| == 1 {
      StdChainIsRun(cfg, std);
    } else {
      ExtChainIsRun(cfg, std, ext[..|ext| - 1]);
    }
  }

  /** The serial number comes from the first serial number capability in chain order. */
  lemma SerialFromFirstDsn(cfg: Config, std: seq<nat>, ext: seq<nat>)
    requires IsExpress(cfg, std) && IsDsn(cfg, ext)
    ensures Halts(cfg) && Result(cfg) == SerialAt(cfg, ext[|ext| - 1])
  {
    ExtChainIsRun(cfg, std, ext);
    ResultAt(cfg, |std| + |ext|);
  }

  // The chains that lead to a running state.
  lemma {:induction false} ChainsOfRun(cfg: Config, n: nat) returns (std: seq<nat>, ext: seq<nat>)
    requires !Run(cfg, n).Done?
    ensures Run(cfg, n).Std? ==> StdChain(cfg, std) && std[|std| - 1] == Run(cfg, n).at && |std| == n + 1
    ensures Run(cfg, n).Ext? ==> IsExpress(cfg, std) && ExtChain(cfg, ext) && ext[|ext| - 1] == Run(cfg, n).at &&
                                 |std| + |ext| == n + 1
  {
    if n == 0 {
      return [Start(cfg).at], [];
    }
    std, ext := ChainsOfRun(cfg, n - 1);
    var s := Run(cfg, n);
    if s.Std? {
      var longer := std + [s.at];
      assert longer[..|std|] == std;
      std := longer;
    } else if Run(cfg, n - 1).Std? {
      ext := [EXT_START];
    } else {
      var longer := ext + [s.at];
      assert longer[..|ext|] == ext;
      ext := longer;
    }
  }

  /** And whenever it is not "Unknown", that is where it came from: the result is the serial of
      the first such capability if there is one, and "Unknown" if there is none or a read on
      the way fails. */
  lemma ResultIsFirstDsn(cfg: Config)
    requires Halts(cfg)
    ensures (exists std, ext :: IsExpress(cfg, std) && IsDsn(cfg, ext) && Result(cfg) == SerialAt(cfg, ext[|ext| - 1])) ||
            (Result(cfg) == "Unknown" && !exists std, ext :: IsExpress(cfg, std) && IsDsn(cfg, ext))
  {
    if std, ext :| IsExpress(cfg, std) && IsDsn(cfg, ext) {
      SerialFromFirstDsn(cfg, std, ext);
    } else {
      var n := FirstDone(cfg);
      ResultAt(cfg, n);
      if n > 0 {
        var s := Run(cfg, n - 1);
        var std, ext := ChainsOfRun(cfg, n - 1);
        if s.Ext? && Read32(cfg, s.at).Some? {
          assert Read32(cfg, s.at).value % 0x1_0000 == EXT_ID_DSN ==> IsDsn(cfg, ext);
        }
      }
    }
  }

  // ---- the condition for an end, on configuration space itself ----

  predicate Distinct(s: seq<nat>) {
    forall i, j :: 0 <= i < j < |s| ==> s[i] != s[j]
  }

  /** No standard chain comes back to an offset, and no extended chain does, if the standard one
      leads to it. */
  ghost predicate ChainsOpen(cfg: Config) {
    && (forall std :: StdChain(cfg, std) ==> Distinct(std))
    && (forall std, ext :: IsExpress(cfg, std) && ExtChain(cfg, ext) ==> Distinct(ext))
  }

  lemma {:induction false} StdChainRuns(cfg: Config, std: seq<nat>, i: nat)
    requires StdChain(cfg, std) && i < |std|
    ensures Run(cfg, i) == Std(std[i])
  {
    if i == |std| - 1 { StdChainIsRun(cfg, std); } else { StdChainRuns(cfg, std[..|std| - 1], i); }
  }

  lemma {:induction false} ExtChainRuns(cfg: Config, std: seq<nat>, ext: seq<nat>, i: nat)
    requires IsExpress(cfg, std) && ExtChain(cfg, ext) && i < |ext|
    ensures Run(cfg, |std| + i) == Ext(ext[i])
  {
    if i == |ext| - 1 { ExtChainIsRun(cfg, std, ext); } else { ExtChainRuns(cfg, std, ext[..|ext| - 1], i); }
  }

  // Open chains are not met twice: a state met again is an offset that its chain repeats.
  lemma OpenNeverRepeats(cfg: Config, m: nat, n: nat)
    requires ChainsOpen(cfg) && m < n && !Run(cfg, m).Done?
    ensures Run(cfg, m) != Run(cfg, n)
  {
    if !Run(cfg, n).Done? {
      var std, ext := ChainsOfRun(cfg, n);
      if m < |std| { StdChainRuns(cfg, std, m); }
      if Run(cfg, n).Std? {
        assert Distinct(std);
      } else {
        assert Distinct(ext);
        if m >= |std| { ExtChainRuns(cfg, std, ext, m - |std|); }
      }
    }
  }

  /** The walk ends exactly when no chain of configuration space comes back to an offset. */
  lemma HaltsIffChainsOpen(cfg: Config)
    ensures Halts(cfg) <==> ChainsOpen(cfg)
    ensures Acyclic(cfg) <==> ChainsOpen(cfg)
  {
    HaltsIffAcyclic(cfg);
    if Acyclic(cfg) {
      forall std | StdChain(cfg, std) ensures Distinct(std) {
        forall i, j | 0 <= i < j < |std| ensures std[i] != std[j] {
          StdChainRuns(cfg, std, i);
          StdChainRuns(cfg, std, j);
        }
      }
      forall std, ext | IsExpress(cfg, std) && ExtChain(cfg, ext) ensures Distinct(ext) {
        forall i, j | 0 <= i < j < |ext| ensures ext[i] != ext[j] {
          ExtChainRuns(cfg, std, ext, i);
          ExtChainRuns(cfg, std, ext, j);
        }
      }
    }
    if ChainsOpen(cfg) {
      forall m: nat, n: nat | m < n && !Run(cfg, m).Done? ensures Run(cfg, m) != Run(cfg, n) {
        OpenNeverRepeats(cfg, m, n);
      }
    }
  }

  lemma FirstDone(cfg: Config) returns (n: nat)
    requires Halts(cfg)
    ensures Run(cfg, n).Done? && (n > 0 ==> !Run(cfg, n - 1).Done?)
  {
    n :| Run(cfg, n).Done?;
    while n > 0 && Run(cfg, n - 1).Done?
      invariant Run(cfg, n).Done?
    {
      n := n - 1;
    }
  }

  // ---- the serial number in the bytes of configuration space ----

  lemma DwordBytes(a: byte, b: byte, c: byte, d: byte)
    ensures var w := Dword(a, b, c, d);
            Byte(w, 0) == a && Byte(w, 1) == b && Byte(w, 2) == c && Byte(w, 3) == d
  {
    var w := Dword(a, b, c, d);
    assert w / 0x100 == b + 0x100 * c + 0x1_0000 * d;
    assert w / 0x1_0000 == c + 0x100 * d;
    assert w / 0x100_0000 == d;
  }

  // Two hexadecimal digits, the high one first.
  lemma HexDigits(n: int)
    requires 0 <= n < 256
    ensures Hex2(n) == ["0123456789ABCDEF"[n / 16], "0123456789ABCDEF"[n % 16]]
  {}

  /** With the chains that lead to a first serial number capability at o, and its eight bytes
      readable, the serial number is that of the bytes at o + 11, 10, 9, 6, 5 and 4. */
  lemma SerialInBytes(cfg: Config, std: seq<nat>, ext: seq<nat>, o: nat)
    requires IsExpress(cfg, std) && IsDsn(cfg, ext) && o == ext[|ext| - 1]
    requires o + 4 in cfg && o + 5 in cfg && o + 6 in cfg && o + 7 in cfg
    requires o + 8 in cfg && o + 9 in cfg && o + 10 in cfg && o + 11 in cfg
    ensures Halts(cfg)
    ensures Result(cfg) == Hex2(cfg[o + 11]) + Hex2(cfg[o + 10]) + Hex2(cfg[o + 9]) +
                           Hex2(cfg[o + 6]) + Hex2(cfg[o + 5]) + Hex2(cfg[o + 4]) + "\n"
  {
    SerialFromFirstDsn(cfg, std, ext);
    DwordBytes(cfg[o + 4], cfg[o + 5], cfg[o + 6], cfg[o + 7]);
    DwordBytes(cfg[o + 8], cfg[o + 9], cfg[o + 10], cfg[o + 11]);
  }

  /** A space in bytes: a capability of another kind at 0x40, the PCI Express capability at
      0x50, an extended capability of another kind at 0x100 and the serial number at 0x110. */
  lemma SerialOfSpace(cfg: Config)
    requires 0x06 in cfg && 0x07 in cfg && cfg[0x06] == 0x10 && cfg[0x07] == 0
    requires 0x34 in cfg && cfg[0x34] == 0x40
    requires 0x40 in cfg && 0x41 in cfg && cfg[0x40] == 0x05 && cfg[0x41] == 0x50
    requires 0x50 in cfg && cfg[0x50] == 0x10
    requires Has4(cfg, 0x100, 0x01, 0x00, 0x01, 0x11) && Has4(cfg, 0x110, 0x03, 0x00, 0x01, 0x00)
    requires Has4(cfg, 0x114, 0x10, 0x11, 0x12, 0x13) && Has4(cfg, 0x118, 0x20, 0x21, 0x22, 0x23)
    ensures Halts(cfg) && Result(cfg) == "232221121110\n"
  {
    SpaceIsExpress(cfg);
    SpaceIsDsn(cfg);
    SerialInBytes(cfg, [0x40, 0x50], [0x100, 0x110], 0x110);
  }

  lemma SpaceIsExpress(cfg: Config)
    requires 0x06 in cfg && 0x07 in cfg && cfg[0x06] == 0x10 && cfg[0x07] == 0
    requires 0x34 in cfg && cfg[0x34] == 0x40
    requires 0x40 in cfg && 0x41 in cfg && cfg[0x40] == 0x05 && cfg[0x41] == 0x50
    requires 0x50 in cfg && cfg[0x50] == 0x10
    ensures IsExpress(cfg, [0x40, 0x50])
  {
    var std := [0x40, 0x50];
    assert std[..1] == [0x40];
    assert StdChain(cfg, std[..1]);
    assert StdChain(cfg, std);
  }

  lemma SpaceIsDsn(cfg: Config)
    requires Has4(cfg, 0x100, 0x01, 0x00, 0x01, 0x11) && Has4(cfg, 0x110, 0x03, 0x00, 0x01, 0x00)
    ensures IsDsn(cfg, [0x100, 0x110])
  {
    var ext := [0x100, 0x110];
    assert ext[..1] == [0x100];
    assert Read32(cfg, 0x100) == Some(0x1101_0001) && Read32(cfg, 0x110) == Some(0x0001_0003);
    assert ExtChain(cfg, ext[..1]);
    assert ExtChain(cfg, ext);
  }
}
