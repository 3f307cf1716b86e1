/** lport.c: backing up a sysfs link to the last path component that is a PCI address. */
module PciPath {
  import opened CText

  datatype PciAddress = PciAddress(domain: u32, bus: u32, dev: u32, func: u32)

  // "%x:%x:%x.%x" and its tails.
  const FUNC: seq<Directive> := [Unsigned32(16)]
  const DEV_FUNC: seq<Directive> := [Unsigned32(16), Literal('.')] + FUNC
  const BUS_DEV_FUNC: seq<Directive> := [Unsigned32(16), Literal(':')] + DEV_FUNC
  const FORMAT: seq<Directive> := [Unsigned32(16), Literal(':')] + BUS_DEV_FUNC

  // The four fields scanned from a component; fewer when the text does not match.
  function Fields(component: string): (vals: seq<u32>)
    ensures |vals| <= 4
  {
    FourConversions();
    SscanfCount(FORMAT, component);
    Sscanf(FORMAT, component)
  }

  lemma FourConversions()
    ensures Conversions(FORMAT) == 4 && Separated(FORMAT, 16)
  {
    FormatField(16, '.', FUNC);
    FormatField(16, ':', DEV_FUNC);
    FormatField(16, ':', BUS_DEV_FUNC);
  }

  predicate IsPciComponent(component: string) {
    |Fields(component)| == 4
  }

  function Address(component: string): PciAddress
    requires IsPciComponent(component)
  {
    var v := Fields(component);
    PciAddress(v[0], v[1], v[2], v[3])
  }

  // strrchr(s, '/'): the position of the last slash, or -1.
  function LastSlash(s: string): (p: int)
    ensures -1 <= p < |s|
    ensures p >= 0 ==> s[p] == '/'
    ensures forall i :: p < i < |s| ==> s[i] != '/'
  {
    if s == [] then -1
    else if s[|s| - 1] == '/' then |s| - 1
    else LastSlash(s[..|s| - 1])
  }

  // The component that starts after the slash at p: up to the next slash or the end.
  function ComponentAt(s: string, p: nat): (c: string)
    requires p < |s| && s[p] == '/'
    ensures '/' !in c && c <= s[p + 1..]
    ensures p + 1 + |c| < |s| ==> s[p + 1 + |c|] == '/'
  {
    UpToSlash(s[p + 1..])
  }

  function UpToSlash(s: string): (c: string)
    ensures '/' !in c && c <= s && (|c| < |s| ==> s[|c|] == '/')
  {
    if s == [] || s[0] == '/' then [] else [s[0]] + UpToSlash(s[1..])
  }

  predicate PciSlash(s: string, p: nat) {
    p < |s| && s[p] == '/' && IsPciComponent(ComponentAt(s, p))
  }

  // sscanf stores what it converted before it stopped, also when it fails.
  function Overwrite(a: PciAddress, v: seq<u32>): PciAddress
    requires |v| <= 4
  {
    PciAddress(if |v| > 0 then v[0] else a.domain, if |v| > 1 then v[1] else a.bus,
               if |v| > 2 then v[2] else a.dev, if |v| > 3 then v[3] else a.func)
  }

  lemma LastComponent(s: string, p: nat)
    requires p < |s| && s[p] == '/' && forall i :: p < i < |s| ==> s[i] != '/'
    ensures ComponentAt(s, p) == s[p + 1..]
  {
    var c := ComponentAt(s, p);
    assert |c| == |s| - (p + 1);
    assert c == s[p + 1..][..|c|];
  }

  lemma {:induction false} CutUpToSlash(s: string, q: nat)
    requires q < |s| && s[q] == '/'
    ensures UpToSlash(s[..q]) == UpToSlash(s)
  {
    if q > 0 && s[0] != '/' {
      assert s[..q][1..] == s[1..][..q - 1];
      CutUpToSlash(s[1..], q - 1);
    }
  }

  // Cutting the string at a later slash leaves the component as it was.
  lemma CutComponent(s: string, p: nat, q: nat)
    requires p < q < |s| && s[p] == '/' && s[q] == '/'
    ensures ComponentAt(s[..q], p) == ComponentAt(s, p)
  {
    assert s[..q][p + 1..] == s[p + 1..][..q - p - 1];
    CutUpToSlash(s[p + 1..], q - p - 1);
  }

  ghost predicate NoneFrom(s: string, n: nat) {
    forall p: nat :: p >= n ==> !PciSlash(s, p)
  }

  // The buffer is the link cut before one of its slashes.
  ghost predicate IsCut(buf: string, link: string) {
    buf <= link && (|buf| < |link| ==> link[|buf|] == '/')
  }

  // In the cut buffer, the text after the last slash is that slash's component of the link.
  lemma LastOfCut(buf: string, link: string, cp: nat)
    requires IsCut(buf, link) && LastSlash(buf) == cp
    ensures cp < |link| && link[cp] == '/' && ComponentAt(link, cp) == buf[cp + 1..]
    ensures NoneFrom(link, |buf|) ==> NoneFrom(link, cp + 1)
  {
    assert link[..|buf|] == buf;
    LastComponent(buf, cp);
    if |buf| < |link| { CutComponent(link, cp, |buf|); }
    forall p: nat | cp < p < |buf| ensures !PciSlash(link, p) { assert buf[p] == link[p]; }
  }

  lemma NoSlashLeft(buf: string, link: string)
    requires buf <= link && LastSlash(buf) == -1 && NoneFrom(link, |buf|)
    ensures NoneFrom(link, 0)
  {
    forall p: nat | p < |buf| ensures !PciSlash(link, p) { assert buf[p] == link[p]; }
  }

  ghost predicate IsRightmost(s: string, p: nat) {
    PciSlash(s, p) && NoneFrom(s, p + 1)
  }

  /** The loop succeeds exactly when some component after a slash is a PCI address, and then
      the fields are those of the rightmost such component, whatever the failed attempts
      further right had stored. */
  method BackUp(link: string, initial: PciAddress) returns (found: bool, address: PciAddress)
    ensures found <==> exists p: nat :: PciSlash(link, p)
    ensures found ==> exists p: nat :: IsRightmost(link, p) && address == Address(ComponentAt(link, p))
  {
    var buf := link;
    address := initial;
    var rc := 0;
    while true
      invariant IsCut(buf, link) && rc != 4 && NoneFrom(link, |buf|)
      decreases |buf|
    {
      var cp := LastSlash(buf);
      if cp < 0 {
        NoSlashLeft(buf, link);
        break;
      }
      LastOfCut(buf, link, cp);
      var vals := Fields(buf[cp + 1..]);
      address, rc := Overwrite(address, vals), |vals|;
      if rc == 4 {
        assert IsRightmost(link, cp);
        break;
      }
      buf := buf[..cp];
      if cp == 0 { break; }
    }
    found := rc == 4;
  }

  /** There is at most one rightmost component, so the address found is determined. */
  lemma RightmostUnique(s: string, p: nat, q: nat)
    requires IsRightmost(s, p) && IsRightmost(s, q)
    ensures p == q
  {
    assert q < p + 1 && p < q + 1;
  }

  /** A component written as domain:bus:dev.func in hexadecimal is recognised, and its
      address is the four numbers written, whatever follows the last of them. */
  lemma PrintedAddress(digits: seq<string>, tail: string)
    requires |digits| == 4 == Conversions(FORMAT) && Numerals(digits, 16) && StopsNumber(tail, 16)
    ensures var c := Text(FORMAT, digits) + tail;
            IsPciComponent(c) &&
            Address(c) == PciAddress(Value(digits[0], 16), Value(digits[1], 16), Value(digits[2], 16), Value(digits[3], 16))
  {
    FourConversions();
    SscanfText(FORMAT, 16, digits, tail);
  }

  /** A component that does not begin like a number is none, as "host0" or "pci0000:00". */
  lemma NotAnAddress(c: string)
    requires c != [] ==> c[0] !in "0123456789abcdefABCDEF+-" && !IsSpace(c[0])
    ensures !IsPciComponent(c)
  {
    if c != [] { DigitsOnly(c[0], 16); }
    assert SkipSpace(c) == c;
    assert DigitRun(c, 16) == 0;
    assert ScanNumber(c, 16).None?;
  }

  /** The text of such a component. */
  lemma AddressText(d: string, b: string, v: string, f: string)
    ensures Conversions(FORMAT) == 4 && Text(FORMAT, [d, b, v, f]) == d + ":" + (b + ":" + (v + "." + f))
  {
    FourConversions();
    TextOfLast(16, f);
    TextOfField(16, '.', FUNC, v, [f]);
    assert [v] + [f] == [v, f];
    TextOfField(16, ':', DEV_FUNC, b, [v, f]);
    assert [b] + [v, f] == [b, v, f];
    TextOfField(16, ':', BUS_DEV_FUNC, d, [b, v, f]);
    assert [d] + [b, v, f] == [d, b, v, f];
  }

  // The text of a number below 16, and of one below 256 in two digits.
  lemma HexDigit(k: nat)
    requires k < 16
    ensures Numeral(["0123456789abcdef"[k]], 16) && Value(["0123456789abcdef"[k]], 16) == k
  {
    DigitTable(k);
    ValueOfLast([], k, 16);
    assert [] + ["0123456789abcdef"[k]] == ["0123456789abcdef"[k]];
  }

  lemma HexPair(j: nat, k: nat)
    requires j < 16 && k < 16
    ensures var ds := ["0123456789abcdef"[j]] + ["0123456789abcdef"[k]]; Numeral(ds, 16) && Value(ds, 16) == 16 * j + k
  {
    HexDigit(j);
    DigitTable(k);
    ValueOfLast(["0123456789abcdef"[j]], k, 16);
  }

  /** The usual form of an address: a domain of four zeros, two digits each for bus and
      device and one for the function, as in "0000:0a:00.0". */
  lemma UsualAddress(b1: nat, b0: nat, v1: nat, v0: nat, f: nat)
    requires b1 < 16 && b0 < 16 && v1 < 16 && v0 < 16 && f < 16
    ensures var hex := "0123456789abcdef";
            var c := "0000:" + ([hex[b1], hex[b0]] + ":" + ([hex[v1], hex[v0]] + "." + [hex[f]]));
            IsPciComponent(c) && Address(c) == PciAddress(0, 16 * b1 + b0, 16 * v1 + v0, f)
  {
    var hex := "0123456789abcdef";
    var b, v, g := [hex[b1]] + [hex[b0]], [hex[v1]] + [hex[v0]], [hex[f]];
    FourZeros();
    HexPair(b1, b0);
    HexPair(v1, v0);
    HexDigit(f);
    AddressText("0000", b, v, g);
    PrintedAddress(["0000", b, v, g], "");
    assert b == [hex[b1], hex[b0]] && v == [hex[v1], hex[v0]];
    var more := b + ":" + (v + "." + g);
    assert "0000:" + more == "0000" + ":" + more == Text(FORMAT, ["0000", b, v, g]) + "";
  }

  lemma FourZeros()
    ensures Numeral("0000", 16) && Value("0000", 16) == 0
  {
    HexPair(0, 0);
    assert "000" == ["0123456789abcdef"[0]] + ["0123456789abcdef"[0]] + ["0123456789abcdef"[0]];
    assert "0000" == "000" + ["0123456789abcdef"[0]];
    ValueOfLast("00", 0, 16);
    ValueOfLast("000", 0, 16);
  }
}
