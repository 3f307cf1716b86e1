/** adapt.c: the printed name of an adapter and opening by it. */
module AdapterNames {
  import opened Wrappers
  import opened CText

  const NAME_ROOM: nat := 63   // HBA_SHORT_NAME_LIMIT less the terminator

  // char ifname[20] less the terminator: the name of a network interface.
  type IfName = s: string | |s| <= 19

  // What a loaded adapter is called: "fcoe:%s" of the interface.
  type HostName = s: string | |s| <= 24

  function NameOfHost(ifname: IfName): HostName {
    "fcoe:" + ifname
  }

  lemma {:induction false} DecimalLength(n: nat, width: nat)
    requires width >= 1 && n < Power10(width)
    ensures |Decimal(n)| <= width
  {
    if n >= 10 { DecimalLength(n / 10, width - 1); }
  }

  function Power10(width: nat): nat {
    if width == 0 then 1 else 10 * Power10(width - 1)
  }

  // snprintf(buf, 64, "%s-%u", name, index)
  function Printed(name: string, index: nat): string {
    Cut(name + ['-'] + Decimal(index), NAME_ROOM)
  }

  predicate Untruncated(name: string, index: nat) {
    |name| + 1 + |Decimal(index)| <= NAME_ROOM
  }

  // The names of a table, in index order.
  function PrintedAll(names: seq<string>): (ps: seq<string>)
    ensures |ps| == |names| && forall i :: 0 <= i < |ps| ==> ps[i] == Printed(names[i], i)
  {
    seq(|names|, i requires 0 <= i < |names| => Printed(names[i], i))
  }

  // The first index from i on at which the list has this string.
  function FirstNamed(ps: seq<string>, name: string, i: nat): (k: Option<nat>)
    requires i <= |ps|
    ensures k.Some? ==> i <= k.value < |ps| && ps[k.value] == name && forall j :: i <= j < k.value ==> ps[j] != name
    ensures k.None? ==> forall j :: i <= j < |ps| ==> ps[j] != name
    decreases |ps| - i
  {
    if i == |ps| then None else if ps[i] == name then Some(i) else FirstNamed(ps, name, i + 1)
  }

  // The position of the last dash.
  function LastDash(s: string): (p: int)
    ensures -1 <= p < |s|
  {
    if s == [] then -1 else if s[|s| - 1] == '-' then |s| - 1 else LastDash(s[..|s| - 1])
  }

  lemma {:induction false} DashBeforeDigits(name: string, ds: string)
    requires AllDigits(ds, 10)
    ensures LastDash(name + ['-'] + ds) == |name|
  {
    var s := name + ['-'] + ds;
    if ds != [] {
      var n := |ds| - 1;
      assert IsDigit(ds[n], 10) && s[|s| - 1] == ds[n];
      assert s[..|s| - 1] == name + ['-'] + ds[..n];
      DashBeforeDigits(name, ds[..n]);
    }
  }

  /** The text before truncation tells both the name and the index, even when names hold
      dashes and digits themselves. */
  lemma PrintedIsInjective(name: string, i: nat, other: string, j: nat)
    requires name + ['-'] + Decimal(i) == other + ['-'] + Decimal(j)
    ensures name == other && i == j
  {
    var s := name + ['-'] + Decimal(i);
    DashBeforeDigits(name, Decimal(i));
    DashBeforeDigits(other, Decimal(j));
    assert name == s[..|name|] && other == s[..|name|];
    assert Decimal(i) == s[|name| + 1..] && Decimal(j) == s[|name| + 1..];
  }

  /** Looking up the printed name of entry i finds i exactly when no earlier entry prints the
      same, and always when no name up to i is truncated. */
  lemma FindPrintedName(names: seq<string>, i: nat)
    requires i < |names|
    ensures var ps := PrintedAll(names);
            FirstNamed(ps, ps[i], 0) == Some(i) <==> forall j :: 0 <= j < i ==> ps[j] != ps[i]
    ensures (forall j :: 0 <= j <= i ==> Untruncated(names[j], j)) ==>
              FirstNamed(PrintedAll(names), PrintedAll(names)[i], 0) == Some(i)
  {
    var ps := PrintedAll(names);
    if forall j :: 0 <= j <= i ==> Untruncated(names[j], j) {
      forall j: nat | j < i ensures ps[j] != ps[i] {
        assert Untruncated(names[j], j) && Untruncated(names[i], i);
        if ps[j] == ps[i] { PrintedIsInjective(names[j], j, names[i], i); }
      }
    }
  }

  /** No host name is ever truncated: it is far shorter than the room for it. */
  lemma HostNamesFit(name: HostName, index: u32)
    ensures Untruncated(name, index)
  {
    assert Power10(4) == 10_000 && Power10(7) == 1000 * Power10(4) && Power10(10) == 1000 * Power10(7);
    DecimalLength(index, 10);
  }

  /** For other names the room matters: the index is cut off names of 63 characters or more,
      and the second of two that begin alike is not found by its printed name, which finds the
      first. */
  lemma LongNamesCollide(names: seq<string>, i: nat, j: nat)
    requires j < i < |names| && |names[i]| >= NAME_ROOM && |names[j]| >= NAME_ROOM
    ensures Printed(names[j], j) == Printed(names[i], i) <==> names[j][..NAME_ROOM] == names[i][..NAME_ROOM]
    ensures names[j][..NAME_ROOM] == names[i][..NAME_ROOM] ==>
              FirstNamed(PrintedAll(names), PrintedAll(names)[i], 0) != Some(i)
  {
    assert (names[i] + ['-'] + Decimal(i))[..NAME_ROOM] == names[i][..NAME_ROOM];
    assert (names[j] + ['-'] + Decimal(j))[..NAME_ROOM] == names[j][..NAME_ROOM];
    FindPrintedName(names, i);
  }

  /** What the adapter of an interface prints. */
  lemma PrintedText(ifname: IfName, index: u32)
    ensures Printed(NameOfHost(ifname), index) == "fcoe:" + ifname + "-" + Decimal(index)
  {
    HostNamesFit(NameOfHost(ifname), index);
  }
}
