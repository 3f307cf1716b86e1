/** lport.c: the comma-separated list of port speeds, read with a table cursor that only
    moves forward. */
module SpeedList {
  import opened CText
  import opened Wrappers

  datatype NameVal = NameVal(name: string, val: Word)

  // strncasecmp(name, s, strlen(name)) == 0
  predicate PrefixIgnoringCase(name: string, s: string) {
    |name| <= |s| && forall i :: 0 <= i < |name| ==> ToLower(name[i]) == ToLower(s[i])
  }

  // The first table entry from tp on whose name starts the text, or the end of the table.
  function FindFrom(table: seq<NameVal>, s: string, tp: nat): (k: nat)
    requires tp <= |table|
    ensures tp <= k <= |table|
    ensures k < |table| ==> PrefixIgnoringCase(table[k].name, s)
    decreases |table| - tp
  {
    if tp == |table| || PrefixIgnoringCase(table[tp].name, s) then tp else FindFrom(table, s, tp + 1)
  }

  /** The value the parser adds up from text s with the cursor at tp. */
  function Parse(table: seq<NameVal>, s: string, tp: nat, val: Word): Word
    requires tp <= |table|
    decreases |s|, 1
  {
    if s == [] then val
    else
      var k := FindFrom(table, s, tp);
      if k < |table| then ParseRest(table, s[|table[k].name|..], k, val + table[k].val)
      else ParseRest(table, s, k, val)
  }

  function ParseRest(table: seq<NameVal>, s: string, tp: nat, val: Word): Word
    requires tp <= |table|
    decreases |s|, 0
  {
    if s == [] || s[0] != ',' then val else Parse(table, AfterComma(s), tp, val)
  }

  // The inner loop: the cursor moves on to the first entry that matches.
  method Advance(table: seq<NameVal>, cp: string, tp: nat) returns (k: nat)
    requires tp <= |table|
    ensures k == FindFrom(table, cp, tp)
  {
    k := tp;
    while k < |table| && !PrefixIgnoringCase(table[k].name, cp)
      invariant k <= |table| && FindFrom(table, cp, tp) == FindFrom(table, cp, k)
      decreases |table| - k
    {
      k := k + 1;
    }
  }

  // The outer loop, over the items of the list.
  method AddUp(table: seq<NameVal>, buf: string) returns (val: Word)
    ensures val == Parse(table, buf, 0, {})
  {
    var cp, tp: nat := buf, 0;
    val := {};
    while cp != []
      invariant tp <= |table| && Parse(table, cp, tp, val) == Parse(table, buf, 0, {})
      decreases |cp|
    {
      tp := Advance(table, cp, tp);
      if tp < |table| {
        val := val + table[tp].val;
        cp := cp[|table[tp].name|..];
      }
      assert ParseRest(table, cp, tp, val) == Parse(table, buf, 0, {});
      if cp == [] || cp[0] != ',' {
        break;
      }
      cp := AfterComma(cp);
    }
  }

  /** The file's line (None when it cannot be read) to a return code and a speed mask. */
  method ReadSpeed(table: seq<NameVal>, line: Option<string>) returns (rc: int, speeds: Word)
    ensures rc == if line.Some? then 0 else -1
    ensures speeds == if line.Some? && !StrStr(line.value, "Unknown") then Parse(table, line.value, 0, {}) else {}
  {
    rc := if line.Some? then 0 else -1;
    speeds := {};
    if rc == 0 && !StrStr(line.value, "Unknown") {
      speeds := AddUp(table, line.value);
    }
  }

  // ---- reading back a printed list ----

  /** No name is, ignoring case, a prefix of another, and no name is empty or holds a comma. */
  predicate PrefixFree(table: seq<NameVal>) {
    && (forall j, k :: 0 <= j < |table| && 0 <= k < |table| && j != k ==>
         !PrefixIgnoringCase(table[j].name, table[k].name))
    && (forall j :: 0 <= j < |table| ==> table[j].name != [] && ',' !in table[j].name)
  }

  predicate Indices(table: seq<NameVal>, ks: seq<nat>) {
    forall i :: 0 <= i < |ks| ==> ks[i] < |table|
  }

  // The names joined by ", ".
  function Print(table: seq<NameVal>, ks: seq<nat>): string
    requires Indices(table, ks)
    decreases |ks|, 0
  {
    if ks == [] then "" else table[ks[0]].name + PrintRest(table, ks[1..])
  }

  function PrintRest(table: seq<NameVal>, ks: seq<nat>): string
    requires Indices(table, ks)
    decreases |ks|, 1
  {
    if ks == [] then "" else ", " + Print(table, ks)
  }

  predicate NonDecreasing(ks: seq<nat>) {
    forall i, j :: 0 <= i < j < |ks| ==> ks[i] <= ks[j]
  }

  /** The length of the longest non-decreasing prefix, of entries not below tp. */
  function Run(ks: seq<nat>, tp: nat): (n: nat)
    ensures n <= |ks|
  {
    if ks == [] || ks[0] < tp then 0 else 1 + Run(ks[1..], ks[0])
  }

  lemma {:induction false} RunIsLongest(ks: seq<nat>, tp: nat)
    ensures var n := Run(ks, tp);
            NonDecreasing(ks[..n]) && (forall i :: 0 <= i < n ==> tp <= ks[i]) &&
            (n < |ks| ==> ks[n] < if n == 0 then tp else ks[n - 1])
  {
    if ks != [] && ks[0] >= tp {
      RunIsLongest(ks[1..], ks[0]);
      var n := Run(ks, tp);
      assert forall i :: 1 <= i < n ==> ks[i] == ks[1..][..n - 1][i - 1];
    }
  }

  // The bits of the listed speeds.
  function Speeds(table: seq<NameVal>, ks: seq<nat>): Word
    requires Indices(table, ks)
  {
    set k, b | k in ks && b in table[k].val :: b
  }

  lemma SpeedsSplit(table: seq<NameVal>, ks: seq<nat>, val: Word)
    requires Indices(table, ks) && ks != []
    ensures val + Speeds(table, ks) == val + table[ks[0]].val + Speeds(table, ks[1..])
  {
    assert forall k :: k in ks <==> k == ks[0] || k in ks[1..];
  }

  // What may follow a name in a printed list.
  predicate EndsName(tail: string) {
    tail == [] || tail[0] == ','
  }

  lemma OtherNameDoesNotMatch(table: seq<NameVal>, j: nat, k: nat, tail: string)
    requires PrefixFree(table) && j < |table| && k < |table| && j != k && EndsName(tail)
    ensures !PrefixIgnoringCase(table[j].name, table[k].name + tail)
  {
    var a, b := table[j].name, table[k].name;
    var s := b + tail;
    if |a| <= |b| {
      assert !PrefixIgnoringCase(a, b);
      assert forall i :: 0 <= i < |a| ==> s[i] == b[i];
    } else if |b| < |s| {
      assert s[|b|] == tail[0] == ',';
      assert a[|b|] != ',' && a[|b|] in a;
    }
  }

  lemma {:induction false} FindPrinted(table: seq<NameVal>, k: nat, tail: string, tp: nat)
    requires PrefixFree(table) && tp <= |table| && k < |table| && EndsName(tail)
    ensures FindFrom(table, table[k].name + tail, tp) == if tp <= k then k else |table|
    decreases |table| - tp
  {
    if tp < |table| && tp != k {
      OtherNameDoesNotMatch(table, tp, k, tail);
      FindPrinted(table, k, tail, tp + 1);
    }
  }

  lemma {:induction false} ParsePrinted(table: seq<NameVal>, ks: seq<nat>, tp: nat, val: Word)
    requires PrefixFree(table) && Indices(table, ks) && tp <= |table|
    ensures Parse(table, Print(table, ks), tp, val) == val + Speeds(table, ks[..Run(ks, tp)])
    decreases |ks|, 0
  {
    if ks == [] {
      assert val + Speeds(table, ks[..0]) == val;
    } else {
      var k, s, tail := ks[0], Print(table, ks), PrintRest(table, ks[1..]);
      var name := table[k].name;
      FindPrinted(table, k, tail, tp);
      assert name != [] && name[0] in name && s[0] == name[0];
      if tp <= k {
        assert s[|name|..] == tail;
        assert Parse(table, s, tp, val) == ParseRest(table, tail, k, val + table[k].val);
        ParsePrintedRest(table, ks[1..], k, val + table[k].val);
        var run := ks[..Run(ks, tp)];
        assert run[1..] == ks[1..][..Run(ks[1..], k)];
        SpeedsSplit(table, run, val);
      } else {
        assert val + Speeds(table, ks[..0]) == val;
      }
    }
  }

  lemma {:induction false} ParsePrintedRest(table: seq<NameVal>, ks: seq<nat>, tp: nat, val: Word)
    requires PrefixFree(table) && Indices(table, ks) && tp <= |table|
    ensures ParseRest(table, PrintRest(table, ks), tp, val) == val + Speeds(table, ks[..Run(ks, tp)])
    decreases |ks|, 1
  {
    if ks == [] {
      assert val + Speeds(table, ks[..0]) == val;
    } else {
      assert AfterComma(PrintRest(table, ks)) == Print(table, ks);
      ParsePrinted(table, ks, tp, val);
    }
  }

  lemma {:induction false} CharacterOfPrint(table: seq<NameVal>, ks: seq<nat>, c: char)
    requires Indices(table, ks) && c != ',' && c != ' '
    requires forall i :: 0 <= i < |ks| ==> c !in table[ks[i]].name
    ensures c !in Print(table, ks)
  {
    if ks != [] {
      CharacterOfPrint(table, ks[1..], c);
    }
  }

  /** For every list of names printed as the kernel does, the parser adds up exactly the
      longest prefix in table order; that is the whole list when it is in table order. */
  lemma PrintedListParses(table: seq<NameVal>, ks: seq<nat>)
    requires PrefixFree(table) && Indices(table, ks)
    ensures Parse(table, Print(table, ks), 0, {}) == Speeds(table, ks[..Run(ks, 0)])
    ensures NonDecreasing(ks) <==> Run(ks, 0) == |ks|
    ensures NonDecreasing(ks) ==> Parse(table, Print(table, ks), 0, {}) == Speeds(table, ks)
  {
    ParsePrinted(table, ks, 0, {});
    RunIsLongest(ks, 0);
    assert ks[..|ks|] == ks;
  }

  /** The whole list is read exactly when the prefix in table order already has the values of
      all names listed; a name out of order does no harm when it was read before. */
  lemma ReadsAllIff(table: seq<NameVal>, ks: seq<nat>)
    requires PrefixFree(table) && Indices(table, ks)
    ensures var run := ks[..Run(ks, 0)];
            Parse(table, Print(table, ks), 0, {}) == Speeds(table, ks) <==>
              forall k :: k in ks ==> table[k].val <= Speeds(table, run)
  {
    PrintedListParses(table, ks);
    var run := ks[..Run(ks, 0)];
    assert forall k :: k in run ==> k in ks;
    assert forall k :: k in ks ==> table[k].val <= Speeds(table, ks);
    if forall k :: k in ks ==> table[k].val <= Speeds(table, run) {
      assert Speeds(table, ks) == Speeds(table, run);
    }
  }

  // Every name has bits of its own, as in the library's table.
  predicate OwnBits(table: seq<NameVal>) {
    && (forall k :: 0 <= k < |table| ==> table[k].val != {})
    && (forall j, k :: 0 <= j < |table| && 0 <= k < |table| && j != k ==> table[j].val !! table[k].val)
  }

  /** With values that share no bits, the whole list is read exactly when every name listed is
      in the prefix in table order. */
  lemma ReadsAllIffInPrefix(table: seq<NameVal>, ks: seq<nat>)
    requires PrefixFree(table) && Indices(table, ks) && OwnBits(table)
    ensures Parse(table, Print(table, ks), 0, {}) == Speeds(table, ks) <==>
              forall k :: k in ks ==> k in ks[..Run(ks, 0)]
  {
    ReadsAllIff(table, ks);
    var run := ks[..Run(ks, 0)];
    forall k | k in ks ensures table[k].val <= Speeds(table, run) <==> k in run {
      var b :| b in table[k].val;
      if b in Speeds(table, run) {
        var j :| j in run && b in table[j].val;
        assert j == k;
      }
    }
  }

  // ---- the library's table ----

  function SpeedName(k: nat): string {
    if k == 0 then "Unknown" else if k == 1 then "1 Gbit" else if k == 2 then "2 Gbit"
    else if k == 3 then "4 Gbit" else if k == 4 then "10 Gbit" else if k == 5 then "8 Gbit"
    else if k == 6 then "16 Gbit" else if k == 7 then "32 Gbit" else if k == 8 then "20 Gbit"
    else if k == 9 then "40 Gbit" else "Not Negotiated"
  }

  /** The values, one for each name, come from the HBA-API header, which is not part of this
      model. */
  function PortSpeeds(v: seq<Word>): (table: seq<NameVal>)
    requires |v| == 11
    ensures |table| == 11
  {
    seq(11, k requires 0 <= k < 11 => NameVal(SpeedName(k), v[k]))
  }

  // The first two characters of a name, lower-cased, as one number.
  function Head(name: string): int
    requires |name| >= 2
  {
    ToLower(name[0]) as int * 256 + ToLower(name[1]) as int
  }

  const HEADS: seq<int> := [30062, 12576, 12832, 13344, 12592, 14368, 12598, 13106, 12848, 13360, 28271]

  lemma SpeedNameHead(k: nat)
    requires k < 11
    ensures var name := SpeedName(k);
            |name| >= 2 && Head(name) == HEADS[k] && ',' !in name && (k > 0 ==> 'U' !in name)
  {}

  // The first two characters already tell the names apart.
  lemma PortSpeedsArePrefixFree(v: seq<Word>)
    requires |v| == 11
    ensures PrefixFree(PortSpeeds(v))
  {
    var t := PortSpeeds(v);
    assert forall j, k :: 0 <= j < k < 11 ==> HEADS[j] != HEADS[k];
    forall j | 0 <= j < 11
      ensures |t[j].name| >= 2 && Head(t[j].name) == HEADS[j] && ',' !in t[j].name
    {
      SpeedNameHead(j);
    }
  }

  /** Round trip through the file: a printed list of speeds other than Unknown is not taken
      for an unknown speed, and the parser returns its longest prefix in table order. */
  lemma PortSpeedsRoundTrip(v: seq<Word>, ks: seq<nat>)
    requires |v| == 11 && forall i :: 0 <= i < |ks| ==> 1 <= ks[i] < 11
    ensures var t := PortSpeeds(v);
            && Indices(t, ks)
            && !StrStr(Print(t, ks), "Unknown")
            && Parse(t, Print(t, ks), 0, {}) == Speeds(t, ks[..Run(ks, 0)])
            && (NonDecreasing(ks) ==> Parse(t, Print(t, ks), 0, {}) == Speeds(t, ks))
            && (OwnBits(t) ==> (Parse(t, Print(t, ks), 0, {}) == Speeds(t, ks) <==>
                                  forall k :: k in ks ==> k in ks[..Run(ks, 0)]))
  {
    var t := PortSpeeds(v);
    PortSpeedsArePrefixFree(v);
    PrintedListParses(t, ks);
    if OwnBits(t) { ReadsAllIffInPrefix(t, ks); }
    forall i | 0 <= i < |ks| ensures 'U' !in t[ks[i]].name {
      SpeedNameHead(ks[i]);
    }
    CharacterOfPrint(t, ks, 'U');
    assert "Unknown"[0] == 'U';
    NoSuchCharacter(Print(t, ks), "Unknown", 'U');
  }

  /** Of two names printed against table order, the second is always lost: of
      "8 Gbit, 10 Gbit" only 8 Gbit is read, because the table has 10 Gbit before it. */
  lemma OutOfOrderPair(v: seq<Word>, j: nat, k: nat)
    requires |v| == 11 && 1 <= k < j < 11
    ensures var t := PortSpeeds(v);
            Print(t, [j, k]) == t[j].name + (", " + t[k].name) && Parse(t, Print(t, [j, k]), 0, {}) == v[j]
  {
    var t := PortSpeeds(v);
    PortSpeedsArePrefixFree(v);
    assert [j, k][1..] == [k] && [k][1..] == [];
    assert Print(t, [k]) == t[k].name;
    PrintedListParses(t, [j, k]);
    assert [j, k][..Run([j, k], 0)] == [j];
    assert Speeds(t, [j]) == v[j];
  }

  lemma OneSpeed(v: seq<Word>, k: nat)
    requires |v| == 11 && k < 11
    ensures Parse(PortSpeeds(v), SpeedName(k), 0, {}) == v[k]
  {
    var t := PortSpeeds(v);
    PortSpeedsArePrefixFree(v);
    PrintedListParses(t, [k]);
    assert [k][1..] == [];
    assert Print(t, [k]) == t[k].name;
    assert Speeds(t, [k]) == v[k];
  }

  /** The texts the kernel writes, in the order of the values. */
  lemma SpeedTexts(v: seq<Word>, k: nat)
    requires |v| == 11 && k < 11
    ensures var texts := ["Unknown", "1 Gbit", "2 Gbit", "4 Gbit", "10 Gbit", "8 Gbit", "16 Gbit", "32 Gbit", "20 Gbit",
                          "40 Gbit", "Not Negotiated"];
            Parse(PortSpeeds(v), texts[k], 0, {}) == v[k]
  {
    OneSpeed(v, k);
  }

  // The same text but for the case of its letters.
  predicate SameButCase(s: string, u: string) {
    |s| == |u| && forall i :: 0 <= i < |s| ==>
      || s[i] == u[i]
      || ('a' <= s[i] <= 'z' && s[i] as int == u[i] as int + 32)
      || ('a' <= u[i] <= 'z' && u[i] as int == s[i] as int + 32)
  }

  lemma {:induction false} FindSameButCase(table: seq<NameVal>, s: string, u: string, tp: nat)
    requires SameButCase(s, u) && tp <= |table|
    ensures FindFrom(table, s, tp) == FindFrom(table, u, tp)
    decreases |table| - tp
  {
    if tp < |table| {
      assert PrefixIgnoringCase(table[tp].name, s) <==> PrefixIgnoringCase(table[tp].name, u);
      if !PrefixIgnoringCase(table[tp].name, s) { FindSameButCase(table, s, u, tp + 1); }
    }
  }

  /** The case of letters makes no difference. */
  lemma {:induction false} ParseIgnoresCase(table: seq<NameVal>, s: string, u: string, tp: nat, val: Word)
    requires SameButCase(s, u) && tp <= |table|
    ensures Parse(table, s, tp, val) == Parse(table, u, tp, val)
    decreases |s|, 1
  {
    if s != [] {
      FindSameButCase(table, s, u, tp);
      var k := FindFrom(table, s, tp);
      if k < |table| {
        ParseRestIgnoresCase(table, s[|table[k].name|..], u[|table[k].name|..], k, val + table[k].val);
      } else {
        ParseRestIgnoresCase(table, s, u, k, val);
      }
    }
  }

  lemma {:induction false} ParseRestIgnoresCase(table: seq<NameVal>, s: string, u: string, tp: nat, val: Word)
    requires SameButCase(s, u) && tp <= |table|
    ensures ParseRest(table, s, tp, val) == ParseRest(table, u, tp, val)
    decreases |s|, 0
  {
    if s != [] && s[0] == ',' {
      ParseIgnoresCase(table, AfterComma(s), AfterComma(u), tp, val);
    }
  }
}
