/** rport.c: the list of supported classes of service, "[Class ]3[,[ ][Class ]4]...". */
module ClassList {
  import opened CText
  import opened Wrappers

  const WORD: string := "Class "

  /** 1 << n. The C standard leaves n >= 32 undefined; here it shifts by n modulo 32, as the
      usual processors do. */
  function Bit(n: nat): Word {
    {n % 32}
  }

  function AfterWord(s: string): (r: string)
    ensures |r| <= |s|
  {
    if WORD <= s then s[6..] else s
  }

  datatype Classes = Classes(rc: int, mask: Word)

  /** The classes read from text s on top of mask. */
  function Parse(s: string, mask: Word): Classes
    decreases |s|
  {
    if s == [] then Classes(0, mask)
    else
      var n := Strtoul(AfterWord(s));
      ParseRest(n.rest, mask + Bit(n.value % U32))
  }

  function ParseRest(s: string, mask: Word): Classes
    decreases |s|, 0
  {
    if s == [] then Classes(0, mask)
    else if s[0] == ',' then Parse(AfterComma(s), mask)
    else Classes(-1, mask)
  }

  // The loop over the items of the list.
  method AddUp(buf: string) returns (rc: int, mask: Word)
    ensures Classes(rc, mask) == Parse(buf, {})
  {
    var cp := buf;
    rc, mask := 0, {};
    while cp != []
      invariant rc == 0 && Parse(cp, mask) == Parse(buf, {})
      decreases |cp|
    {
      if WORD <= cp {
        cp := cp[6..];
      }
      var n := Strtoul(cp);
      mask := mask + Bit(n.value % U32);
      var ep := n.rest;
      assert ParseRest(ep, mask) == Parse(buf, {});
      if ep == [] {
        break;
      }
      if ep[0] != ',' {
        rc := -1;
        break;
      }
      cp := AfterComma(ep);
    }
  }

  /** The file's line (None when it cannot be read) to a return code and a class mask. */
  method ReadClasses(line: Option<string>) returns (rc: int, mask: Word)
    ensures Classes(rc, mask) ==
              if line.None? then Classes(-1, {})
              else if StrStr(line.value, "unspecified") then Classes(0, {})
              else Parse(line.value, {})
  {
    rc, mask := if line.Some? then 0 else -1, {};
    if rc == 0 && !StrStr(line.value, "unspecified") {
      rc, mask := AddUp(line.value);
    }
  }

  // ---- reading back a printed list ----

  // One item: its class number, whether the word is written, and whether a blank follows
  // the comma in front of it.
  datatype Item = Item(number: nat, word: bool, blank: bool)

  predicate Printable(items: seq<Item>) {
    forall i :: 0 <= i < |items| ==> items[i].number < 31
  }

  function PrintItem(item: Item): string {
    (if item.word then WORD else "") + Decimal(item.number)
  }

  function Print(items: seq<Item>): string
    decreases |items|, 0
  {
    if items == [] then "" else PrintItem(items[0]) + PrintRest(items[1..])
  }

  function PrintRest(items: seq<Item>): string
    decreases |items|, 1
  {
    if items == [] then "" else (if items[0].blank then ", " else ",") + Print(items)
  }

  lemma {:induction false} ParsePrintedNumbers(items: seq<Item>, mask: Word)
    requires Printable(items)
    ensures Parse(Print(items), mask) == Classes(0, mask + Numbers(items))
    decreases |items|, 0
  {
    if items == [] {
      assert mask + Numbers(items) == mask;
    } else {
      ParseItem(items[0], PrintRest(items[1..]), mask);
      ParsePrintedRest(items[1..], mask + Bit(items[0].number));
      NumbersSplit(items, mask);
    }
  }

  // The class numbers listed.
  function Numbers(items: seq<Item>): Word {
    set item | item in items :: item.number
  }

  lemma NumbersSplit(items: seq<Item>, mask: Word)
    requires Printable(items) && items != []
    ensures mask + Numbers(items) == mask + Bit(items[0].number) + Numbers(items[1..])
  {
    assert items[0].number < 31;
    assert forall item :: item in items <==> item == items[0] || item in items[1..];
  }

  predicate EndsItem(tail: string) {
    tail == [] || tail[0] == ','
  }

  // A printed number is not taken for the word.
  lemma ItemAfterWord(item: Item, tail: string)
    ensures PrintItem(item) != []
    ensures AfterWord(PrintItem(item) + tail) == Decimal(item.number) + tail
  {
    var ds := Decimal(item.number);
    assert IsDigit(ds[0], 10) && WORD[0] == 'C';
    if item.word {
      assert (PrintItem(item) + tail)[6..] == ds + tail;
    } else {
      assert PrintItem(item) + tail == ds + tail && (ds + tail)[0] == ds[0];
    }
  }

  lemma StrtoulDecimal(n: nat, tail: string)
    requires n < 31 && EndsItem(tail)
    ensures Strtoul(Decimal(n) + tail) == Number(n, tail)
  {
    ScanDigits(Decimal(n), tail, 10);
  }

  lemma ParseItem(item: Item, tail: string, mask: Word)
    requires item.number < 31 && EndsItem(tail)
    ensures Parse(PrintItem(item) + tail, mask) == ParseRest(tail, mask + Bit(item.number))
  {
    var s := PrintItem(item) + tail;
    ItemAfterWord(item, tail);
    StrtoulDecimal(item.number, tail);
    assert s != [] && Strtoul(AfterWord(s)) == Number(item.number, tail);
    ParseOne(s, mask, item.number, tail);
  }

  lemma ParseOne(s: string, mask: Word, n: nat, tail: string)
    requires s != [] && n < U32 && Strtoul(AfterWord(s)) == Number(n, tail)
    ensures Parse(s, mask) == ParseRest(tail, mask + Bit(n))
  {
    assert n % U32 == n;
    assert Bit(n % U32) == Bit(n);
  }

  lemma {:induction false} ParsePrintedRest(items: seq<Item>, mask: Word)
    requires Printable(items)
    ensures ParseRest(PrintRest(items), mask) == Classes(0, mask + Numbers(items))
    decreases |items|, 1
  {
    if items == [] {
      assert mask + Numbers(items) == mask;
    } else {
      PrintStartsNonBlank(items);
      assert AfterComma(PrintRest(items)) == Print(items);
      ParsePrintedNumbers(items, mask);
    }
  }

  lemma PrintStartsNonBlank(items: seq<Item>)
    requires items != []
    ensures Print(items) != [] && Print(items)[0] != ' '
  {
    var ds := Decimal(items[0].number);
    assert IsDigit(ds[0], 10) && WORD[0] == 'C';
  }

  lemma {:induction false} NoUInPrint(items: seq<Item>)
    ensures 'u' !in Print(items)
  {
    if items != [] {
      var ds := Decimal(items[0].number);
      forall i | 0 <= i < |ds| ensures ds[i] != 'u' { assert IsDigit(ds[i], 10); }
      assert 'u' !in WORD;
      NoUInPrint(items[1..]);
    }
  }

  /** Every list of classes, with any mix of the optional word and blanks, is read back:
      success, and exactly the bits of the listed classes. */
  lemma PrintedListParses(items: seq<Item>)
    requires Printable(items)
    ensures !StrStr(Print(items), "unspecified")
    ensures Parse(Print(items), {}) == Classes(0, Numbers(items))
  {
    NoUInPrint(items);
    assert "unspecified"[0] == 'u';
    NoSuchCharacter(Print(items), "unspecified", 'u');
    ParsePrintedNumbers(items, {});
    assert {} + Numbers(items) == Numbers(items);
  }

  /** Whatever the rest of the text holds, a class that was read is never taken back. */
  lemma {:induction false} ParseOnlyAdds(s: string, mask: Word)
    ensures mask <= Parse(s, mask).mask
    decreases |s|
  {
    if s != [] {
      var n := Strtoul(AfterWord(s));
      var mask' := mask + Bit(n.value % U32);
      if n.rest != [] && n.rest[0] == ',' { ParseOnlyAdds(AfterComma(n.rest), mask'); }
    }
  }

  /** Text that is not a number adds class 0; the error is reported unless a comma follows. */
  lemma NotANumberSetsClassZero(s: string, mask: Word)
    requires s != [] && !(WORD <= s) && ScanNumber(s, 10).None?
    ensures mask + {0} <= Parse(s, mask).mask
    ensures s[0] == ',' ==> Parse(s, mask) == Parse(AfterComma(s), mask + {0})
    ensures s[0] != ',' ==> Parse(s, mask) == Classes(-1, mask + {0})
  {
    assert Strtoul(AfterWord(s)) == Number(0, s);
    if s[0] == ',' { ParseOnlyAdds(AfterComma(s), mask + {0}); }
  }

  /** The kernel's text, here for any two classes. */
  lemma TwoClasses(j: nat, k: nat)
    requires j < 31 && k < 31
    ensures Parse("Class " + Decimal(j) + (", " + ("Class " + Decimal(k))), {}) == Classes(0, {j, k})
  {
    var i1, i2 := Item(j, true, true), Item(k, true, true);
    PrintTwo(i1, i2);
    PrintedListParses([i1, i2]);
    NumbersOfTwo(i1, i2);
  }

  lemma PrintTwo(i1: Item, i2: Item)
    requires i2.blank
    ensures Print([i1, i2]) == PrintItem(i1) + (", " + PrintItem(i2))
  {
    assert [i1, i2][1..] == [i2] && [i2][1..] == [];
    assert Print([i2]) == PrintItem(i2) + "" == PrintItem(i2);
  }

  lemma NumbersOfTwo(i1: Item, i2: Item)
    ensures Numbers([i1, i2]) == {i1.number, i2.number}
  {
    assert i1 in [i1, i2] && i2 in [i1, i2];
  }
}
