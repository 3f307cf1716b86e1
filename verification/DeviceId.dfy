/** sg.c: choosing the best designator of a Device Identification page (VPD page 0x83,
    section 7.6.3 of T10 SPC-3) and leaving it alone in the buffer. */
module DeviceId {
  import opened Wrappers
  import opened CText

  type byte = b: int | 0 <= b < 256

  const HEADER: nat := 4         // sizeof(struct scsi_inquiry_dev_id)
  const DESC_MIN: nat := 5       // sizeof(struct scsi_inquiry_desc)
  const DESC_HEAD: nat := 4      // the same without its one designator byte
  const PAGE_DEV_ID: byte := 0x83
  const TYPE_NAA: nat := 3
  const INQUIRY_MAX: nat := 255

  function Zeros(n: nat): (z: seq<byte>)
    ensures |z| == n
  {
    seq(n, _ => 0)
  }

  function Min(a: nat, b: nat): nat {
    if a < b then a else b
  }

  // ---- the inquiry ----

  // What the open and the SG_IO ioctl do: any bytes may arrive, whatever the outcome.
  datatype Reply = OpenFailed | IoctlFailed(data: seq<byte>) | Completed(data: seq<byte>, resid: nat)

  // The buffer after an inquiry for n bytes.
  function Filled(before: seq<byte>, n: nat, reply: Reply): (after: seq<byte>)
    requires n <= |before|
    ensures |after| == |before|
  {
    if reply.OpenFailed? then before
    else
      var k := Min(|reply.data|, n);
      reply.data[..k] + Zeros(n - k) + before[n..]
  }

  // The length the inquiry reports.
  function Got(n: nat, reply: Reply): (got: nat)
    requires reply.Completed? ==> reply.resid <= n
    ensures got <= n
  {
    if reply.Completed? then n - reply.resid else 0
  }

  // memset of the first n bytes, then what the device sends over it.
  method Receive(buf: array<byte>, n: nat, data: seq<byte>)
    requires n <= buf.Length
    modifies buf
    ensures buf[..] == data[..Min(|data|, n)] + Zeros(n - Min(|data|, n)) + old(buf[n..])
  {
    forall i | 0 <= i < n { buf[i] := 0; }
    assert forall i :: n <= i < buf.Length ==> buf[i] == old(buf[i]);
    forall i | 0 <= i < Min(|data|, n) { buf[i] := data[i]; }
  }

  /** The transfer length is clamped to one byte; the reported length is what the residual
      leaves of it, and 0 after any failure. The kernel's residual is between 0 and the
      requested length. */
  method IssueInquiry(buf: array<byte>, len: nat, reply: Reply) returns (ok: bool, got: nat)
    requires len <= buf.Length
    requires reply.Completed? ==> reply.resid <= Min(len, INQUIRY_MAX)
    modifies buf
    ensures buf[..] == Filled(old(buf[..]), Min(len, INQUIRY_MAX), reply)
    ensures ok == reply.Completed? && got == Got(Min(len, INQUIRY_MAX), reply)
    ensures var n := if len > 255 then 255 else len;
            && got == (if reply.Completed? then n - reply.resid else 0)
            && (forall i :: n <= i < buf.Length ==> buf[i] == old(buf[i]))
            && (!reply.OpenFailed? ==> forall i :: 0 <= i < n ==> buf[i] == if i < |reply.data| then reply.data[i] else 0)
  {
    var n := len;
    if n > INQUIRY_MAX {
      n := INQUIRY_MAX;
    }
    got := 0;
    if reply.OpenFailed? {
      return false, 0;
    }
    Receive(buf, n, reply.data);
    if reply.IoctlFailed? {
      return false, 0;
    }
    ok, got := true, n - reply.resid;
  }

  // ---- descriptors ----

  datatype Descriptor = Descriptor(code: byte, flags: byte, reserved: byte, designator: seq<byte>) {
    function Type(): nat { flags % 16 }

    predicate Candidate() { Type() <= TYPE_NAA }
  }

  type Desc = d: Descriptor | |d.designator| < 256 witness Descriptor(0, 0, 0, [])

  function Encode(d: Desc): (s: seq<byte>)
    ensures |s| == DESC_HEAD + |d.designator|
  {
    [d.code, d.flags, d.reserved, |d.designator|] + d.designator
  }

  // A complete descriptor stands at offset o, before the end.
  predicate Complete(page: seq<byte>, o: nat, end: nat) {
    o + DESC_MIN <= end <= |page| && o + DESC_HEAD + page[o + 3] <= end
  }

  function At(page: seq<byte>, o: nat): (d: Desc)
    requires Complete(page, o, |page|)
  {
    Descriptor(page[o], page[o + 1], page[o + 2], page[o + DESC_HEAD..o + DESC_HEAD + page[o + 3]])
  }

  lemma BytesAt(page: seq<byte>, o: nat)
    requires Complete(page, o, |page|)
    ensures page[o..o + DESC_HEAD + page[o + 3]] == Encode(At(page, o))
  {}

  /** The descriptors from offset o on: the walk stops when fewer than five bytes are left or
      when a descriptor does not fit. */
  function Parse(page: seq<byte>, o: nat, end: nat): seq<Desc>
    decreases end - o
  {
    if Complete(page, o, end) then [At(page, o)] + Parse(page, o + DESC_HEAD + page[o + 3], end) else []
  }

  // memcmp(a, b, |a|) < 0
  predicate BytesLess(a: seq<byte>, b: seq<byte>)
    requires |a| == |b|
  {
    a != [] && (a[0] < b[0] || (a[0] == b[0] && BytesLess(a[1..], b[1..])))
  }

  /** The order of preference: higher type, then shorter designator, then smaller bytes. */
  predicate Better(a: Desc, b: Desc) {
    || a.Type() > b.Type()
    || (a.Type() == b.Type() &&
        (|a.designator| < |b.designator| ||
         (|a.designator| == |b.designator| && BytesLess(a.designator, b.designator))))
  }

  predicate SameKey(a: Desc, b: Desc) {
    a.Type() == b.Type() && a.designator == b.designator
  }

  /** Position i holds the best candidate, and the earliest of those that tie with it. */
  ghost predicate IsChoice(ds: seq<Desc>, i: nat) {
    i < |ds| && ds[i].Candidate() &&
    forall j :: 0 <= j < |ds| && ds[j].Candidate() ==>
      !Better(ds[j], ds[i]) && (j < i ==> Better(ds[i], ds[j]))
  }

  // The running best, as the walk keeps it.
  function Choose(ds: seq<Desc>): (best: Option<nat>)
    ensures best.Some? ==> best.value < |ds| && ds[best.value].Candidate()
  {
    if ds == [] then None
    else
      var n := |ds| - 1;
      var best := Choose(ds[..n]);
      if !ds[n].Candidate() then best
      else if best.None? || Better(ds[n], ds[best.value]) then Some(n)
      else best
  }

  // ---- the preference is a strict weak order ----

  lemma {:induction false} BytesTotal(a: seq<byte>, b: seq<byte>)
    requires |a| == |b|
    ensures BytesLess(a, b) ==> !BytesLess(b, a)
    ensures BytesLess(a, b) || BytesLess(b, a) || a == b
  {
    if a != [] {
      BytesTotal(a[1..], b[1..]);
      assert a == [a[0]] + a[1..] && b == [b[0]] + b[1..];
    }
  }

  lemma {:induction false} BytesTransitive(a: seq<byte>, b: seq<byte>, c: seq<byte>)
    requires |a| == |b| == |c| && BytesLess(a, b) && BytesLess(b, c)
    ensures BytesLess(a, c)
  {
    if a[0] == b[0] == c[0] { BytesTransitive(a[1..], b[1..], c[1..]); }
  }

  /** The code's comparison is a strict order that is total up to equal type and designator. */
  lemma BetterIsStrictOrder(a: Desc, b: Desc, c: Desc)
    ensures Better(a, b) ==> !Better(b, a)
    ensures Better(a, b) || Better(b, a) || SameKey(a, b)
    ensures SameKey(a, b) ==> !Better(a, b)
    ensures Better(a, b) && Better(b, c) ==> Better(a, c)
  {
    if |a.designator| == |b.designator| {
      BytesTotal(a.designator, b.designator);
      if |b.designator| == |c.designator| && BytesLess(a.designator, b.designator) && BytesLess(b.designator, c.designator) {
        BytesTransitive(a.designator, b.designator, c.designator);
      }
    }
  }

  lemma BetterThanTheRest(a: Desc, b: Desc, c: Desc)
    requires Better(a, b) && !Better(c, b)
    ensures Better(a, c) && !Better(c, a)
  {
    BetterIsStrictOrder(a, b, c);
    BetterIsStrictOrder(c, b, a);
    BetterIsStrictOrder(a, c, b);
  }

  /** The running best is the choice; there is none exactly when there is no candidate. */
  lemma {:induction false} ChooseIsChoice(ds: seq<Desc>)
    ensures Choose(ds).Some? ==> IsChoice(ds, Choose(ds).value)
    ensures Choose(ds).None? ==> forall i :: 0 <= i < |ds| ==> !ds[i].Candidate()
  {
    if ds != [] {
      var n := |ds| - 1;
      var front, best := ds[..n], Choose(ds[..n]);
      ChooseIsChoice(front);
      assert forall j :: 0 <= j < n ==> ds[j] == front[j];
      BetterIsStrictOrder(ds[n], ds[n], ds[n]);
      if ds[n].Candidate() && best.Some? && Better(ds[n], ds[best.value]) {
        forall j | 0 <= j < n && ds[j].Candidate()
          ensures !Better(ds[j], ds[n]) && Better(ds[n], ds[j])
        {
          BetterThanTheRest(ds[n], ds[best.value], ds[j]);
        }
      }
    }
  }

  lemma ChoiceUnique(ds: seq<Desc>, i: nat, j: nat)
    requires IsChoice(ds, i) && IsChoice(ds, j)
    ensures i == j
  {}

  /** Reordering the descriptors never changes the chosen type and designator. */
  lemma ChoiceIgnoresOrder(ds: seq<Desc>, es: seq<Desc>)
    requires multiset(ds) == multiset(es)
    ensures Choose(ds).Some? <==> Choose(es).Some?
    ensures Choose(ds).Some? ==> SameKey(ds[Choose(ds).value], es[Choose(es).value])
  {
    ChooseIsChoice(ds);
    ChooseIsChoice(es);
    if Choose(ds).Some? {
      var a := ds[Choose(ds).value];
      var i := Occurrence(es, ds, a);
      assert es[i].Candidate() && Choose(es).Some?;
      var b := es[Choose(es).value];
      var j := Occurrence(ds, es, b);
      assert !Better(ds[j], a) && !Better(es[i], b);
      BetterIsStrictOrder(a, b, a);
    } else if Choose(es).Some? {
      var j := Occurrence(ds, es, es[Choose(es).value]);
    }
  }

  // An element of one list stands somewhere in any permutation of it.
  lemma Occurrence(s: seq<Desc>, t: seq<Desc>, d: Desc) returns (i: nat)
    requires multiset(s) == multiset(t) && d in t
    ensures i < |s| && s[i] == d
  {
    assert d in multiset(s);
    i :| i < |s| && s[i] == d;
  }

  // ---- encoding and parsing ----

  function EncodeAll(ds: seq<Desc>): seq<byte> {
    if ds == [] then [] else Encode(ds[0]) + EncodeAll(ds[1..])
  }

  // A descriptor at the end with an empty designator has four bytes and is not seen.
  function Seen(ds: seq<Desc>): seq<Desc> {
    if ds != [] && ds[|ds| - 1].designator == [] then ds[..|ds| - 1] else ds
  }

  // What follows the first descriptor of an encoded list.
  lemma EncodedFirst(page: seq<byte>, o: nat, d: Desc, rest: seq<byte>)
    requires o <= |page| && page[o..] == Encode(d) + rest
    ensures page[o + |Encode(d)|..] == rest && page[o + 3] == |d.designator|
    ensures Complete(page, o, |page|) <==> d.designator != [] || rest != []
    ensures Complete(page, o, |page|) ==> At(page, o) == d
  {
    var s := page[o..];
    assert forall i :: 0 <= i < |s| ==> page[o + i] == s[i];
    assert s[|Encode(d)|..] == rest;
    assert s[DESC_HEAD..|Encode(d)|] == d.designator;
  }

  // One step of ParseEncoded.
  lemma ParseFirst(page: seq<byte>, o: nat, next: nat, ds: seq<Desc>, rest: seq<Desc>)
    requires ds != [] && next == o + |Encode(ds[0])| && rest == ds[1..]
    requires Parse(page, next, |page|) == Seen(rest)
    requires Complete(page, o, |page|) <==> ds[0].designator != [] || EncodeAll(ds[1..]) != []
    requires Complete(page, o, |page|) ==> At(page, o) == ds[0]
    ensures Parse(page, o, |page|) == Seen(ds)
  {
    SeenFirst(ds);
    if Complete(page, o, |page|) {
      assert page[o + 3] == |At(page, o).designator|;
      ParseStep(page, o, next, |page|);
    }
  }

  lemma ParseStep(page: seq<byte>, o: nat, next: nat, end: nat)
    requires Complete(page, o, end) && next == o + DESC_HEAD + page[o + 3]
    ensures Parse(page, o, end) == [At(page, o)] + Parse(page, next, end)
  {}

  lemma EncodedRest(page: seq<byte>, o: nat, ds: seq<Desc>)
    requires o <= |page| && ds != [] && page[o..] == EncodeAll(ds)
    ensures o + |Encode(ds[0])| <= |page| && page[o + |Encode(ds[0])|..] == EncodeAll(ds[1..])
    ensures Complete(page, o, |page|) <==> ds[0].designator != [] || EncodeAll(ds[1..]) != []
    ensures Complete(page, o, |page|) ==> At(page, o) == ds[0]
  {
    EncodedFirst(page, o, ds[0], EncodeAll(ds[1..]));
  }

  /** Parsing an encoded list gives it back, except for a last descriptor whose designator
      is empty. */
  lemma {:induction false} ParseEncoded(page: seq<byte>, o: nat, ds: seq<Desc>)
    requires o <= |page| && page[o..] == EncodeAll(ds)
    ensures Parse(page, o, |page|) == Seen(ds)
    decreases |ds|
  {
    if ds == [] {
      assert o == |page|;
    } else {
      EncodedRest(page, o, ds);
      var next, rest := o + |Encode(ds[0])|, ds[1..];
      ParseEncoded(page, next, rest);
      ParseFirst(page, o, next, ds, rest);
    }
  }

  lemma SeenFirst(ds: seq<Desc>)
    requires ds != []
    ensures Seen(ds) == if ds[0].designator == [] && |ds| == 1 then [] else [ds[0]] + Seen(ds[1..])
    ensures EncodeAll(ds[1..]) == [] <==> |ds| == 1
  {
    if |ds| > 1 {
      assert Encode(ds[1]) <= EncodeAll(ds[1..]);
    }
  }

  // ---- the whole operation ----

  // net16_get
  function Net16(high: byte, low: byte): nat {
    (high as int) * 256 + low as int
  }

  // Where the descriptor list of a page ends, when `got` bytes of it were returned.
  function ListEnd(page: seq<byte>, got: nat): (end: nat)
    requires HEADER <= got <= |page|
    ensures HEADER <= end <= got
  {
    HEADER + Min(Net16(page[2], page[3]), got - HEADER)
  }

  function Descriptors(page: seq<byte>, got: nat): seq<Desc>
    requires got <= |page|
  {
    if got < HEADER || page[1] != PAGE_DEV_ID then [] else Parse(page, HEADER, ListEnd(page, got))
  }

  /** What the buffer holds at the end: the chosen descriptor's bytes followed by zeros, or
      the response as it came when there is no candidate. */
  ghost predicate IsDevId(page: seq<byte>, got: nat, result: seq<byte>)
    requires got <= |page|
  {
    var ds := Descriptors(page, got);
    if exists i :: 0 <= i < |ds| && ds[i].Candidate()
    then exists i: nat :: IsChoice(ds, i) && |Encode(ds[i])| <= |page| &&
           result == Encode(ds[i]) + Zeros(|page| - |Encode(ds[i])|)
    else result == page
  }

  // The offset of a descriptor seen so far, or -1.
  predicate Seat(page: seq<byte>, best: int) {
    best == -1 || (best >= HEADER && Complete(page, best, |page|))
  }

  // One descriptor against the running best.
  function Pick(page: seq<byte>, dp: nat, best: int): (r: int)
    requires dp >= HEADER && Complete(page, dp, |page|) && Seat(page, best)
    ensures Seat(page, r)
  {
    var d := At(page, dp);
    if d.Candidate() && (best == -1 || Better(d, At(page, best))) then dp else best
  }

  // The running best at the end of the walk.
  function Walk(page: seq<byte>, dp: nat, end: nat, best: int): (r: int)
    requires dp >= HEADER && Seat(page, best)
    ensures Seat(page, r)
    decreases end - dp
  {
    if Complete(page, dp, end) then Walk(page, dp + DESC_HEAD + page[dp + 3], end, Pick(page, dp, best)) else best
  }

  // The code's comparison of one descriptor with the running best. Every index is checked
  // against the end of the returned list.
  method Prefer(page: seq<byte>, dp: nat, best: int) returns (r: int)
    requires dp >= HEADER && Complete(page, dp, |page|) && Seat(page, best)
    ensures r == Pick(page, dp, best)
  {
    var typ := page[dp + 1] % 16;
    r := best;
    if typ > TYPE_NAA {
    } else if best == -1 {
      r := dp;
    } else {
      var bestTyp, dl, bl := page[best + 1] % 16, page[dp + 3], page[best + 3];
      if typ == bestTyp &&
         (dl < bl ||
          (dl == bl && BytesLess(page[dp + DESC_HEAD..dp + DESC_HEAD + bl],
                                 page[best + DESC_HEAD..best + DESC_HEAD + bl]))) {
        r := dp;
      } else if typ > bestTyp {
        r := dp;
      }
    }
  }

  /** The walk over the descriptor list. It gets the page up to the end of the list and no
      further, so every byte it reads, also for the comparison, lies in the list returned. */
  method FindBest(page: seq<byte>) returns (best: int)
    requires HEADER <= |page|
    ensures best == Walk(page, HEADER, |page|, -1)
  {
    var dp: nat, rlen: nat := HEADER, |page| - HEADER;
    best := -1;
    while rlen >= DESC_MIN
      invariant HEADER <= dp && dp + rlen == |page| && Seat(page, best)
      invariant Walk(page, dp, |page|, best) == Walk(page, HEADER, |page|, -1)
      decreases rlen
    {
      var dlen := page[dp + 3] + DESC_HEAD;
      if dlen > rlen {
        break;
      }
      best := Prefer(page, dp, best);
      dp, rlen := dp + dlen, rlen - dlen;
    }
  }

  // What the running best means for the descriptors seen.
  ghost predicate BestAt(page: seq<byte>, best: int, done: seq<Desc>) {
    Seat(page, best) &&
    if Choose(done).None? then best == -1
    else best != -1 && At(page, best) == done[Choose(done).value]
  }

  lemma PickChooses(page: seq<byte>, dp: nat, best: int, done: seq<Desc>)
    requires dp >= HEADER && Complete(page, dp, |page|) && BestAt(page, best, done)
    ensures BestAt(page, Pick(page, dp, best), done + [At(page, dp)])
  {
    assert (done + [At(page, dp)])[..|done|] == done;
  }

  lemma WalkStep(page: seq<byte>, dp: nat, end: nat, best: int)
    requires dp >= HEADER && Seat(page, best) && Complete(page, dp, end)
    ensures var next := dp + DESC_HEAD + page[dp + 3];
            && Walk(page, dp, end, best) == Walk(page, next, end, Pick(page, dp, best))
            && Parse(page, dp, end) == [At(page, dp)] + Parse(page, next, end)
  {}

  lemma SameBest(page: seq<byte>, best: int, done: seq<Desc>, r: int, all: seq<Desc>)
    requires BestAt(page, best, done) && r == best && all == done
    ensures BestAt(page, r, all)
  {}

  // What the rest of the walk finds is what the walk finds.
  lemma WalkBack(page: seq<byte>, dp: nat, next: nat, end: nat, best: int, done: seq<Desc>)
    requires dp >= HEADER && Seat(page, best) && Complete(page, dp, end) && next == dp + DESC_HEAD + page[dp + 3]
    requires BestAt(page, Walk(page, next, end, Pick(page, dp, best)), (done + [At(page, dp)]) + Parse(page, next, end))
    ensures BestAt(page, Walk(page, dp, end, best), done + Parse(page, dp, end))
  {
    WalkStep(page, dp, end, best);
    Regroup(done, At(page, dp), Parse(page, next, end));
    SameBest(page, Walk(page, next, end, Pick(page, dp, best)), (done + [At(page, dp)]) + Parse(page, next, end),
             Walk(page, dp, end, best), done + Parse(page, dp, end));
  }

  lemma Regroup(done: seq<Desc>, d: Desc, rest: seq<Desc>)
    ensures done + ([d] + rest) == (done + [d]) + rest
  {}

  /** The walk's running best is the choice among the parsed descriptors. */
  lemma {:induction false} WalkChooses(page: seq<byte>, dp: nat, end: nat, best: int, done: seq<Desc>)
    requires dp >= HEADER && BestAt(page, best, done)
    ensures BestAt(page, Walk(page, dp, end, best), done + Parse(page, dp, end))
    decreases end - dp
  {
    if Complete(page, dp, end) {
      var next := dp + DESC_HEAD + page[dp + 3];
      PickChooses(page, dp, best, done);
      WalkChooses(page, next, end, Pick(page, dp, best), done + [At(page, dp)]);
      WalkBack(page, dp, next, end, best, done);
    } else {
      SameBest(page, best, done, Walk(page, dp, end, best), done + Parse(page, dp, end));
    }
  }

  /** The walk over the page cut at the end of its list finds the choice of the whole page. */
  lemma WalkOfPage(page: seq<byte>, len: nat, best: int)
    requires HEADER <= len <= |page| && page[1] == PAGE_DEV_ID
    requires var list := page[..ListEnd(page, len)]; best == Walk(list, HEADER, |list|, -1)
    ensures BestAt(page, best, Descriptors(page, len))
  {
    var end := ListEnd(page, len);
    var list := page[..end];
    WalkChooses(list, HEADER, end, -1, []);
    assert [] + Parse(list, HEADER, end) == Parse(list, HEADER, end);
    ParseIgnoresExtra(list, HEADER, page[end..]);
    assert list + page[end..] == page;
    if best != -1 { assert At(list, best) == At(page, best); }
  }

  /** The contents of the buffer at the end, worked out from the response. */
  function DevId(page: seq<byte>, got: nat): (result: seq<byte>)
    requires got <= |page|
    ensures |result| == |page|
  {
    var ds := Descriptors(page, got);
    var best := Choose(ds);
    if best.None? then page
    else
      ChoiceFits(page, got);
      Encode(ds[best.value]) + Zeros(|page| - |Encode(ds[best.value])|)
  }

  // The chosen descriptor lies in the page.
  lemma ChoiceFits(page: seq<byte>, got: nat)
    requires got <= |page| && Choose(Descriptors(page, got)).Some?
    ensures var ds := Descriptors(page, got); |Encode(ds[Choose(ds).value])| <= |page|
  {
    var list := page[..ListEnd(page, got)];
    var best := Walk(list, HEADER, |list|, -1);
    WalkOfPage(page, got, best);
    BytesAt(page, best);
  }

  /** That is the result described above, and the only one. */
  lemma DevIdIs(page: seq<byte>, got: nat, result: seq<byte>)
    requires got <= |page|
    ensures IsDevId(page, got, result) <==> result == DevId(page, got)
  {
    var ds := Descriptors(page, got);
    ChooseIsChoice(ds);
    if Choose(ds).Some? {
      var best := Choose(ds).value;
      ChoiceFits(page, got);
      assert ds[best].Candidate();
      forall i: nat ensures IsChoice(ds, i) <==> i == best {
        if IsChoice(ds, i) { ChoiceUnique(ds, i, best); }
      }
      assert IsDevId(page, got, result) <==> result == Encode(ds[best]) + Zeros(|page| - |Encode(ds[best])|);
    }
  }

  lemma ResultOfChoice(page: seq<byte>, got: nat, best: nat, result: seq<byte>)
    requires got <= |page| && BestAt(page, best, Descriptors(page, got))
    requires Complete(page, best, |page|)
    requires var dlen := DESC_HEAD + page[best + 3]; result == page[best..best + dlen] + Zeros(|page| - dlen)
    ensures result == DevId(page, got)
  {
    BytesAt(page, best);
  }

  // The checks of the page header, then the walk.
  method BestOffset(page: seq<byte>, len: nat) returns (best: int)
    requires len <= |page|
    ensures BestAt(page, best, Descriptors(page, len))
  {
    if len < HEADER || page[1] != PAGE_DEV_ID {
      return -1;
    }
    var rlen := Net16(page[2], page[3]);
    if rlen > len - HEADER {
      rlen := len - HEADER;
    }
    best := FindBest(page[..HEADER + rlen]);
    WalkOfPage(page, len, best);
  }

  /** What follows the inquiry: the buffer keeps the response, or gets the choice. */
  method KeepBest(buf: array<byte>, len: nat)
    requires len <= buf.Length
    modifies buf
    ensures buf[..] == DevId(old(buf[..]), len)
  {
    ghost var page := buf[..];
    var best := BestOffset(buf[..], len);
    if best != -1 {
      // The chosen descriptor lies in the page, so its length never exceeds the buffer's.
      var dlen := buf[best + 3] + DESC_HEAD;
      MoveToFront(buf, best, dlen);
      ResultOfChoice(page, len, best, buf[..]);
    }
  }

  /** sg_get_dev_id on a buffer of any size and for any reply. */
  method GetDevId(buf: array<byte>, reply: Reply)
    requires reply.Completed? ==> reply.resid <= Min(buf.Length % U32, INQUIRY_MAX)
    modifies buf
    ensures var n := Min(buf.Length % U32, INQUIRY_MAX);
            buf[..] == DevId(Filled(Zeros(buf.Length), n, reply), Got(n, reply))
  {
    forall i | 0 <= i < buf.Length { buf[i] := 0; }
    assert buf[..] == Zeros(buf.Length);
    var ok, len := IssueInquiry(buf, buf.Length % U32, reply);
    KeepBest(buf, len);
  }

  // memmove of possibly overlapping areas, then memset of the rest.
  method MoveToFront(buf: array<byte>, from: nat, dlen: nat)
    requires from + dlen <= buf.Length
    modifies buf
    ensures buf[..] == old(buf[from..from + dlen]) + Zeros(buf.Length - dlen)
  {
    forall i | 0 <= i < dlen { buf[i] := buf[from + i]; }
    forall i | dlen <= i < buf.Length { buf[i] := 0; }
  }

  // ---- order independence of the result ----

  // A page of which all bytes were returned, holding exactly this list.
  function Page(periph: byte, ds: seq<Desc>): (page: seq<byte>)
    requires |EncodeAll(ds)| < U16
  {
    var n := |EncodeAll(ds)|;
    [periph, PAGE_DEV_ID, n / 256, n % 256] + EncodeAll(ds)
  }

  const U16: nat := 0x1_0000

  lemma PageDescriptors(periph: byte, ds: seq<Desc>, extra: seq<byte>)
    requires |EncodeAll(ds)| < U16
    ensures var page := Page(periph, ds); Descriptors(page + extra, |page|) == Seen(ds)
  {
    var page := Page(periph, ds);
    assert page[HEADER..] == EncodeAll(ds);
    ParseEncoded(page, HEADER, ds);
    ParseIgnoresExtra(page, HEADER, extra);
    assert ListEnd(page + extra, |page|) == |page|;
  }

  lemma {:induction false} ParseIgnoresExtra(page: seq<byte>, o: nat, extra: seq<byte>)
    ensures Parse(page + extra, o, |page|) == Parse(page, o, |page|)
    decreases |page| - o
  {
    if Complete(page, o, |page|) {
      assert At(page + extra, o) == At(page, o);
      ParseIgnoresExtra(page, o + DESC_HEAD + page[o + 3], extra);
    }
  }

  // ---- exactly when the order of a page matters ----

  /** The last descriptor is the best candidate of all but has an empty designator, so that
      the walk does not see it. */
  ghost predicate LosesBest(ds: seq<Desc>) {
    ds != [] &&
    var n := |ds| - 1;
    ds[n].Candidate() && ds[n].designator == [] &&
    forall j :: 0 <= j < n && ds[j].Candidate() ==> Better(ds[n], ds[j])
  }

  // The choice of a list, if there is one.
  function BestOf(ds: seq<Desc>): (d: Option<Desc>)
    ensures d.Some? ==> d.value in ds && d.value.Candidate()
  {
    var best := Choose(ds);
    if best.Some? then Some(ds[best.value]) else None
  }

  // What is chosen among the descriptors seen, if anything.
  function Kept(ds: seq<Desc>): (d: Option<Desc>)
    ensures d.Some? ==> d.value in Seen(ds) && d.value.Candidate()
  {
    BestOf(Seen(ds))
  }

  ghost predicate SameOutcome(a: Option<Desc>, b: Option<Desc>) {
    a.Some? == b.Some? && (a.Some? ==> SameKey(a.value, b.value))
  }

  // Unless the best is lost, leaving out the last descriptor makes no difference.
  lemma KeptUnlessLost(ds: seq<Desc>)
    requires Choose(ds).Some? && !LosesBest(ds)
    ensures Kept(ds).Some? && SameKey(Kept(ds).value, ds[Choose(ds).value])
  {
    var n := |ds| - 1;
    if Seen(ds) != ds {
      ChooseIsChoice(ds);
      ChooseIsChoice(ds[..n]);
      if ds[n].Candidate() {
        var j :| 0 <= j < n && ds[j].Candidate() && !Better(ds[n], ds[j]);
        assert ds[..n][j] == ds[j];
      }
    } else {
      BetterIsStrictOrder(ds[Choose(ds).value], ds[Choose(ds).value], ds[Choose(ds).value]);
    }
  }

  // When it is lost, what is left is worse than it.
  lemma LostIsBetter(ds: seq<Desc>)
    requires LosesBest(ds)
    ensures Choose(ds) == Some(|ds| - 1)
    ensures Kept(ds).Some? ==> Better(ds[|ds| - 1], Kept(ds).value)
  {
    var n := |ds| - 1;
    ChooseIsChoice(ds[..n]);
    assert forall j :: 0 <= j < n ==> ds[..n][j] == ds[j];
  }

  // Two orders that both lose the best lose the same descriptor.
  lemma BothLost(ds: seq<Desc>, es: seq<Desc>)
    requires multiset(ds) == multiset(es) && LosesBest(ds) && LosesBest(es)
    ensures ds[|ds| - 1] == es[|es| - 1] && SameOutcome(Kept(ds), Kept(es))
  {
    var n, m := |ds| - 1, |es| - 1;
    SameLast(ds, es);
    FrontsPermute(ds, es);
    ChoiceIgnoresOrder(ds[..n], es[..m]);
  }

  lemma SameLast(ds: seq<Desc>, es: seq<Desc>)
    requires multiset(ds) == multiset(es) && LosesBest(ds) && LosesBest(es)
    ensures ds[|ds| - 1] == es[|es| - 1]
  {
    var a, b := ds[|ds| - 1], es[|es| - 1];
    var i := Occurrence(es, ds, a);
    var j := Occurrence(ds, es, b);
    BetterIsStrictOrder(a, b, a);
  }

  lemma FrontAndLast(s: seq<Desc>)
    requires s != []
    ensures multiset(s) == multiset(s[..|s| - 1]) + multiset{s[|s| - 1]}
  {
    assert s == s[..|s| - 1] + [s[|s| - 1]];
  }

  lemma FrontsPermute(ds: seq<Desc>, es: seq<Desc>)
    requires multiset(ds) == multiset(es) && ds != [] && es != [] && ds[|ds| - 1] == es[|es| - 1]
    ensures multiset(ds[..|ds| - 1]) == multiset(es[..|es| - 1])
  {
    FrontAndLast(ds);
    FrontAndLast(es);
    var last := multiset{ds[|ds| - 1]};
    assert multiset(ds) - last == multiset(ds[..|ds| - 1]);
    assert multiset(es) - last == multiset(es[..|es| - 1]);
  }

  /** For every list and every reordering of it: the two orders have the same outcome exactly
      when both or neither end in the best candidate with an empty designator. */
  lemma IgnoresOrderIff(ds: seq<Desc>, es: seq<Desc>)
    requires multiset(ds) == multiset(es)
    ensures SameOutcome(Kept(ds), Kept(es)) <==> (LosesBest(ds) <==> LosesBest(es))
  {
    ChoiceIgnoresOrder(ds, es);
    if Choose(ds).None? {
      NothingKept(ds);
      NothingKept(es);
    } else if LosesBest(ds) && LosesBest(es) {
      BothLost(ds, es);
    } else if LosesBest(ds) {
      OneLost(ds, es);
    } else if LosesBest(es) {
      OneLost(es, ds);
    } else {
      KeptUnlessLost(ds);
      KeptUnlessLost(es);
    }
  }

  lemma NothingKept(ds: seq<Desc>)
    requires Choose(ds).None?
    ensures Kept(ds).None? && !LosesBest(ds)
  {
    ChooseIsChoice(ds);
    assert forall d :: d in Seen(ds) ==> d in ds;
  }

  lemma OneLost(ds: seq<Desc>, es: seq<Desc>)
    requires multiset(ds) == multiset(es) && LosesBest(ds) && !LosesBest(es)
    ensures Kept(es).Some? && !SameOutcome(Kept(ds), Kept(es))
  {
    LostIsBetter(ds);
    ChoiceIgnoresOrder(ds, es);
    KeptUnlessLost(es);
    if Kept(ds).Some? {
      BetterIsStrictOrder(ds[|ds| - 1], Kept(ds).value, Kept(ds).value);
    }
  }

  // ---- the same on the buffer ----

  // What is left in a buffer that held this page, when this descriptor is kept.
  predicate Leaves(page: seq<byte>, kept: Option<Desc>, x: seq<byte>) {
    if kept.None? then x == page else Holds(x, kept.value) && |x| == |page|
  }

  // The buffer holds the descriptor and zeros.
  predicate Holds(x: seq<byte>, d: Desc) {
    |Encode(d)| <= |x| && x == Encode(d) + Zeros(|x| - |Encode(d)|)
  }

  // The result for a page that holds a list.
  lemma DevIdOfPage(p: byte, ds: seq<Desc>, extra: seq<byte>)
    requires |EncodeAll(ds)| < U16
    ensures Leaves(Page(p, ds) + extra, Kept(ds), DevId(Page(p, ds) + extra, |Page(p, ds)|))
  {
    PageDescriptors(p, ds, extra);
    if Kept(ds).Some? { ChoiceFits(Page(p, ds) + extra, |Page(p, ds)|); }
  }

  // Type, length, designator and padding: what a caller reads from the buffer.
  predicate SameDesignator(x: seq<byte>, y: seq<byte>)
    requires |x| == |y| >= HEADER
  {
    x[1] % 16 == y[1] % 16 && x[3..] == y[3..]
  }

  lemma LengthAndBytes(x: seq<byte>, l: nat)
    requires DESC_HEAD + l <= |x|
    ensures x[3..][0] == x[3] && x[3..][1..l + 1] == x[DESC_HEAD..DESC_HEAD + l]
  {}

  lemma SameKeyIffSameBytes(a: Desc, b: Desc, x: seq<byte>, y: seq<byte>)
    requires |x| == |y| && Holds(x, a) && Holds(y, b)
    ensures SameDesignator(x, y) <==> SameKey(a, b)
  {
    assert x[1] == a.flags && y[1] == b.flags && x[3] == |a.designator| && y[3] == |b.designator|;
    assert x[DESC_HEAD..|Encode(a)|] == a.designator && y[DESC_HEAD..|Encode(b)|] == b.designator;
    if SameKey(a, b) {
      assert Encode(a)[3..] == Encode(b)[3..];
      assert x[3..] == Encode(a)[3..] + Zeros(|x| - |Encode(a)|);
      assert y[3..] == Encode(b)[3..] + Zeros(|y| - |Encode(b)|);
    }
    if SameDesignator(x, y) {
      LengthAndBytes(x, |a.designator|);
      LengthAndBytes(y, |b.designator|);
      assert a.designator == b.designator;
    }
  }

  // A response left as it came is not mistaken for one that was cut down to a descriptor
  // with an empty designator: the first descriptor on the page has a type above NAA.
  lemma RawIsNotChosen(p: byte, ds: seq<Desc>, extra: seq<byte>, b: Desc, y: seq<byte>)
    requires |EncodeAll(ds)| < U16 && ds != [] && !ds[0].Candidate() && b.designator == []
    requires |y| == |Page(p, ds) + extra| && Holds(y, b)
    ensures !SameDesignator(Page(p, ds) + extra, y)
  {
    var x := Page(p, ds) + extra;
    assert EncodeAll(ds)[1] == ds[0].flags;
    assert x[5] == ds[0].flags != 0 && y[5] == 0;
    assert x[3..][2] == x[5] && y[3..][2] == y[5];
  }

  // Only one of the two orders keeps anything.
  lemma OneKept(p: byte, ds: seq<Desc>, extra: seq<byte>, es: seq<Desc>, y: seq<byte>)
    requires |EncodeAll(ds)| < U16 && multiset(ds) == multiset(es)
    requires Kept(ds).None? && Kept(es).Some?
    requires |y| == |Page(p, ds) + extra| && Holds(y, Kept(es).value)
    ensures !SameDesignator(Page(p, ds) + extra, y)
  {
    var n, b := |ds| - 1, Kept(es).value;
    ChooseIsChoice(ds);
    ChooseIsChoice(Seen(ds));
    assert forall j :: 0 <= j < n ==> Seen(ds)[j] == ds[j];
    assert b in es;
    var i := Occurrence(ds, es, b);
    assert i == n && b.designator == [];
    if n == 0 {
      OnlyOne(ds, es);
      assert false;
    } else {
      RawIsNotChosen(p, ds, extra, b, y);
    }
  }

  lemma OnlyOne(ds: seq<Desc>, es: seq<Desc>)
    requires multiset(ds) == multiset(es) && |ds| == 1
    ensures ds == es
  {
    assert |multiset(ds)| == |multiset(es)| == 1;
    var i := Occurrence(es, ds, ds[0]);
  }

  /** Two devices return the same descriptors in two orders, with whatever bytes after them.
      The buffers end with the same type, length, designator and padding exactly when both or
      neither order ends in the best candidate with an empty designator; only when nothing is
      kept of either do both keep the response as it came. */
  lemma DevIdIgnoresOrderIff(p: byte, q: byte, ds: seq<Desc>, es: seq<Desc>, pExtra: seq<byte>, qExtra: seq<byte>,
                             x: seq<byte>, y: seq<byte>)
    requires |EncodeAll(ds)| < U16 && |EncodeAll(es)| < U16
    requires multiset(ds) == multiset(es) && |x| == |y|
    requires x == DevId(Page(p, ds) + pExtra, |Page(p, ds)|)
    requires y == DevId(Page(q, es) + qExtra, |Page(q, es)|)
    ensures |x| >= HEADER
    ensures Kept(ds).Some? || Kept(es).Some? ==> (SameDesignator(x, y) <==> (LosesBest(ds) <==> LosesBest(es)))
    ensures Kept(ds).None? && Kept(es).None? ==> x == Page(p, ds) + pExtra && y == Page(q, es) + qExtra
  {
    DevIdOfPage(p, ds, pExtra);
    DevIdOfPage(q, es, qExtra);
    LeavesPage(p, ds, pExtra, x);
    BuffersDiffer(p, q, ds, es, pExtra, qExtra, x, y);
  }

  lemma LeavesPage(p: byte, ds: seq<Desc>, extra: seq<byte>, x: seq<byte>)
    requires |EncodeAll(ds)| < U16 && Leaves(Page(p, ds) + extra, Kept(ds), x)
    ensures |x| >= HEADER && (Kept(ds).None? ==> x == Page(p, ds) + extra)
  {}

  lemma BuffersDiffer(p: byte, q: byte, ds: seq<Desc>, es: seq<Desc>, pExtra: seq<byte>, qExtra: seq<byte>,
                      x: seq<byte>, y: seq<byte>)
    requires |EncodeAll(ds)| < U16 && |EncodeAll(es)| < U16
    requires multiset(ds) == multiset(es) && |x| == |y| >= HEADER
    requires Leaves(Page(p, ds) + pExtra, Kept(ds), x) && Leaves(Page(q, es) + qExtra, Kept(es), y)
    ensures Kept(ds).Some? || Kept(es).Some? ==> (SameDesignator(x, y) <==> (LosesBest(ds) <==> LosesBest(es)))
  {
    IgnoresOrderIff(ds, es);
    ChoiceIgnoresOrder(ds, es);
    if Kept(ds).Some? && Kept(es).Some? {
      SameKeyIffSameBytes(Kept(ds).value, Kept(es).value, x, y);
    } else if Kept(es).Some? {
      OneKept(p, ds, pExtra, es, y);
    } else if Kept(ds).Some? {
      OneKept(q, es, qExtra, ds, x);
    }
  }

  /** Pages on which the order matters: an NAA descriptor with an empty designator and one of
      a lower type. In the first order the NAA descriptor is kept, in the second the other. */
  lemma OrderMattersOnPages(a: Desc, b: Desc, x: seq<byte>, y: seq<byte>)
    requires a.Type() == TYPE_NAA && a.designator == [] && b.Type() < TYPE_NAA && b.designator != []
    requires |x| < 256 && x == [0, PAGE_DEV_ID, 0, |x| - HEADER] + Encode(a) + Encode(b)
    requires |y| < 256 && y == [0, PAGE_DEV_ID, 0, |y| - HEADER] + Encode(b) + Encode(a)
    ensures DevId(x, |x|) == Encode(a) + Zeros(|x| - |Encode(a)|)
    ensures DevId(y, |y|) == Encode(b) + Zeros(|y| - |Encode(b)|)
  {
    TwoOrders(a, b);
    PageOfPair(a, b, x);
    ResultOfList([a, b], a, x);
    PageOfPair(b, a, y);
    ResultOfList([b, a], b, y);
  }

  // Such pages in bytes.
  lemma OrderMattersInBytes(x: seq<byte>, y: seq<byte>)
    requires x == [0, 0x83, 0, 9] + [1, 3, 0, 0] + [1, 0, 0, 1, 65]
    requires y == [0, 0x83, 0, 9] + [1, 0, 0, 1, 65] + [1, 3, 0, 0]
    ensures DevId(x, |x|) == [1, 3, 0, 0] + Zeros(9)
    ensures DevId(y, |y|) == [1, 0, 0, 1, 65] + Zeros(8)
  {
    var a, b: Desc := Descriptor(1, 3, 0, []), Descriptor(1, 0, 0, [65]);
    assert Encode(a) == [1, 3, 0, 0] && Encode(b) == [1, 0, 0, 1, 65];
    OrderMattersOnPages(a, b, x, y);
  }

  lemma PageOfPair(a: Desc, b: Desc, page: seq<byte>)
    requires |page| < 256 && page == [0, PAGE_DEV_ID, 0, |page| - HEADER] + Encode(a) + Encode(b)
    ensures |EncodeAll([a, b])| < U16 && Page(0, [a, b]) == page
  {
    EncodedPair(a, b);
  }

  lemma ResultOfList(ds: seq<Desc>, kept: Desc, page: seq<byte>)
    requires |EncodeAll(ds)| < U16 && page == Page(0, ds) && Kept(ds) == Some(kept) && |Encode(kept)| <= |page|
    ensures DevId(page, |page|) == Encode(kept) + Zeros(|page| - |Encode(kept)|)
  {
    DevIdOfPage(0, ds, []);
    assert page + [] == page;
  }

  lemma EncodedPair(a: Desc, b: Desc)
    ensures EncodeAll([a, b]) == Encode(a) + Encode(b)
  {
    assert [a, b][1..] == [b] && [b][1..] == [];
    assert EncodeAll([b]) == Encode(b);
  }

  lemma TwoOrders(a: Desc, b: Desc)
    requires a.Type() == TYPE_NAA && a.designator == [] && b.Type() < TYPE_NAA && b.designator != []
    ensures Kept([a, b]) == Some(a) && Kept([b, a]) == Some(b)
  {
    assert [a, b][..1] == [a] && [a][..0] == [] && [b][..0] == [] && [b, a][..1] == [b];
    assert Choose([a]) == Some(0);
  }

  // ---- pages that are cut ----

  /** The leading descriptors that lie wholly in the first n bytes of an encoded list, with at
      least five bytes left for each. */
  function Visible(ds: seq<Desc>, n: nat): (vs: seq<Desc>)
    ensures vs <= ds
  {
    if ds == [] || n < DESC_MIN || |Encode(ds[0])| > n then []
    else [ds[0]] + Visible(ds[1..], n - |Encode(ds[0])|)
  }

  // What a descriptor at the head of an encoded list shows up to an end.
  lemma FirstVisible(page: seq<byte>, o: nat, end: nat, ds: seq<Desc>)
    requires o <= end <= |page| && ds != [] && page[o..] == EncodeAll(ds)
    ensures Complete(page, o, end) <==> end - o >= DESC_MIN && |Encode(ds[0])| <= end - o
    ensures Complete(page, o, end) ==> At(page, o) == ds[0] && page[o + 3] == |ds[0].designator|
    ensures o + |Encode(ds[0])| <= |page| && page[o + |Encode(ds[0])|..] == EncodeAll(ds[1..])
  {
    EncodedFirst(page, o, ds[0], EncodeAll(ds[1..]));
  }

  /** Walking an encoded list up to any end gives its visible descriptors. */
  lemma {:induction false} ParseVisible(page: seq<byte>, o: nat, end: nat, ds: seq<Desc>)
    requires o <= end <= |page| && page[o..] == EncodeAll(ds)
    ensures Parse(page, o, end) == Visible(ds, end - o)
    decreases |ds|
  {
    if ds == [] {
      assert o == |page|;
    } else {
      FirstVisible(page, o, end, ds);
      if Complete(page, o, end) {
        var next := o + |Encode(ds[0])|;
        ParseVisible(page, next, end, ds[1..]);
        ParseStep(page, o, next, end);
      }
    }
  }

  // All of a list is visible in all of its bytes, but for a last descriptor that is not seen.
  lemma SeenIsVisible(ds: seq<Desc>)
    ensures Visible(ds, |EncodeAll(ds)|) == Seen(ds)
  {
    var page := EncodeAll(ds);
    ParseEncoded(page, 0, ds);
    ParseVisible(page, 0, |page|, ds);
  }

  // The walk reads nothing past its end.
  lemma ParseOfPrefix(b: seq<byte>, c: seq<byte>, o: nat, end: nat)
    requires end <= |b| && end <= |c| && b[..end] == c[..end]
    ensures Parse(b, o, end) == Parse(c, o, end)
  {
    assert b == b[..end] + b[end..] && c == c[..end] + c[end..];
    ParseIgnoresExtra(b[..end], o, b[end..]);
    ParseIgnoresExtra(c[..end], o, c[end..]);
  }

  // The buffer b got that many bytes of a page that holds a list.
  ghost predicate GotOf(b: seq<byte>, got: nat, p: byte, ds: seq<Desc>, extra: seq<byte>) {
    |EncodeAll(ds)| < U16 && got <= |b| && got <= |Page(p, ds) + extra| && b[..got] == (Page(p, ds) + extra)[..got]
  }

  // It does so when an inquiry brings the page.
  lemma InquiryGets(before: seq<byte>, n: nat, reply: Reply, p: byte, ds: seq<Desc>, extra: seq<byte>)
    requires n <= |before| && |EncodeAll(ds)| < U16 && reply.Completed? && reply.resid <= n
    requires reply.data == Page(p, ds) + extra && Got(n, reply) <= |reply.data|
    ensures GotOf(Filled(before, n, reply), Got(n, reply), p, ds, extra)
  {
    var b, got := Filled(before, n, reply), Got(n, reply);
    assert forall i :: 0 <= i < got ==> b[..got][i] == reply.data[..got][i];
  }

  // The bytes of the list among those.
  function ListBytes(ds: seq<Desc>, got: nat): nat {
    if got < HEADER then 0 else Min(|EncodeAll(ds)|, got - HEADER)
  }

  /** However much of a page is returned, what is seen of its list is what is visible in the
      bytes returned of it. */
  lemma CutDescriptors(b: seq<byte>, got: nat, p: byte, ds: seq<Desc>, extra: seq<byte>)
    requires GotOf(b, got, p, ds, extra)
    ensures Descriptors(b, got) == Visible(ds, ListBytes(ds, got))
  {
    if got >= HEADER {
      var page, end := Page(p, ds), HEADER + ListBytes(ds, got);
      HeaderOf(b, got, p, ds, extra);
      assert (page + extra)[..end] == page[..end];
      assert b[..end] == b[..got][..end] == (page + extra)[..got][..end];
      ParseOfPrefix(b, page, HEADER, end);
      assert page[HEADER..] == EncodeAll(ds);
      ParseVisible(page, HEADER, end, ds);
    }
  }

  lemma HeaderOf(b: seq<byte>, got: nat, p: byte, ds: seq<Desc>, extra: seq<byte>)
    requires GotOf(b, got, p, ds, extra) && got >= HEADER
    ensures b[1] == PAGE_DEV_ID && ListEnd(b, got) == HEADER + ListBytes(ds, got)
  {
    var page := Page(p, ds);
    assert forall i :: 0 <= i < HEADER ==> b[i] == b[..got][i] == (page + extra)[i] == page[i];
  }

  // A descriptor with the type and designator of the best of the list lies in its first n
  // bytes.
  ghost predicate ShowsBest(ds: seq<Desc>, n: nat) {
    BestOf(ds).Some? && exists v :: v in Visible(ds, n) && SameKey(v, BestOf(ds).value)
  }

  lemma BestBeats(ds: seq<Desc>, v: Desc)
    requires v in ds && v.Candidate()
    ensures BestOf(ds).Some? && !Better(v, BestOf(ds).value)
  {
    ChooseIsChoice(ds);
    var j :| 0 <= j < |ds| && ds[j] == v;
  }

  /** The best descriptor of the whole list is kept exactly when it, or one of the same type and
      designator, is visible. */
  lemma BestKeptIff(ds: seq<Desc>, n: nat)
    requires BestOf(ds).Some?
    ensures SameOutcome(BestOf(Visible(ds, n)), BestOf(ds)) <==> ShowsBest(ds, n)
  {
    var vs, best := Visible(ds, n), BestOf(ds).value;
    forall v | v in vs && SameKey(v, best) ensures SameOutcome(BestOf(vs), BestOf(ds)) {
      BestBeats(vs, v);
      var kept := BestOf(vs).value;
      assert kept in ds;
      BestBeats(ds, kept);
      BetterIsStrictOrder(kept, best, v);
      SameKeySameOrder(v, best, kept);
    }
  }

  lemma SameKeySameOrder(a: Desc, b: Desc, c: Desc)
    requires SameKey(a, b)
    ensures Better(a, c) <==> Better(b, c)
  {}

  // What is left of a cut page.
  lemma CutResult(b: seq<byte>, got: nat, p: byte, ds: seq<Desc>, extra: seq<byte>)
    requires GotOf(b, got, p, ds, extra)
    ensures Leaves(b, BestOf(Visible(ds, ListBytes(ds, got))), DevId(b, got))
  {
    CutDescriptors(b, got, p, ds, extra);
    if BestOf(Visible(ds, ListBytes(ds, got))).Some? { ChoiceFits(b, got); }
  }

  /** The same on the buffer, however much of the page is returned: when anything is kept, it is
      the best of the whole list exactly when that is visible in the bytes returned; otherwise
      the response stays. */
  lemma DevIdKeepsBestIff(b: seq<byte>, got: nat, p: byte, ds: seq<Desc>, extra: seq<byte>, x: seq<byte>, best: seq<byte>)
    requires GotOf(b, got, p, ds, extra) && BestOf(ds).Some? && x == DevId(b, got)
    requires |best| == |b| && Holds(best, BestOf(ds).value)
    ensures var n := ListBytes(ds, got);
            if BestOf(Visible(ds, n)).None? then x == b && !ShowsBest(ds, n)
            else |x| == |b| >= HEADER && (SameDesignator(x, best) <==> ShowsBest(ds, n))
  {
    var n := ListBytes(ds, got);
    CutResult(b, got, p, ds, extra);
    BestKeptIff(ds, n);
    if BestOf(Visible(ds, n)).Some? {
      SameKeyIffSameBytes(BestOf(Visible(ds, n)).value, BestOf(ds).value, x, best);
    }
  }

  /** Two devices return cuts of the same descriptors in two orders. When both show the best of
      the list the buffers agree, when only one does they differ, and in any case they agree
      exactly when the best of what each shows agrees. */
  lemma CutOrderMattersIff(b: seq<byte>, c: seq<byte>, got: nat, got': nat, p: byte, q: byte, ds: seq<Desc>, es: seq<Desc>,
                           pExtra: seq<byte>, qExtra: seq<byte>, x: seq<byte>, y: seq<byte>)
    requires GotOf(b, got, p, ds, pExtra) && GotOf(c, got', q, es, qExtra) && |b| == |c| && multiset(ds) == multiset(es)
    requires x == DevId(b, got) && y == DevId(c, got')
    requires BestOf(Visible(ds, ListBytes(ds, got))).Some? && BestOf(Visible(es, ListBytes(es, got'))).Some?
    ensures |x| == |y| >= HEADER
    ensures SameDesignator(x, y) <==>
              SameKey(BestOf(Visible(ds, ListBytes(ds, got))).value, BestOf(Visible(es, ListBytes(es, got'))).value)
    ensures ShowsBest(ds, ListBytes(ds, got)) && ShowsBest(es, ListBytes(es, got')) ==> SameDesignator(x, y)
    ensures ShowsBest(ds, ListBytes(ds, got)) != ShowsBest(es, ListBytes(es, got')) ==> !SameDesignator(x, y)
  {
    var vs, ws := Visible(ds, ListBytes(ds, got)), Visible(es, ListBytes(es, got'));
    CutResult(b, got, p, ds, pExtra);
    CutResult(c, got', q, es, qExtra);
    SameKeyIffSameBytes(BestOf(vs).value, BestOf(ws).value, x, y);
    assert BestOf(vs).value in ds && BestOf(ws).value in es;
    BestBeats(ds, BestOf(vs).value);
    BestBeats(es, BestOf(ws).value);
    ChoiceIgnoresOrder(ds, es);
    BestKeptIff(ds, ListBytes(ds, got));
    BestKeptIff(es, ListBytes(es, got'));
  }

  /** Long pages on which the order matters although no designator is empty: of two descriptors
      that fit in the bytes returned one by one but not together, the first is kept, whatever
      their types up to NAA. So each of the two orders keeps another one. */
  lemma LongPageKeepsTheFirst(b: seq<byte>, got: nat, p: byte, ds: seq<Desc>, extra: seq<byte>, d: Desc, e: Desc)
    requires ds == [d, e] && GotOf(b, got, p, ds, extra) && got >= HEADER
    requires d.Candidate() && d.designator != [] && |Encode(d)| <= got - HEADER < |Encode(d)| + |Encode(e)|
    ensures Leaves(b, Some(d), DevId(b, got))
  {
    CutResult(b, got, p, ds, extra);
    OnlyTheFirst(d, e, got - HEADER);
  }

  lemma OnlyTheFirst(d: Desc, e: Desc, n: nat)
    requires d.Candidate() && d.designator != [] && |Encode(d)| <= n < |Encode(d)| + |Encode(e)|
    ensures BestOf(Visible([d, e], Min(|EncodeAll([d, e])|, n))) == Some(d)
  {
    EncodedPair(d, e);
    assert [d, e][1..] == [e];
    assert Visible([d, e], n) == [d];
    assert [d][..0] == [];
    assert Choose([d]) == Some(0);
  }

  /** Such a pair for the 255 bytes of an inquiry: a vendor specific designator of 200 bytes and
      an NAA designator of 60. */
  lemma LongPageExists() returns (d: Desc, e: Desc)
    ensures d.Type() == 1 && e.Type() == TYPE_NAA && |EncodeAll([d, e])| == |EncodeAll([e, d])| == 268
    ensures Better(e, d) && !LosesBest([d, e]) && !LosesBest([e, d])
    ensures |Encode(d)| <= INQUIRY_MAX - HEADER && |Encode(e)| <= INQUIRY_MAX - HEADER < |Encode(d)| + |Encode(e)|
  {
    d, e := Descriptor(1, 1, 0, Zeros(200)), Descriptor(1, 3, 0, Zeros(60));
    EncodedPair(d, e);
    EncodedPair(e, d);
  }

  // ---- the choice in the bytes of the descriptors ----

  /** The order of memcmp is that of the first byte that differs. */
  lemma {:induction false} FirstDifference(a: seq<byte>, b: seq<byte>)
    requires |a| == |b|
    ensures BytesLess(a, b) <==> exists k :: 0 <= k < |a| && a[..k] == b[..k] && a[k] < b[k]
  {
    if a != [] {
      FirstDifference(a[1..], b[1..]);
      if BytesLess(a, b) && a[0] == b[0] {
        var k :| 0 <= k < |a[1..]| && a[1..][..k] == b[1..][..k] && a[1..][k] < b[1..][k];
        assert a[..k + 1] == [a[0]] + a[1..][..k] && b[..k + 1] == [b[0]] + b[1..][..k];
        assert a[k + 1] < b[k + 1];
      } else if BytesLess(a, b) {
        assert a[..0] == b[..0];
      }
      if k :| 0 <= k < |a| && a[..k] == b[..k] && a[k] < b[k] {
        if k > 0 {
          assert a[0] == a[..k][0] == b[..k][0] == b[0];
          assert a[1..][..k - 1] == a[..k][1..] == b[..k][1..] == b[1..][..k - 1];
          assert a[1..][k - 1] < b[1..][k - 1];
        }
      }
    }
  }

  /** One descriptor comes before another: its type, the low four bits of its second byte, is
      higher; or the types are equal and its designator is shorter, or as long and smaller in
      the first byte that differs, or the same and earlier on the page. */
  ghost predicate ComesBefore(a: Descriptor, b: Descriptor, earlier: bool) {
    var s, t := a.flags % 16, b.flags % 16;
    var x, y := a.designator, b.designator;
    || t < s
    || (t == s && |x| < |y|)
    || (t == s && |x| == |y| && exists k :: 0 <= k < |x| && x[..k] == y[..k] && x[k] < y[k])
    || (t == s && x == y && earlier)
  }

  /** The chosen descriptor has a type up to 3 and comes before every other of such a type; none
      is chosen only when there is none. */
  lemma ChoiceComesFirst(ds: seq<Desc>, j: nat)
    requires j < |ds| && ds[j].flags % 16 <= 3
    ensures Choose(ds).Some? && ds[Choose(ds).value].flags % 16 <= 3
    ensures var i := Choose(ds).value; i == j || ComesBefore(ds[i], ds[j], i < j)
  {
    ChooseIsChoice(ds);
    var i := Choose(ds).value;
    var x, y := ds[i].designator, ds[j].designator;
    if |x| == |y| { FirstDifference(x, y); }
    BetterIsStrictOrder(ds[i], ds[j], ds[i]);
    assert ds[j].Candidate();
  }

  // The bytes of a descriptor and zeros.
  predicate HasBytes(x: seq<byte>, d: Desc) {
    var n := |d.designator|;
    && |x| >= 4 + n
    && x[0] == d.code && x[1] == d.flags && x[2] == d.reserved && x[3] == n && x[4..4 + n] == d.designator
    && forall k :: 4 + n <= k < |x| ==> x[k] == 0
  }

  /** What sg_get_dev_id leaves, in bytes: of the descriptors visible in the bytes returned, the
      one with a type up to 3 that comes before all others of such a type, and zeros; or the
      response when there is none. */
  lemma DevIdInBytes(b: seq<byte>, got: nat, p: byte, ds: seq<Desc>, extra: seq<byte>, x: seq<byte>)
    requires GotOf(b, got, p, ds, extra) && x == DevId(b, got)
    ensures var vs := Visible(ds, ListBytes(ds, got));
            if exists j :: 0 <= j < |vs| && vs[j].flags % 16 <= 3
            then exists i :: 0 <= i < |vs| && HasBytes(x, vs[i]) && IsFirst(vs, i)
            else x == b
  {
    var vs := Visible(ds, ListBytes(ds, got));
    CutDescriptors(b, got, p, ds, extra);
    if j :| 0 <= j < |vs| && vs[j].flags % 16 <= 3 {
      ChoiceIsFirst(vs, j);
      var i := Choose(vs).value;
      ChoiceFits(b, got);
      HoldsHasBytes(x, vs[i]);
    } else {
      ChooseIsChoice(vs);
    }
  }

  ghost predicate IsFirst(vs: seq<Desc>, i: nat) {
    i < |vs| && vs[i].flags % 16 <= 3 &&
    forall k :: 0 <= k < |vs| && vs[k].flags % 16 <= 3 ==> k == i || ComesBefore(vs[i], vs[k], i < k)
  }

  /** A response of fewer than four bytes, or with another page code, is left as it is. */
  lemma OtherResponseStays(b: seq<byte>, got: nat)
    requires got <= |b| && (got < 4 || b[1] != 0x83)
    ensures DevId(b, got) == b
  {}

  lemma ChoiceIsFirst(vs: seq<Desc>, j: nat)
    requires j < |vs| && vs[j].flags % 16 <= 3
    ensures Choose(vs).Some? && IsFirst(vs, Choose(vs).value)
  {
    ChoiceComesFirst(vs, j);
    var i := Choose(vs).value;
    forall k | 0 <= k < |vs| && vs[k].flags % 16 <= 3 ensures k == i || ComesBefore(vs[i], vs[k], i < k) {
      ChoiceComesFirst(vs, k);
    }
  }

  lemma HoldsHasBytes(x: seq<byte>, d: Desc)
    requires Holds(x, d)
    ensures HasBytes(x, d)
  {
    assert x[..|Encode(d)|] == Encode(d);
    assert x[4..4 + |d.designator|] == Encode(d)[4..];
  }
}
