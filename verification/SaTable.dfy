/** utils.h, utils.c: the integer-indexed table that grows by sixteen slots at a time. */
module SaTables {
  import opened Wrappers
  import opened CText

  const GROWTH: nat := 16
  const INDEX_LIMIT: nat := 0x7FFF_FFF0   // 2^31 - 16: index + 16 and the int result stay in range

  // ---- slots: the valid entries of a table, NULL as None ----

  function At<T>(slots: seq<Option<T>>, i: nat): Option<T> {
    if i < |slots| then slots[i] else None
  }

  function Nones<T>(n: nat): (s: seq<Option<T>>)
    ensures |s| == n && forall i :: 0 <= i < n ==> s[i] == None
  {
    seq(n, _ => None)
  }

  // Slots that are all in use.
  function Full<T>(es: seq<T>): (s: seq<Option<T>>)
    ensures |s| == |es| && forall i :: 0 <= i < |s| ==> s[i] == Some(es[i])
  {
    seq(|es|, i requires 0 <= i < |es| => Some(es[i]))
  }

  function Put<T>(slots: seq<Option<T>>, i: nat, ep: Option<T>): (r: seq<Option<T>>)
    ensures |r| == if i < |slots| then |slots| else i + 1
  {
    if i < |slots| then slots[i := ep] else slots + Nones(i - |slots|) + [ep]
  }

  lemma AtPut<T>(slots: seq<Option<T>>, i: nat, ep: Option<T>, k: nat)
    ensures At(Put(slots, i, ep), k) == if k == i then ep else At(slots, k)
  {}

  // The non-NULL entries in index order.
  function Live<T>(slots: seq<Option<T>>): (live: seq<T>)
    ensures |live| <= |slots|
  {
    if slots == [] then []
    else
      var n := |slots| - 1;
      Live(slots[..n]) + (if slots[n].Some? then [slots[n].value] else [])
  }

  // The number of non-NULL entries below i.
  function Rank<T>(slots: seq<Option<T>>, i: nat): nat {
    |Live(slots[..if i < |slots| then i else |slots|])|
  }

  // The first result the match function gives for a non-NULL entry.
  function FirstMatch<T, U>(slots: seq<Option<T>>, f: T -> Option<U>): Option<U> {
    if slots == [] then None
    else if slots[0].Some? && f(slots[0].value).Some? then f(slots[0].value)
    else FirstMatch(slots[1..], f)
  }

  function Nth<T>(s: seq<T>, n: nat): Option<T> {
    if n < |s| then Some(s[n]) else None
  }

  // ---- the class ----

  // realloc: whether there is memory for it is an input, here and in all that calls it.
  method Realloc(memory: bool) returns (ok: bool)
    ensures ok == memory
  {
    ok := memory;
  }

  class SaTable<T> {
    var stSize: nat
    var stLimit: nat
    var stTable: seq<Option<T>>

    ghost predicate Valid()
      reads this
    {
      && |stTable| == stSize
      && stLimit <= stSize <= stLimit + (GROWTH - 1)
      && (stLimit == 0 ==> stSize == 0)
      && stLimit <= INDEX_LIMIT
      && forall i :: stLimit <= i < stSize ==> stTable[i] == None
    }

    // The public part of the table.
    function Slots(): (s: seq<Option<T>>)
      reads this
      requires Valid()
      ensures |s| == stLimit
    {
      stTable[..stLimit]
    }

    // sa_table_init: all zero.
    constructor ()
      ensures Valid() && Slots() == [] && stSize == 0
    {
      stSize, stLimit, stTable := 0, 0, [];
    }

    function Lookup(index: nat): (ep: Option<T>)
      reads this
      requires Valid()
      ensures ep == At(Slots(), index)
    {
      if index < stLimit then stTable[index] else None
    }

    /** Entry number n among the non-NULL ones. The counter is a 32-bit word that wraps. */
    method LookupN(n: nat) returns (ep: Option<T>)
      requires Valid() && n < U32
      ensures ep == Nth(Live(Slots()), n)
    {
      var left: nat := n;
      for i := 0 to stLimit
        invariant left + |Live(Slots()[..i])| == n
      {
        LivePrefix(Slots(), i);
        LiveMonotone(Slots(), i + 1);
        ep := stTable[i];
        if ep.Some? {
          var was := left;
          left := (left + (U32 - 1)) % U32;
          if was == 0 {
            return;
          }
        }
      }
      assert Slots()[..stLimit] == Slots();
      ep := None;
    }

    /** Makes room for an index past the end; it fails exactly when the table has to be
        reallocated and there is no memory, and then changes nothing. The ghost result counts
        the calls of realloc. */
    method Grow(index: nat, memory: bool) returns (r: int, ghost calls: nat)
      requires Valid() && stLimit <= index < INDEX_LIMIT
      modifies this
      ensures Valid()
      ensures r == if index >= old(stSize) && !memory then -1 else index
      ensures r == -1 ==> stSize == old(stSize) && Slots() == old(Slots())
      ensures r != -1 ==> stSize == (if index >= old(stSize) then index + GROWTH else old(stSize))
      ensures r != -1 ==> Slots() == old(Slots()) + Nones(index + 1 - old(stLimit))
      ensures calls == if index >= old(stSize) then 1 else 0
    {
      calls := 0;
      if index >= stSize {
        var newSize := index + GROWTH;
        var ok := Realloc(memory);
        calls := 1;
        if !ok {
          return -1, calls;
        }
        stTable := stTable + Nones(newSize - stSize);
        stSize := newSize;
      }
      stLimit := index + 1;
      r := index;
    }

    /** Replaces or inserts an entry, or fails and changes nothing; it fails exactly when the
        table has to be reallocated and there is no memory. */
    method Insert(index: nat, ep: Option<T>, memory: bool) returns (r: int, ghost calls: nat)
      requires Valid() && index < INDEX_LIMIT
      modifies this
      ensures Valid()
      ensures r == if index >= old(stSize) && !memory then -1 else index
      ensures r == -1 ==> stSize == old(stSize) && Slots() == old(Slots())
      ensures r != -1 ==> stSize == (if index >= old(stSize) then index + GROWTH else old(stSize))
      ensures r != -1 ==> Slots() == Put(old(Slots()), index, ep)
      ensures calls == if index >= old(stSize) then 1 else 0
    {
      calls := 0;
      if index >= stLimit {
        var g, n := Grow(index, memory);
        calls := n;
        if g < 0 {
          return -1, calls;
        }
      }
      stTable := stTable[index := ep];
      r := index;
    }

    method Append(ep: Option<T>, memory: bool) returns (r: int, ghost calls: nat)
      requires Valid() && stLimit < INDEX_LIMIT
      modifies this
      ensures Valid()
      ensures r == if old(stLimit) == old(stSize) && !memory then -1 else old(stLimit)
      ensures r == -1 ==> stSize == old(stSize) && Slots() == old(Slots())
      ensures r != -1 ==> stSize == (if old(stLimit) == old(stSize) then old(stLimit) + GROWTH else old(stSize))
      ensures r != -1 ==> Slots() == old(Slots()) + [ep]
      ensures calls == if old(stLimit) == old(stSize) then 1 else 0
    {
      r, calls := Insert(stLimit, ep, memory);
    }

    method Destroy()
      modifies this
      ensures Valid() && Slots() == [] && stSize == 0
    {
      stTable, stLimit, stSize := [], 0, 0;
    }

    /** Frees every entry once, in index order, and empties the table. */
    method DestroyAll() returns (freed: seq<T>)
      requires Valid()
      modifies this
      ensures Valid() && Slots() == [] && stSize == 0
      ensures freed == Live(old(Slots()))
    {
      ghost var slots := Slots();
      freed := [];
      for i := 0 to stLimit
        invariant stLimit == old(stLimit) && |stTable| == old(stSize)
        invariant freed == Live(slots[..i])
        invariant forall k :: i <= k < stLimit ==> stTable[k] == slots[k]
      {
        LivePrefix(slots, i);
        if stTable[i].Some? {
          freed := freed + [stTable[i].value];
          stTable := stTable[i := None];
        }
      }
      assert slots[..stLimit] == slots;
      Destroy();
    }

    // What a run of operations depends on.
    ghost function Now(): State<T>
      reads this
      requires Valid()
    {
      State(stSize, Slots())
    }

    /** Any operation on the table is the operation as specified, and succeeds exactly when it
        needs no memory or gets it. */
    method Perform(op: Op<T>, memory: bool) returns (ok: bool, ghost calls: nat)
      requires Valid() && InRange(|Slots()|, op)
      modifies this
      ensures Valid() && Now() == Step(old(Now()), op, ok) && ok == (Reallocates(old(Now()), op) ==> memory)
      ensures calls == if Reallocates(old(Now()), op) then 1 else 0
    {
      var r := 0;
      calls := 0;
      match op {
        case Insert(index, ep) => r, calls := Insert(index, ep, memory);
        case Append(ep) => r, calls := Append(ep, memory);
        case Destroy => Destroy();
      }
      ok := r >= 0;
    }

    /** Any run of operations on the table is the run on a finite map, for the memory there is
        for each of them; realloc is called as often as the specification says. */
    method PerformAll(ops: seq<Op<T>>, memory: seq<bool>) returns (oks: seq<bool>, ghost calls: nat)
      requires Valid() && |memory| == |ops| && RunInRange(|Slots()|, ops)
      modifies this
      ensures Valid() && |oks| == |ops| && Outcomes(old(Now()), ops, memory, oks)
      ensures Now() == Run(old(Now()), ops, oks) && calls == Reallocations(old(Now()), ops, oks)
      ensures View(Slots()) == MapRun(View(old(Slots())), ops, oks)
    {
      oks, calls := [], 0;
      ghost var start := Now();
      for i := 0 to |ops|
        invariant Valid() && |oks| == i && Outcomes(start, ops[..i], memory[..i], oks)
        invariant Now() == Run(start, ops[..i], oks) && calls == Reallocations(start, ops[..i], oks)
      {
        StaysInRange(start, ops, oks);
        var ok, n := Perform(ops[i], memory[i]);
        RunNext(start, ops, memory, oks, ok);
        oks, calls := oks + [ok], calls + n;
      }
      assert ops[..|ops|] == ops && memory[..|ops|] == memory;
      RunRefinesMap(start, ops, oks);
    }

    /** The first non-NULL result of the match function over the non-NULL entries. */
    method Search<U>(f: T -> Option<U>) returns (found: Option<U>)
      requires Valid()
      ensures found == FirstMatch(Slots(), f)
    {
      found := None;
      for i := 0 to stLimit
        invariant found == None
        invariant FirstMatch(Slots(), f) == FirstMatch(Slots()[i..], f)
      {
        assert Slots()[i..][1..] == Slots()[i + 1..];
        if stTable[i].Some? {
          found := f(stTable[i].value);
          if found.Some? {
            return;
          }
        }
      }
    }
  }

  // ---- what the listing by number gives ----

  lemma LivePrefix<T>(slots: seq<Option<T>>, i: nat)
    requires i < |slots|
    ensures Live(slots[..i + 1]) == Live(slots[..i]) + (if slots[i].Some? then [slots[i].value] else [])
  {
    var s := slots[..i + 1];
    assert s[..|s| - 1] == slots[..i];
  }

  lemma {:induction false} LiveMonotone<T>(slots: seq<Option<T>>, i: nat)
    requires i <= |slots|
    ensures Live(slots[..i]) <= Live(slots)
  {
    if i == |slots| {
      assert slots[..i] == slots;
    } else {
      var n := |slots| - 1;
      assert slots[..n][..i] == slots[..i];
      LiveMonotone(slots[..n], i);
    }
  }

  /** Every non-NULL entry is listed at its rank. */
  lemma LiveAtRank<T>(slots: seq<Option<T>>, i: nat)
    requires i < |slots| && slots[i].Some?
    ensures Rank(slots, i) < |Live(slots)| && Live(slots)[Rank(slots, i)] == slots[i].value
  {
    LivePrefix(slots, i);
    LiveMonotone(slots, i + 1);
  }

  // The slot of the n-th live entry.
  function Select<T>(slots: seq<Option<T>>, n: nat): (i: nat)
    requires n < |Live(slots)|
    ensures i < |slots| && slots[i].Some? && Rank(slots, i) == n
  {
    var k := |slots| - 1;
    if slots[k].Some? && n == |Live(slots)| - 1 then k
    else
      var i := Select(slots[..k], n);
      assert slots[..k][..i] == slots[..i];
      i
  }

  /** Asking for number 0, 1, 2, ... lists every live entry once, in index order: the slots
      asked for increase with the number, and each live slot is the one for its rank. */
  lemma ListingIsExact<T>(slots: seq<Option<T>>)
    ensures forall n: nat :: n < |Live(slots)| ==> slots[Select(slots, n)] == Some(Live(slots)[n])
    ensures forall m: nat, n: nat :: m < n < |Live(slots)| ==> Select(slots, m) < Select(slots, n)
    ensures forall i: nat :: i < |slots| && slots[i].Some? ==>
              Rank(slots, i) < |Live(slots)| && Select(slots, Rank(slots, i)) == i
  {
    forall n: nat | n < |Live(slots)| ensures slots[Select(slots, n)] == Some(Live(slots)[n]) {
      LiveAtRank(slots, Select(slots, n));
    }
    forall m: nat, n: nat | m < n < |Live(slots)| ensures Select(slots, m) < Select(slots, n) {
      RankMonotone(slots, Select(slots, n), Select(slots, m));
    }
    forall i: nat | i < |slots| && slots[i].Some?
      ensures Rank(slots, i) < |Live(slots)| && Select(slots, Rank(slots, i)) == i
    {
      LiveAtRank(slots, i);
      var j := Select(slots, Rank(slots, i));
      RankMonotone(slots, i, j);
      RankMonotone(slots, j, i);
    }
  }

  // Ranks strictly increase past a live slot.
  lemma RankMonotone<T>(slots: seq<Option<T>>, i: nat, j: nat)
    requires i < |slots| && j < |slots| && slots[i].Some?
    ensures i < j ==> Rank(slots, i) < Rank(slots, j)
  {
    if i < j {
      assert slots[..j][..i + 1] == slots[..i + 1];
      LivePrefix(slots, i);
      LiveMonotone(slots[..j], i + 1);
    }
  }

  lemma {:induction false} LiveConcat<T>(a: seq<Option<T>>, b: seq<Option<T>>)
    ensures Live(a + b) == Live(a) + Live(b)
  {
    if b == [] {
      assert a + b == a;
    } else {
      var n := |b| - 1;
      assert (a + b)[..|a| + n] == a + b[..n];
      LiveConcat(a, b[..n]);
    }
  }

  lemma {:induction false} LiveNones<T>(n: nat)
    ensures Live(Nones<T>(n)) == []
  {
    if n > 0 {
      assert Nones<T>(n)[..n - 1] == Nones<T>(n - 1);
      LiveNones<T>(n - 1);
    }
  }

  lemma LiveThree<T>(front: seq<Option<T>>, mid: Option<T>, back: seq<Option<T>>)
    ensures Live(front + [mid] + back) == Live(front) + (if mid.Some? then [mid.value] else []) + Live(back)
  {
    LiveConcat(front, [mid]);
    LiveConcat(front + [mid], back);
    assert [mid][..0] == [];
  }

  lemma Pieces<T>(a: seq<T>, b: seq<T>, c: seq<T>)
    ensures (a + b + c)[..|a|] == a && (a + b + c)[|a| + |b|..] == c
  {}

  lemma SplitAt<T>(s: seq<T>, i: nat)
    requires i < |s|
    ensures s[..i] + [s[i]] + s[i + 1..] == s
  {}

  lemma LiveSplit<T>(slots: seq<Option<T>>, i: nat)
    requires i < |slots|
    ensures Live(slots) == Live(slots[..i]) + (if slots[i].Some? then [slots[i].value] else []) + Live(slots[i + 1..])
  {
    LiveThree(slots[..i], slots[i], slots[i + 1..]);
    SplitAt(slots, i);
  }

  lemma LiveAfterExtension<T>(slots: seq<Option<T>>, i: nat, x: T)
    requires i >= |slots|
    ensures Live(Put(slots, i, Some(x))) == Live(slots) + [x] && Rank(slots, i) == |Live(slots)|
  {
    var gap := Nones<T>(i - |slots|);
    LiveConcat(slots, gap);
    LiveNones<T>(i - |slots|);
    LiveOne(slots + gap, x);
    assert slots[..|slots|] == slots;
  }

  lemma LiveOne<T>(front: seq<Option<T>>, x: T)
    ensures Live(front + [Some(x)]) == Live(front) + [x]
  {
    assert (front + [Some(x)])[..|front|] == front;
  }

  /** An insert shows in the listing as one entry added at the slot's rank, or replaced there:
      it does not matter whether the insert fills a gap or extends the table. */
  lemma LiveAfterPut<T>(slots: seq<Option<T>>, i: nat, x: T)
    ensures var r, old' := Rank(slots, i), if At(slots, i).Some? then 1 else 0;
            r + old' <= |Live(slots)| &&
            Live(Put(slots, i, Some(x))) == Live(slots)[..r] + [x] + Live(slots)[r + old'..]
  {
    if i < |slots| {
      var after := slots[i := Some(x)];
      assert after[..i] == slots[..i] && after[i + 1..] == slots[i + 1..];
      LiveSplit(slots, i);
      LiveSplit(after, i);
      Pieces(Live(slots[..i]), if slots[i].Some? then [slots[i].value] else [], Live(slots[i + 1..]));
    } else {
      LiveAfterExtension(slots, i, x);
    }
  }

  // The first result of the match function over a list.
  function FirstOf<T, U>(s: seq<T>, f: T -> Option<U>): Option<U> {
    if s == [] then None else if f(s[0]).Some? then f(s[0]) else FirstOf(s[1..], f)
  }

  /** Searching a table is searching the list of its live entries. */
  lemma {:induction false} SearchIsFirstLive<T, U>(slots: seq<Option<T>>, f: T -> Option<U>)
    ensures FirstMatch(slots, f) == FirstOf(Live(slots), f)
  {
    if slots != [] {
      LiveSplit(slots, 0);
      SearchIsFirstLive(slots[1..], f);
      var rest := Live(slots[1..]);
      if slots[0].Some? {
        assert Live(slots) == [slots[0].value] + rest;
        assert Live(slots)[1..] == rest;
      } else {
        assert Live(slots) == rest;
      }
    }
  }

  // Tables that agree on every lookup list the same entries.
  lemma {:induction false} LiveExtensional<T>(a: seq<Option<T>>, b: seq<Option<T>>)
    requires forall k: nat :: At(a, k) == At(b, k)
    ensures Live(a) == Live(b)
    decreases |a| + |b|
  {
    if |a| > |b| {
      var n := |a| - 1;
      assert At(a, n) == At(b, n) == None;
      forall k: nat ensures At(a[..n], k) == At(b, k) { assert At(a, k) == At(b, k); }
      LiveExtensional(a[..n], b);
    } else if |a| < |b| {
      var n := |b| - 1;
      assert At(b, n) == At(a, n) == None;
      forall k: nat ensures At(a, k) == At(b[..n], k) { assert At(a, k) == At(b, k); }
      LiveExtensional(a, b[..n]);
    } else {
      forall k | 0 <= k < |a| ensures a[k] == b[k] { assert At(a, k) == At(b, k); }
      assert a == b;
    }
  }

  // ---- runs of operations ----

  // The two words of a table that a run of operations depends on.
  datatype State<T> = State(size: nat, slots: seq<Option<T>>)

  datatype Op<T> = Insert(index: nat, ep: Option<T>) | Append(ep: Option<T>) | Destroy

  predicate InRange<T>(limit: nat, op: Op<T>) {
    match op
    case Insert(i, _) => i < INDEX_LIMIT
    case Append(_) => limit < INDEX_LIMIT
    case Destroy => true
  }

  // The slot an operation writes, in a table with this many valid slots.
  function Target<T>(limit: nat, op: Op<T>): nat
    requires !op.Destroy?
  {
    if op.Insert? then op.index else limit
  }

  // The operation needs more memory than the table has.
  predicate Reallocates<T>(s: State<T>, op: Op<T>) {
    !op.Destroy? && Target(|s.slots|, op) >= s.size
  }

  /** One operation that succeeds or fails, with the size of the table. */
  function Step<T>(s: State<T>, op: Op<T>, ok: bool): State<T> {
    if op.Destroy? then State(0, [])
    else if !ok then s
    else State(if Reallocates(s, op) then Target(|s.slots|, op) + GROWTH else s.size,
               Put(s.slots, Target(|s.slots|, op), op.ep))
  }

  // The table as a finite partial map, with the end of its valid entries.
  datatype MapView<T> = MapView(limit: nat, entries: map<nat, T>)

  function View<T>(slots: seq<Option<T>>): (v: MapView<T>)
    ensures forall k: nat :: At(slots, k) == if k in v.entries then Some(v.entries[k]) else None
  {
    MapView(|slots|, map k | 0 <= k < |slots| && slots[k].Some? :: slots[k].value)
  }

  function MapStep<T>(v: MapView<T>, op: Op<T>, ok: bool): MapView<T> {
    if op.Destroy? then MapView(0, map[])
    else if !ok then v
    else
      var i := Target(v.limit, op);
      MapView(if i < v.limit then v.limit else i + 1,
              if op.ep.Some? then v.entries[i := op.ep.value] else v.entries - {i})
  }

  /** Every operation is the operation on the map. */
  lemma StepRefinesMap<T>(s: State<T>, op: Op<T>, ok: bool)
    ensures View(Step(s, op, ok).slots) == MapStep(View(s.slots), op, ok)
  {
    if !op.Destroy? && ok {
      var i, after := Target(|s.slots|, op), Put(s.slots, Target(|s.slots|, op), op.ep);
      var v, w := View(s.slots).entries, View(after).entries;
      var expected := if op.ep.Some? then v[i := op.ep.value] else v - {i};
      forall k: nat ensures (k in w <==> k in expected) && (k in w ==> w[k] == expected[k]) {
        AtPut(s.slots, i, op.ep, k);
      }
      assert w == expected;
    }
  }

  function Run<T>(s: State<T>, ops: seq<Op<T>>, oks: seq<bool>): State<T>
    requires |ops| == |oks|
  {
    if ops == [] then s
    else
      var n := |ops| - 1;
      Step(Run(s, ops[..n], oks[..n]), ops[n], oks[n])
  }

  function MapRun<T>(v: MapView<T>, ops: seq<Op<T>>, oks: seq<bool>): MapView<T>
    requires |ops| == |oks|
  {
    if ops == [] then v
    else
      var n := |ops| - 1;
      MapStep(MapRun(v, ops[..n], oks[..n]), ops[n], oks[n])
  }

  /** Which operations of a run succeed: all but those that need memory and get none. */
  predicate Outcomes<T>(s: State<T>, ops: seq<Op<T>>, memory: seq<bool>, oks: seq<bool>)
    requires |ops| == |memory| == |oks|
  {
    ops == [] ||
    var n := |ops| - 1;
    Outcomes(s, ops[..n], memory[..n], oks[..n]) &&
    oks[n] == (Reallocates(Run(s, ops[..n], oks[..n]), ops[n]) ==> memory[n])
  }

  // How often a run calls realloc.
  function Reallocations<T>(s: State<T>, ops: seq<Op<T>>, oks: seq<bool>): nat
    requires |ops| == |oks|
  {
    if ops == [] then 0
    else
      var n := |ops| - 1;
      Reallocations(s, ops[..n], oks[..n]) + if Reallocates(Run(s, ops[..n], oks[..n]), ops[n]) then 1 else 0
  }

  /** Any run of operations refines the run on the map. */
  lemma {:induction false} RunRefinesMap<T>(s: State<T>, ops: seq<Op<T>>, oks: seq<bool>)
    requires |ops| == |oks|
    ensures View(Run(s, ops, oks).slots) == MapRun(View(s.slots), ops, oks)
  {
    if ops != [] {
      var n := |ops| - 1;
      RunRefinesMap(s, ops[..n], oks[..n]);
      StepRefinesMap(Run(s, ops[..n], oks[..n]), ops[n], oks[n]);
    }
  }

  lemma RunNext<T>(s: State<T>, ops: seq<Op<T>>, memory: seq<bool>, oks: seq<bool>, ok: bool)
    requires |oks| < |ops| == |memory|
    ensures var i := |oks|;
            && Run(s, ops[..i + 1], oks + [ok]) == Step(Run(s, ops[..i], oks), ops[i], ok)
            && Reallocations(s, ops[..i + 1], oks + [ok]) ==
                 Reallocations(s, ops[..i], oks) + (if Reallocates(Run(s, ops[..i], oks), ops[i]) then 1 else 0)
            && (Outcomes(s, ops[..i + 1], memory[..i + 1], oks + [ok]) <==>
                  Outcomes(s, ops[..i], memory[..i], oks) &&
                  ok == (Reallocates(Run(s, ops[..i], oks), ops[i]) ==> memory[i]))
  {
    var i := |oks|;
    assert ops[..i + 1][..i] == ops[..i] && (oks + [ok])[..i] == oks && memory[..i + 1][..i] == memory[..i];
  }

  // The most valid slots a table can have after a run, whatever fails.
  function MostSlots<T>(limit: nat, ops: seq<Op<T>>): nat {
    if ops == [] then limit
    else
      var n := |ops| - 1;
      var before := MostSlots(limit, ops[..n]);
      if ops[n].Destroy? then 0
      else if Target(before, ops[n]) < before then before
      else Target(before, ops[n]) + 1
  }

  predicate RunInRange<T>(limit: nat, ops: seq<Op<T>>) {
    forall i :: 0 <= i < |ops| ==> InRange(MostSlots(limit, ops[..i]), ops[i])
  }

  lemma {:induction false} AtMostSlots<T>(s: State<T>, ops: seq<Op<T>>, oks: seq<bool>)
    requires |ops| == |oks|
    ensures |Run(s, ops, oks).slots| <= MostSlots(|s.slots|, ops)
  {
    if ops != [] { AtMostSlots(s, ops[..|ops| - 1], oks[..|ops| - 1]); }
  }

  lemma StaysInRange<T>(s: State<T>, ops: seq<Op<T>>, oks: seq<bool>)
    requires |oks| < |ops| && RunInRange(|s.slots|, ops)
    ensures InRange(|Run(s, ops[..|oks|], oks).slots|, ops[|oks|])
  {
    AtMostSlots(s, ops[..|oks|], oks);
  }

  // k appends to an unused table that all succeed.
  lemma {:induction false} AppendsReallocate<T>(ops: seq<Op<T>>, oks: seq<bool>)
    requires |ops| == |oks| && forall i :: 0 <= i < |ops| ==> ops[i].Append? && oks[i]
    ensures var s := Run(State(0, []), ops, oks);
            |s.slots| == |ops| && s.size == (|ops| + 15) / 16 * 16 &&
            (forall i :: 0 <= i < |ops| ==> s.slots[i] == ops[i].ep) &&
            Reallocations(State(0, []), ops, oks) == (|ops| + 15) / 16
  {
    if ops != [] {
      AppendsReallocate(ops[..|ops| - 1], oks[..|ops| - 1]);
    }
  }

  lemma {:induction false} AppendsStayInRange<T>(ops: seq<Op<T>>)
    requires forall i :: 0 <= i < |ops| ==> ops[i].Append?
    ensures MostSlots(0, ops) == |ops|
  {
    if ops != [] { AppendsStayInRange(ops[..|ops| - 1]); }
  }

  // Memory for every sixteenth append.
  predicate AmpleForAppends(memory: seq<bool>) {
    forall i :: 0 <= i < |memory| && i % 16 == 0 ==> memory[i]
  }

  lemma AmpleFront(memory: seq<bool>)
    requires memory != []
    ensures var n := |memory| - 1;
            AmpleForAppends(memory) <==> AmpleForAppends(memory[..n]) && (n % 16 == 0 ==> memory[n])
  {
    var front := memory[..|memory| - 1];
    assert forall i :: 0 <= i < |front| ==> front[i] == memory[i];
  }

  lemma NextAppendReallocates<T>(ops: seq<Op<T>>, oks: seq<bool>, op: Op<T>)
    requires |ops| == |oks| && op.Append? && false !in oks && forall i :: 0 <= i < |ops| ==> ops[i].Append?
    ensures Reallocates(Run(State(0, []), ops, oks), op) <==> |ops| % 16 == 0
  {
    AppendsReallocate(ops, oks);
    FullAtSixteen(Run(State(0, []), ops, oks), op, |ops|);
  }

  lemma FullAtSixteen<T>(s: State<T>, op: Op<T>, n: nat)
    requires |s.slots| == n && s.size == (n + 15) / 16 * 16 && op.Append?
    ensures Reallocates(s, op) <==> n % 16 == 0
  {}

  /** Appends to an unused table all succeed exactly when there is memory for every sixteenth,
      from the first on. */
  lemma {:induction false} AppendsSucceedIff<T>(ops: seq<Op<T>>, memory: seq<bool>, oks: seq<bool>)
    requires |ops| == |memory| == |oks| && forall i :: 0 <= i < |ops| ==> ops[i].Append?
    requires Outcomes(State(0, []), ops, memory, oks)
    ensures false !in oks <==> AmpleForAppends(memory)
  {
    if ops != [] {
      var n := |ops| - 1;
      AppendsSucceedIff(ops[..n], memory[..n], oks[..n]);
      AmpleFront(memory);
      assert oks == oks[..n] + [oks[n]];
      if false !in oks[..n] { NextAppendReallocates(ops[..n], oks[..n], ops[n]); }
    }
  }

  /** k appends to a new table succeed exactly when there is memory for every sixteenth; then
      they call realloc exactly ceil(k / 16) times and leave exactly the entries appended. */
  method AppendAll<T>(es: seq<Option<T>>, memory: seq<bool>) returns (t: SaTable<T>, ok: bool, ghost calls: nat)
    requires |es| == |memory| <= INDEX_LIMIT
    ensures fresh(t) && t.Valid() && ok == AmpleForAppends(memory)
    ensures ok ==> calls == (|es| + 15) / 16 && t.stSize == (|es| + 15) / 16 * 16 && t.Slots() == es
  {
    t := new SaTable<T>();
    var ops := seq(|es|, i requires 0 <= i < |es| => Op<T>.Append(es[i]));
    forall i | 0 <= i < |ops| ensures MostSlots(0, ops[..i]) == i { AppendsStayInRange(ops[..i]); }
    var oks, n := t.PerformAll(ops, memory);
    ok, calls := false !in oks, n;
    AppendsSucceedIff(ops, memory, oks);
    if ok { AppendsReallocate(ops, oks); }
  }
}
