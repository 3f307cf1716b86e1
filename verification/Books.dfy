/** rport.c: who has claimed which remote ports, as an account on values. The account of every
    local port's table is worked out from the scanned list and the claims. */
module Books {
  import opened Wrappers
  import opened CText
  import opened SaTables
  import opened Rports
  import opened Ports

  // The slot contents that positions in the scanned list stand for.
  function Lift(objs: seq<PortInfo>, w: Option<nat>): Option<PortInfo> {
    if w.Some? && w.value < |objs| then Some(objs[w.value]) else None
  }

  function Recs(objs: seq<PortInfo>): (recs: seq<Rec>)
    ensures |recs| == |objs| && forall i :: 0 <= i < |objs| ==> recs[i] == objs[i].Record()
  {
    seq(|objs|, i requires 0 <= i < |objs| => objs[i].Record())
  }

  function RecordOf(r: Option<PortInfo>): Option<Rec> {
    if r.Some? then Some(r.value.Record()) else None
  }

  // ---- what a table filled with the expected ports answers ----

  function Objects(objs: seq<PortInfo>, d: seq<nat>): seq<PortInfo>
    requires forall n :: 0 <= n < |d| ==> d[n] < |objs|
  {
    seq(|d|, n requires 0 <= n < |d| => objs[d[n]])
  }

  predicate InBounds(objs: seq<PortInfo>, t: seq<Option<nat>>) {
    forall k :: 0 <= k < |t| && t[k].Some? ==> t[k].value < |objs|
  }

  lemma {:induction false} LiveLifted(objs: seq<PortInfo>, t: seq<Option<nat>>, slots: seq<Option<PortInfo>>)
    requires InBounds(objs, t) && |slots| == |t| && forall k :: 0 <= k < |t| ==> slots[k] == Lift(objs, t[k])
    ensures var d: seq<nat> := Live<nat>(t);
            (forall n :: 0 <= n < |d| ==> d[n] < |objs|) && Live(slots) == Objects(objs, d)
  {
    if t != [] {
      var n := |t| - 1;
      LiveLifted(objs, t[..n], slots[..n]);
    }
  }

  // The match callbacks of the searches: the entry itself when it matches.
  function Matcher(q: Query): PortInfo -> Option<PortInfo> {
    (p: PortInfo) => if Accepts(q, p.Record()) then Some(p) else None
  }

  lemma {:induction false} FirstAcceptedObject(objs: seq<PortInfo>, d: seq<nat>, q: Query)
    requires forall n :: 0 <= n < |d| ==> d[n] < |objs|
    ensures FirstOf(Objects(objs, d), Matcher(q)) == Lift(objs, FirstAccepted(Recs(objs), d, q))
  {
    if d != [] {
      FirstAcceptedObject(objs, d[1..], q);
      assert Objects(objs, d)[1..] == Objects(objs, d[1..]);
      assert Recs(objs)[d[0]] == objs[d[0]].Record();
    }
  }

  ghost predicate HoldsWinners(objs: seq<PortInfo>, dropped: set<nat>, key: Key, slots: seq<Option<PortInfo>>) {
    forall k: nat :: At(slots, k) == Lift(objs, Winner(Recs(objs), dropped, key, |objs|, k))
  }

  // Lookup, listing by number or search, as the query asks.
  function TableAnswer(slots: seq<Option<PortInfo>>, q: Query): Option<PortInfo> {
    match q
    case ByIndex(k) => At(slots, k)
    case ByNumber(n) => Nth(Live(slots), n)
    case _ => FirstMatch(slots, Matcher(q))
  }

  // The table lists the discovered ports in order.
  lemma WinnersListed(objs: seq<PortInfo>, dropped: set<nat>, key: Key, slots: seq<Option<PortInfo>>)
    requires HoldsWinners(objs, dropped, key, slots)
    ensures var d := Discovered(Recs(objs), dropped, key);
            (forall n :: 0 <= n < |d| ==> d[n] < |objs|) && Live(slots) == Objects(objs, d)
  {
    var recs := Recs(objs);
    var t := Table(recs, dropped, key);
    var lifted := seq(|t|, k requires 0 <= k < |t| => Lift(objs, t[k]));
    forall k | 0 <= k < |t| && t[k].Some? ensures t[k].value < |objs| {
      assert At(t, k) == Winner(recs, dropped, key, |recs|, k);
    }
    LiveLifted(objs, t, lifted);
    assert Live<nat>(t) == Discovered(recs, dropped, key);
    forall k: nat ensures At(slots, k) == At(lifted, k) {
      assert At(t, k) == Winner(recs, dropped, key, |recs|, k);
      assert At(slots, k) == Lift(objs, Winner(recs, dropped, key, |objs|, k));
    }
    LiveExtensional(slots, lifted);
  }

  /** Lookup, listing by number and search in such a table give the answers computed from the
      scanned list alone. */
  lemma WinnersAnswer(objs: seq<PortInfo>, dropped: set<nat>, key: Key, slots: seq<Option<PortInfo>>, q: Query)
    requires HoldsWinners(objs, dropped, key, slots)
    ensures Lift(objs, Answer(Recs(objs), dropped, key, q)) == TableAnswer(slots, q)
  {
    var recs := Recs(objs);
    var d := Discovered(recs, dropped, key);
    WinnersListed(objs, dropped, key, slots);
    match q
    case ByIndex(k) =>
      AnswerByIndex(recs, dropped, key, k);
      assert At(slots, k) == Lift(objs, Winner(recs, dropped, key, |objs|, k));
    case ByNumber(n) =>
    case _ =>
      SearchIsFirstLive(slots, Matcher(q));
      FirstAcceptedObject(objs, d, q);
  }

  // ---- the account ----

  // The local port that claims the remote ports of its key, and its adapter.
  datatype Claim = Claim(port: PortInfo, adapt: AdapterInfo)

  // A local port: its adapter and the slots of its table of remote ports.
  datatype Local = Local(adapt: AdapterInfo, slots: seq<Option<PortInfo>>)

  // The scanned remote ports, the adapters they point to, the claims, the positions whose
  // insert in a local table failed, and the local ports. While a call claims for a key, that
  // key is active and its claim has come to a position; all others are complete.
  datatype Account = Account(objs: seq<PortInfo>, adapts: seq<AdapterInfo?>, claimer: map<Key, Claim>,
                             active: Option<Key>, upto: nat, dropped: set<nat>, locals: map<PortInfo, Local>)
  {
    // How far along the scanned list the claim of a key has come.
    function Upto(key: Key): nat {
      if active == Some(key) then upto else |objs|
    }

    // Who has claimed the remote port at a position, if anybody has.
    function Claimant(i: nat): AdapterInfo?
      requires i < |objs|
    {
      var key := objs[i].PortKey();
      if key in claimer && i < Upto(key) then claimer[key].adapt else null
    }

    predicate Owns(p: PortInfo) {
      p.PortKey() in claimer && claimer[p.PortKey()].port == p
    }

    // How many remote ports were dropped.
    function Losses(): nat {
      |dropped|
    }

    // Another local port with the same host and channel came first.
    predicate Foreign(p: PortInfo) {
      p.PortKey() in claimer && claimer[p.PortKey()].port != p
    }

    // What slot k of a local port's table should hold: nothing, unless the port is the
    // claimer for its key; then the last remote port of that number among those claimed so
    // far.
    function Expected(p: PortInfo, k: nat): Option<PortInfo> {
      if Owns(p) then Lift(objs, Winner(Recs(objs), dropped, p.PortKey(), Upto(p.PortKey()), k)) else None
    }
  }

  const EMPTY := Account([], [], map[], None, 0, {}, map[])

  // Every scanned remote port has its own memory.
  ghost predicate ScanSound(b: Account) {
    && |b.adapts| == |b.objs|
    && (forall i, j :: 0 <= i < j < |b.objs| ==> b.objs[i] != b.objs[j])
    && (forall i :: 0 <= i < |b.objs| ==> b.objs[i].discIndex < INDEX_LIMIT)
  }

  // Each remote port points to the adapter of its claimer, and only claimed ones are dropped.
  ghost predicate ClaimsSound(b: Account) {
    && |b.adapts| == |b.objs|
    && (forall i :: 0 <= i < |b.objs| ==> b.adapts[i] == b.Claimant(i))
    && (b.objs == [] ==> b.claimer == map[])
    && (forall i :: i in b.dropped ==> i < |b.objs| && b.Claimant(i) != null)
    && (forall key :: key in b.claimer ==>
          var c := b.claimer[key];
          c.port.PortKey() == key && c.port in b.locals && b.locals[c.port].adapt == c.adapt)
    && (b.active.Some? ==> b.active.value in b.claimer && b.upto <= |b.objs|)
  }

  ghost predicate LocalSound(b: Account, p: PortInfo) {
    p in b.locals && p !in b.objs && forall k: nat :: At(b.locals[p].slots, k) == b.Expected(p, k)
  }

  /** The invariant that holds at every moment, also in the middle of a claim. */
  ghost predicate Sound(b: Account) {
    ScanSound(b) && ClaimsSound(b) && forall p :: p in b.locals ==> LocalSound(b, p)
  }

  // An account with its invariant.
  type Book = b: Account | Sound(b) witness EMPTY

  // ---- one step of the claiming loop ----

  // The next remote port of the claim of pp is at hand.
  predicate TakesNext(b: Account, pp: PortInfo) {
    b.Owns(pp) && pp in b.locals && b.active == Some(pp.PortKey()) &&
    b.upto < |b.objs| == |b.adapts| && b.objs[b.upto].PortKey() == pp.PortKey()
  }

  // The local tables when a remote port is entered in one of them.
  function Entered(locals: map<PortInfo, Local>, pp: PortInfo, rp: PortInfo): map<PortInfo, Local>
    requires pp in locals
  {
    var l := locals[pp];
    locals[pp := l.(slots := Put(l.slots, rp.discIndex, Some(rp)))]
  }

  // A remote port is claimed and entered in the table, or dropped.
  function Taken(b: Account, pp: PortInfo, ok: bool): Account
    requires TakesNext(b, pp)
  {
    b.(adapts := b.adapts[b.upto := b.claimer[pp.PortKey()].adapt], upto := b.upto + 1,
       dropped := if ok then b.dropped else b.dropped + {b.upto},
       locals := if ok then Entered(b.locals, pp, b.objs[b.upto]) else b.locals)
  }

  // A remote port of another key is passed over.
  function Passed(b: Account): Account {
    b.(upto := b.upto + 1)
  }

  lemma ExpectedAfterTake(b: Account, pp: PortInfo, ok: bool, k: nat)
    requires ClaimsSound(b) && TakesNext(b, pp)
    ensures Taken(b, pp, ok).Expected(pp, k) ==
              if ok && b.objs[b.upto].discIndex == k then Some(b.objs[b.upto]) else b.Expected(pp, k)
  {
    var key, u := pp.PortKey(), b.upto;
    assert b.Claimant(u) == null && u !in b.dropped;
    assert Recs(b.objs)[u] == b.objs[u].Record();
    WinnerAfterDrop(Recs(b.objs), b.dropped, key, u, k, u);
  }

  /** Taking the next remote port, or failing to insert it, leaves the claimer's table as
      expected... */
  lemma TableAfterTake(b: Book, pp: PortInfo, ok: bool)
    requires TakesNext(b, pp)
    ensures LocalSound(Taken(b, pp, ok), pp)
  {
    var t, u := Taken(b, pp, ok), b.upto;
    assert LocalSound(b, pp);
    forall k: nat ensures At(t.locals[pp].slots, k) == t.Expected(pp, k) {
      AtPut(b.locals[pp].slots, b.objs[u].discIndex, Some(b.objs[u]), k);
      ExpectedAfterTake(b, pp, ok, k);
    }
  }

  /** ...and every other table too. */
  lemma OthersAfterTake(b: Book, pp: PortInfo, ok: bool, p: PortInfo)
    requires TakesNext(b, pp) && p in b.locals && p != pp
    ensures LocalSound(Taken(b, pp, ok), p)
  {
    var t, u := Taken(b, pp, ok), b.upto;
    assert LocalSound(b, p);
    forall k: nat ensures t.Expected(p, k) == b.Expected(p, k) {
      if b.Owns(p) { WinnerAfterDrop(Recs(b.objs), b.dropped, p.PortKey(), b.Upto(p.PortKey()), k, u); }
    }
  }

  lemma ClaimsAfterTake(b: Account, pp: PortInfo, ok: bool)
    requires ScanSound(b) && ClaimsSound(b) && TakesNext(b, pp)
    ensures ScanSound(Taken(b, pp, ok)) && ClaimsSound(Taken(b, pp, ok))
  {}

  lemma SoundAfterTake(b: Book, pp: PortInfo, ok: bool)
    requires TakesNext(b, pp)
    ensures Sound(Taken(b, pp, ok))
  {
    ClaimsAfterTake(b, pp, ok);
    TableAfterTake(b, pp, ok);
    forall p | p in b.locals && p != pp ensures LocalSound(Taken(b, pp, ok), p) { OthersAfterTake(b, pp, ok, p); }
  }

  lemma SoundAfterPass(b: Book)
    requires b.active.Some? && b.upto < |b.objs| && b.objs[b.upto].PortKey() != b.active.value
    ensures Sound(Passed(b))
  {
    var t := Passed(b);
    forall p | p in b.locals ensures LocalSound(t, p) {
      assert LocalSound(b, p);
      forall k: nat ensures t.Expected(p, k) == b.Expected(p, k) {
        assert Recs(b.objs)[b.upto] == b.objs[b.upto].Record();
      }
    }
  }

  // The claim of pp has come to position ri, or everything of its key is claimed already.
  predicate Claiming(b: Account, pp: PortInfo, ri: nat) {
    pp.PortKey() in b.claimer &&
    (b.active == None || (b.active == Some(pp.PortKey()) && b.Owns(pp) && b.upto == ri))
  }

  /** The account later in the claiming loop, at position n; without an active claim nothing
      has changed. */
  ghost predicate Reaches(b: Account, t: Account, n: nat) {
    t.objs == b.objs &&
    if b.active == None then t == b
    else
      && t.claimer == b.claimer && t.active == b.active && t.upto == n
      && t.locals.Keys == b.locals.Keys && b.dropped <= t.dropped && b.Losses() <= t.Losses()
  }

  lemma TakenReaches(b: Account, pp: PortInfo, ok: bool)
    requires ClaimsSound(b) && TakesNext(b, pp)
    ensures Reaches(b, Taken(b, pp, ok), b.upto + 1)
    ensures Taken(b, pp, ok).Losses() == b.Losses() + if ok then 0 else 1
  {
    assert b.Claimant(b.upto) == null;
  }

  // One round of the loop: past the scanned list nothing happens.
  ghost predicate Round(b: Account, t: Account, ri: nat) {
    if ri < |b.objs| then Reaches(b, t, ri + 1) else t == b
  }

  function AtMost(n: nat, limit: nat): nat {
    if n < limit then n else limit
  }

  lemma NoRounds(b: Book, pp: PortInfo)
    requires b.objs != [] ==> Claiming(b, pp, 0)
    ensures Reaches(b, b, AtMost(0, |b.objs|))
  {}

  lemma LastRound(b: Account, t: Account, n: nat)
    requires Reaches(b, t, AtMost(n, |b.objs|)) && n >= |b.objs|
    ensures Reaches(b, t, |b.objs|)
  {}

  lemma NextRound(b: Account, t: Account, v: Account, ri: nat)
    requires Reaches(b, t, AtMost(ri, |b.objs|)) && Round(t, v, ri)
    ensures Reaches(b, v, AtMost(ri + 1, |b.objs|)) && b.Losses() <= t.Losses() <= v.Losses()
  {}

  lemma StillClaiming(b: Account, t: Account, pp: PortInfo, ri: nat)
    requires Reaches(b, t, AtMost(ri, |b.objs|)) && (b.objs != [] ==> Claiming(b, pp, 0)) && pp in b.locals
    ensures (ri < |t.objs| ==> Claiming(t, pp, ri)) && pp in t.locals && t.objs == b.objs
  {}

  // ---- the other steps ----

  // The claim of pp starts: it has reached nothing yet.
  function Started(b: Account, pp: PortInfo): Account
    requires pp in b.locals
  {
    b.(claimer := b.claimer[pp.PortKey() := Claim(pp, b.locals[pp].adapt)], active := Some(pp.PortKey()), upto := 0)
  }

  lemma SoundAfterStart(b: Book, pp: PortInfo)
    requires Complete(b) && pp in b.locals && b.objs != [] && pp.PortKey() !in b.claimer
    ensures Sound(Started(b, pp)) && Claiming(Started(b, pp), pp, 0)
  {
    var t := Started(b, pp);
    forall p | p in b.locals ensures LocalSound(t, p) {
      assert LocalSound(b, p);
      forall k: nat ensures t.Expected(p, k) == b.Expected(p, k) {}
    }
  }

  // The claim has come to the end of the scanned list.
  function Finished(b: Account): Account {
    b.(active := None, upto := 0)
  }

  lemma SoundAfterFinish(b: Book)
    requires (b.active.Some? ==> b.upto == |b.objs|)
    ensures Sound(Finished(b))
  {
    forall p | p in b.locals ensures LocalSound(Finished(b), p) { assert LocalSound(b, p); }
  }

  // One more remote port is scanned.
  function Scanned(b: Account, rp: PortInfo): Account {
    b.(objs := b.objs + [rp], adapts := b.adapts + [null])
  }

  lemma SoundAfterScan(b: Book, rp: PortInfo)
    requires b.claimer == map[] && rp !in b.objs && rp !in b.locals && rp.discIndex < INDEX_LIMIT
    ensures Sound(Scanned(b, rp))
  {
    forall p | p in b.locals ensures LocalSound(Scanned(b, rp), p) { assert LocalSound(b, p); }
  }

  // One more local port.
  function Joined(b: Account, p: PortInfo, adapt: AdapterInfo): Account {
    b.(locals := b.locals[p := Local(adapt, [])])
  }

  lemma SoundAfterJoin(b: Book, p: PortInfo, adapt: AdapterInfo)
    requires p !in b.locals && p !in b.objs
    ensures Sound(Joined(b, p, adapt))
  {
    var t := Joined(b, p, adapt);
    forall q | q in t.locals ensures LocalSound(t, q) {
      assert q != p ==> LocalSound(b, q);
      forall k: nat ensures t.Expected(q, k) == b.Expected(q, k) {}
    }
  }

  // ---- a whole call of get_rport_info ----

  // Every claim has come to the end of the scanned list, as it has between two calls.
  ghost predicate Complete(b: Account) {
    b.active == None && b.upto == 0
  }

  /** What the loop does for a local port: nothing, when there is nothing to claim or its key
      is claimed; otherwise everything of its key is claimed for it. */
  ghost predicate ClaimedAll(b: Account, t: Account, pp: PortInfo) {
    if b.objs == [] || pp.PortKey() in b.claimer then t == b
    else
      && t.objs == b.objs && t.locals.Keys == b.locals.Keys && b.dropped <= t.dropped && b.Losses() <= t.Losses()
      && pp in b.locals && t.claimer == b.claimer[pp.PortKey() := Claim(pp, b.locals[pp].adapt)]
  }

  lemma StartedReaches(b: Account, t: Account, pp: PortInfo)
    requires Complete(b) && pp in b.locals && b.objs != [] && pp.PortKey() !in b.claimer
    requires Reaches(Started(b, pp), t, |b.objs|)
    ensures ClaimedAll(b, Finished(t), pp) && Complete(Finished(t))
    ensures Finished(t).Losses() == t.Losses() && t.upto == |t.objs|
    ensures b.dropped == {} && t.Losses() == b.Losses() ==> t.dropped == {}
  {}

  // The account with a scanned list, which an earlier one is not replaced by.
  function Rescanned(b: Account, objs: seq<PortInfo>): Account {
    if b.objs != [] then b else b.(objs := objs, adapts := seq(|objs|, _ => null))
  }

  lemma UnclaimedAdapts(b: Book)
    requires b.claimer == map[]
    ensures b.adapts == seq(|b.objs|, _ => null)
  {}

  // There is nothing left to do for a local port.
  predicate Settled(b: Account, listing: seq<DirEntry>, pp: PortInfo) {
    pp.PortKey() in b.claimer || (b.objs == [] && Readable(listing) == [])
  }

  /** A settled port stays settled and a call for it changes nothing; it is settled after any
      call that finds something, or finds nothing with the whole directory read. */
  lemma SettledCall(b: Book, t: Account, listing: seq<DirEntry>, pp: PortInfo)
    requires ClaimedAll(Rescanned(b, t.objs), t, pp)
    requires b.objs == [] && Readable(listing) == [] ==> t.objs == []
    ensures Settled(b, listing, pp) ==> t == b
    ensures t.objs != [] || Recs(t.objs) == Readable(listing) ==> Settled(t, listing, pp)
  {
    if b.objs == [] && t.objs == [] { assert Rescanned(b, t.objs) == b; }
  }

  // ---- ownership ----

  /** A remote port in a local table stands at the slot of its rport number, belongs to the
      port's host and channel, and is claimed by the port's adapter; an unclaimed one is in
      no table. */
  lemma HeldIsClaimed(b: Book, p: PortInfo, k: nat, i: nat)
    requires p in b.locals && i < |b.objs| && At(b.locals[p].slots, k) == Some(b.objs[i])
    ensures k == b.objs[i].discIndex && p.PortKey() == b.objs[i].PortKey() && b.Owns(p)
    ensures b.adapts[i] == b.locals[p].adapt && i !in b.dropped
  {
    assert LocalSound(b, p);
    assert At(b.locals[p].slots, k) == b.Expected(p, k);
    var w := Winner(Recs(b.objs), b.dropped, p.PortKey(), b.Upto(p.PortKey()), k);
    assert b.objs[w.value] == b.objs[i] && Recs(b.objs)[i] == b.objs[i].Record();
    assert b.adapts[i] == b.Claimant(i);
  }

  /** No remote port is in the tables of two local ports, or at two slots. */
  lemma HeldByOne(b: Book, p: PortInfo, q: PortInfo, k: nat, m: nat, i: nat)
    requires p in b.locals && q in b.locals && i < |b.objs|
    requires At(b.locals[p].slots, k) == Some(b.objs[i]) == At(b.locals[q].slots, m)
    ensures p == q && k == m
  {
    HeldIsClaimed(b, p, k, i);
    HeldIsClaimed(b, q, m, i);
  }

  /** Conversely a claimed remote port points to the claimer's adapter, and stands in the
      claimer's table exactly unless its insert failed or a later one of the same name
      replaced it. */
  lemma ClaimedIsHeld(b: Book, p: PortInfo, i: nat)
    requires Complete(b) && b.Owns(p) && i < |b.objs| && b.objs[i].PortKey() == p.PortKey()
    ensures p in b.locals && b.adapts[i] == b.locals[p].adapt
    ensures At(b.locals[p].slots, b.objs[i].discIndex) == Some(b.objs[i]) <==> Wins(Recs(b.objs), b.dropped, p.PortKey(), i)
  {
    assert LocalSound(b, p) && b.adapts[i] == b.Claimant(i);
    var k := b.objs[i].discIndex;
    var w := Winner(Recs(b.objs), b.dropped, p.PortKey(), |b.objs|, k);
    assert Recs(b.objs)[i] == b.objs[i].Record();
    assert At(b.locals[p].slots, k) == b.Expected(p, k) == Lift(b.objs, w);
    WinsIffWinner(Recs(b.objs), b.dropped, p.PortKey(), i);
  }

  /** With distinct names and no failed insert, each remote port is unclaimed, pointing to no
      adapter and in no table, or in exactly one slot of exactly one table, that of the local
      port that claimed its key. */
  lemma ClaimedIffHeld(b: Book, i: nat)
    requires Complete(b) && i < |b.objs| && DistinctNames(Recs(b.objs)) && b.dropped == {}
    ensures b.adapts[i] != null <==>
              exists p :: p in b.locals && At(b.locals[p].slots, b.objs[i].discIndex) == Some(b.objs[i])
  {
    var key := b.objs[i].PortKey();
    if b.adapts[i] != null {
      var p := b.claimer[key].port;
      ClaimedIsHeld(b, p, i);
      DistinctWins(Recs(b.objs), key, i);
    }
    forall p | p in b.locals && At(b.locals[p].slots, b.objs[i].discIndex) == Some(b.objs[i])
      ensures b.adapts[i] != null
    {
      HeldIsClaimed(b, p, b.objs[i].discIndex, i);
    }
  }

  // ---- the answers ----

  /** The answer computed from the scanned list, unless another local port with the same host
      and channel has claimed its remote ports. */
  ghost predicate IsAnswer(b: Account, pp: PortInfo, q: Query, r: Option<PortInfo>) {
    && (!b.Foreign(pp) ==> r == Lift(b.objs, Answer(Recs(b.objs), b.dropped, pp.PortKey(), q)))
    && (b.Foreign(pp) ==> r == None)
  }

  /** After a claim, the three ways to read a local table give that answer. */
  lemma AnswerFromTable(b: Book, pp: PortInfo, q: Query, r: Option<PortInfo>)
    requires Complete(b) && pp in b.locals && (b.objs != [] ==> pp.PortKey() in b.claimer)
    requires r == TableAnswer(b.locals[pp].slots, q)
    ensures IsAnswer(b, pp, q, r)
  {
    assert LocalSound(b, pp);
    var slots := b.locals[pp].slots;
    if b.Foreign(pp) {
      assert forall k: nat :: At(slots, k) == b.Expected(pp, k) == None;
      LiveExtensional(slots, []);
      SearchIsFirstLive(slots, Matcher(q));
    } else {
      forall k: nat ensures At(slots, k) == Lift(b.objs, Winner(Recs(b.objs), b.dropped, pp.PortKey(), |b.objs|, k)) {
        assert At(slots, k) == b.Expected(pp, k);
      }
      WinnersAnswer(b.objs, b.dropped, pp.PortKey(), slots, q);
    }
  }

  /** A remote port that is answered has the host and channel of the local port and what was
      asked for. */
  lemma AnswerHas(b: Account, pp: PortInfo, q: Query, r: Option<PortInfo>)
    requires IsAnswer(b, pp, q, r) && r.Some?
    ensures r.value in b.objs && r.value.kernHba == pp.kernHba && r.value.index == pp.index
    ensures q.ByWwn? ==> r.value.attr.portWwn == q.wwn
    ensures q.ByTarget? ==> r.value.scsiTarget == q.target
    ensures q.ByFcId? ==> r.value.attr.fcId == q.fcId
    ensures q.ByIndex? ==> r.value.discIndex == q.rport
  {
    var recs := Recs(b.objs);
    DiscoveredIsSortedFilter(recs, b.dropped, pp.PortKey());
    if !q.ByNumber? { AnswerIsLeast(recs, b.dropped, pp.PortKey(), q); }
  }

  lemma AnswerIsFromScratch(b: Account, listing: seq<DirEntry>, p: PortInfo, q: Query, r: Option<PortInfo>)
    requires !b.Foreign(p) && IsAnswer(b, p, q, r) && Recs(b.objs) == Readable(listing) && b.dropped == {}
    ensures RecordOf(r) == FromScratch(listing, p.PortKey(), q)
  {}

  /** Exactly when the answer is the one from scratch: always, unless another local port with
      the same host and channel came first and there is something to be found. */
  lemma AnswerIsFromScratchIff(b: Account, listing: seq<DirEntry>, p: PortInfo, q: Query, r: Option<PortInfo>)
    requires IsAnswer(b, p, q, r) && Recs(b.objs) == Readable(listing) && b.dropped == {}
    ensures RecordOf(r) == FromScratch(listing, p.PortKey(), q) <==>
              !b.Foreign(p) || FromScratch(listing, p.PortKey(), q) == None
  {
    if !b.Foreign(p) { AnswerIsFromScratch(b, listing, p, q, r); }
  }

  ghost predicate DistinctKeys(locals: set<PortInfo>) {
    forall p, q :: p in locals && q in locals && p != q ==> p.PortKey() != q.PortKey()
  }

  // With distinct local ports nobody comes second.
  lemma NobodyIsForeign(b: Book, p: PortInfo)
    requires DistinctKeys(b.locals.Keys) && p in b.locals
    ensures !b.Foreign(p)
  {}
}
