/** rport.c, adapt.c: the table of remote ports that are scanned once and then claimed by
    local ports on demand, and the queries on local ports. */
module Registry {
  import opened Wrappers
  import opened CText
  import opened SaTables
  import opened Rports
  import opened Ports
  import opened Books
  import ClassList

  method AskTable(table: SaTable<PortInfo>, q: Query) returns (r: Option<PortInfo>)
    requires table.Valid()
    ensures r == TableAnswer(table.Slots(), q)
  {
    match q
    case ByIndex(k) => r := table.Lookup(k);
    case ByNumber(n) => r := table.LookupN(n);
    case _ => r := table.Search(Matcher(q));
  }

  // The reads of one entry's files: 0 when all of them succeed.
  method ReadFiles(f: Files) returns (rc: int)
    ensures rc == 0 <==> f.nodeName.Some? && f.portName.Some? && f.portId.Some? && f.scsiTarget.Some? &&
                         f.portState.Some? && ClassesOk(f.classes)
  {
    rc := 0;
    if f.nodeName.None? || f.portName.None? || f.portId.None? || f.scsiTarget.None? || f.portState.None? {
      rc := -1;
    }
    var crc, mask := ClassList.ReadClasses(f.classes);
    if crc != 0 {
      rc := crc;
    }
  }

  // Mentioned where the invariant of the registry is needed in full.
  predicate SteadyInFull(n: int) { true }

  class Registry {
    const rportsTable: SaTable<PortInfo>
    const listing: seq<DirEntry>  // the sysfs directory, fixed for the session
    const ample: bool             // memory never runs out

    ghost var locals: set<PortInfo>     // the local ports of the adapters
    ghost var owner: map<SaTable<PortInfo>, PortInfo>   // whose table it is
    ghost var book: Book                // the account of the claims
    ghost var clean: bool               // no allocation has failed so far

    // The global table and the pointers of the remote ports are as in the account.
    ghost predicate ScanShows(objs: seq<PortInfo>, adapts: seq<AdapterInfo?>)
      reads rportsTable, objs
    {
      && rportsTable.Valid()
      && |rportsTable.Slots()| == |objs| == |adapts|
      && (forall i :: 0 <= i < |objs| ==> rportsTable.Slots()[i] == Some(objs[i]))
      && (forall i :: 0 <= i < |objs| ==> objs[i].adapt == adapts[i])
    }

    // A local port's table and adapter are as in the account, and the table is its own.
    ghost predicate LocalShows(l: Local, p: PortInfo)
      reads `owner, p, p.rports
    {
      && p.rports in owner && owner[p.rports] == p && p.rports != rportsTable
      && p.rports.Valid() && p.rports.Slots() == l.slots && p.adapt == l.adapt
    }

    ghost predicate LocalsShow(locals: map<PortInfo, Local>)
      reads `owner, locals.Keys, owner.Keys
    {
      forall p :: p in locals ==> p.rports in owner && LocalShows(locals[p], p)
    }

    // The invariant that holds at every moment, also in the middle of a claim.
    ghost predicate Core()
      reads this, rportsTable, book.objs, book.locals.Keys, owner.Keys
    {
      ScanShows(book.objs, book.adapts) && LocalsShow(book.locals)
    }

    // Between two calls every claim is complete, and with no failed allocation nothing was
    // dropped and the scanned list, if there is one, is that of the directory.
    ghost predicate Inv()
      reads this, rportsTable, book.objs, book.locals.Keys, owner.Keys
    {
      && Core() && Complete(book) && SmallListing(listing)
      && (clean ==> book.dropped == {} && (book.objs == [] || IsScanned()))
    }

    // The same as one fact: a proof spells it out by mentioning SteadyInFull, and the proofs
    // that only pass it on do without the details.
    ghost predicate Steady()
      reads this, rportsTable, book.objs, book.locals.Keys, owner.Keys
    {
      forall n: int {:trigger SteadyInFull(n)} :: SteadyInFull(n) ==> Inv()
    }

    /** The invariant between two calls. */
    ghost predicate Valid()
      reads this, rportsTable, book.objs, book.locals.Keys, owner.Keys
    {
      Steady() && book.locals.Keys == locals
    }

    // The scanned list is the readable part of the directory.
    ghost predicate IsScanned()
      reads this
    {
      Recs(book.objs) == Readable(listing)
    }

    constructor (listing: Listing, ample: bool)
      ensures this.listing == listing && this.ample == ample && Valid() && clean
      ensures locals == {} && owner == map[] && book == EMPTY && fresh(rportsTable)
    {
      this.listing, this.ample := listing, ample;
      rportsTable := new SaTable<PortInfo>();
      locals, owner, book, clean := {}, map[], EMPTY, true;
    }

    // The account is brought up to date with what the tables show.
    ghost method Record(b: Book, granted: bool)
      requires ScanShows(b.objs, b.adapts) && LocalsShow(b.locals)
      modifies `book, `clean
      ensures Core() && book == b && clean == (old(clean) && granted)
    {
      book, clean := b, clean && granted;
    }

    // ---- the local ports of a new adapter ----

    // A port just made: its table is empty and its own.
    ghost predicate NewLocal(p: PortInfo)
      reads this, p, p.rports
    {
      && p !in book.locals && p !in book.objs && p.adapt != null
      && p.rports != rportsTable && p.rports.Valid() && p.rports.Slots() == [] && p.rports !in owner
    }

    ghost method AddLocal(p: PortInfo)
      requires Valid() && NewLocal(p)
      modifies `locals, `owner, `book, `clean
      ensures Valid() && locals == old(locals) + {p} && owner == old(owner)[p.rports := p] && clean == old(clean)
      ensures book == Joined(old(book), p, p.adapt)
    {
      assert SteadyInFull(0);
      var after := Joined(book, p, p.adapt).locals;
      locals, owner := locals + {p}, owner[p.rports := p];
      forall q | q in after ensures q.rports in owner && LocalShows(after[q], q) {
        if q != p { assert old(LocalShows(book.locals[q], q)); }
      }
      SoundAfterJoin(book, p, p.adapt);
      Record(Joined(book, p, p.adapt), true);
    }

    // ---- claiming ----

    // The remote port points to the adapter...
    method PointTo(pp: PortInfo, rp: PortInfo, ghost ri: nat)
      requires Core() && pp in book.locals && ri < |book.objs| && rp == book.objs[ri]
      modifies rp`adapt
      ensures LocalsShow(book.locals) && ScanShows(book.objs, book.adapts[ri := book.locals[pp].adapt])
    {
      assert LocalShows(book.locals[pp], pp);
      assert forall p :: p in book.locals ==> LocalSound(book, p);
      rp.adapt := pp.adapt;
    }

    // ...and is entered in the table, unless memory runs out.
    method Enter(pp: PortInfo, rp: PortInfo, ghost adapts: seq<AdapterInfo?>) returns (ghost ok: bool)
      requires ScanShows(book.objs, adapts) && LocalsShow(book.locals) && pp in book.locals && rp.discIndex < INDEX_LIMIT
      modifies pp.rports
      ensures ScanShows(book.objs, adapts) && LocalsShow(if ok then Entered(book.locals, pp, rp) else book.locals)
      ensures !ok ==> !ample && rp.discIndex >= old(pp.rports.stSize)
    {
      assert LocalShows(book.locals[pp], pp);
      var memory: bool :| ample ==> memory;
      var r, _ := pp.rports.Insert(rp.discIndex, Some(rp), memory);
      ok := r >= 0;
      ghost var after := if ok then Entered(book.locals, pp, rp) else book.locals;
      forall p | p in after ensures p.rports in owner && LocalShows(after[p], p) {
        assert old(LocalShows(book.locals[p], p));
      }
    }

    // Both together, as far as the tables are concerned.
    method PutIn(pp: PortInfo, rp: PortInfo) returns (ghost ok: bool)
      requires Core() && TakesNext(book, pp) && rp == book.objs[book.upto]
      modifies rp`adapt, pp.rports
      ensures ScanShows(book.objs, Taken(book, pp, ok).adapts) && LocalsShow(Taken(book, pp, ok).locals)
      ensures ample ==> ok
    {
      assert LocalShows(book.locals[pp], pp);
      PointTo(pp, rp, book.upto);
      ok := Enter(pp, rp, Taken(book, pp, true).adapts);
    }

    // A remote port that is claimed in this step.
    method Take(pp: PortInfo, rp: PortInfo)
      requires Core() && TakesNext(book, pp) && rp == book.objs[book.upto]
      modifies `book, `clean, rp`adapt, pp.rports
      ensures Core() && Reaches(old(book), book, old(book).upto + 1)
      ensures clean == (old(clean) && book.Losses() == old(book.Losses()))
      ensures ample ==> clean == old(clean)
    {
      ghost var ok := PutIn(pp, rp);
      SoundAfterTake(book, pp, ok);
      TakenReaches(book, pp, ok);
      Record(Taken(book, pp, ok), ok);
    }

    // One round of the claiming loop, for a remote port in the table.
    method ClaimOne(pp: PortInfo, ghost ri: nat, rp: PortInfo)
      requires Core() && pp in book.locals && ri < |book.objs| && rp == book.objs[ri] && Claiming(book, pp, ri)
      modifies `book, `clean, rp`adapt, pp.rports
      ensures Core() && Reaches(old(book), book, ri + 1)
      ensures clean == (old(clean) && book.Losses() == old(book.Losses()))
      ensures ample ==> clean == old(clean)
    {
      assert rp.adapt == book.Claimant(ri);
      if rp.kernHba == pp.kernHba && rp.index == pp.index && rp.adapt == null {
        Take(pp, rp);
      } else if book.active != None {
        SoundAfterPass(book);
        Record(Passed(book), true);
      }
    }

    // How far the loop for a local port has come since it started.
    ghost predicate Rounds(start: Book, was: bool, pp: PortInfo, ri: nat)
      reads this
    {
      && pp in start.locals && (start.objs != [] ==> Claiming(start, pp, 0))
      && Reaches(start, book, AtMost(ri, |start.objs|)) && clean == (was && book.Losses() == start.Losses())
      && (ample ==> clean == was)
    }

    // One round, for any slot of the table.
    method ClaimAt(pp: PortInfo, ri: nat, ghost start: Book, ghost was: bool)
      requires Core() && Rounds(start, was, pp, ri)
      modifies `book, `clean, pp.rports, start.objs`adapt
      ensures Core() && Rounds(start, was, pp, ri + 1)
    {
      StillClaiming(start, book, pp, ri);
      ghost var before := book;
      var e := rportsTable.Lookup(ri);
      if e.Some? {
        assert e.value == book.objs[ri];
        ClaimOne(pp, ri, e.value);
      }
      NextRound(start, before, book, ri);
    }

    // The loop over the whole table of remote ports, which has as many slots or more.
    method ClaimAll(pp: PortInfo, ghost start: Book, ghost was: bool) returns (ghost n: nat)
      requires Core() && Rounds(start, was, pp, 0) && start.objs == book.objs
      modifies `book, `clean, pp.rports, start.objs`adapt
      ensures Core() && Rounds(start, was, pp, n) && n >= |start.objs|
    {
      n := rportsTable.stSize;
      for ri := 0 to rportsTable.stSize
        invariant Core() && Rounds(start, was, pp, ri)
      {
        ClaimAt(pp, ri, start, was);
      }
    }

    // The claiming half of the call, once the table is there.
    method ClaimFor(pp: PortInfo)
      requires Steady() && pp in book.locals
      modifies `book, `clean, pp.rports, book.objs`adapt
      ensures Steady() && ClaimedAll(old(book), book, pp)
      ensures clean == (old(clean) && book.Losses() == old(book.Losses()))
      ensures ample ==> clean == old(clean)
    {
      assert SteadyInFull(0);
      if book.objs != [] && pp.PortKey() !in book.claimer {
        SoundAfterStart(book, pp);
        Record(Started(book, pp), true);
      }
      NoRounds(book, pp);
      ghost var start := book;
      ghost var n := ClaimAll(pp, book, clean);
      LastRound(start, book, n);
      if book.active != None {
        StartedReaches(old(book), book, pp);
        SoundAfterFinish(book);
        Record(Finished(book), true);
      }
    }

    // ---- the scan ----

    /** One directory entry: skipped when its name or its files do not read; otherwise a new
        remote port at the end of the table, unless memory runs out. The ghost result is what
        the allocations made for it gave. */
    method GetRport(e: DirEntry) returns (stop: bool, ghost g: Grant)
      requires Core() && book.claimer == map[] && |book.objs| < INDEX_LIMIT
      requires ReadEntry(e).Some? ==> ReadEntry(e).value.rport < INDEX_LIMIT
      modifies `book, `clean, rportsTable
      ensures Core() && stop == Stops(e, g) && clean == (old(clean) && !Refused(e, g))
      ensures Recs(book.objs) == Recs(old(book.objs)) + Added(e, g)
      ensures forall o :: o in book.objs ==> o in old(book.objs) || fresh(o)
      ensures !g.slot ==> old(rportsTable.stLimit == rportsTable.stSize)
      ensures book == old(book).(objs := book.objs, adapts := book.adapts)
      ensures ample ==> g.entry && g.slot
    {
      g, stop := Grant(true, true), false;
      var v := Sscanf(RPORT_FORMAT, e.name);
      if |v| == 3 {
        var ok: bool :| ample ==> ok;   // malloc
        if !ok {
          Record(book, false);
          return true, Grant(false, true);
        }
        var rc := ReadFiles(e.files);
        if rc == 0 {
          var f := e.files;
          var rec := Rec(Key(v[0], v[1]), v[2], f.scsiTarget.value,
                         Attr(f.nodeName.value, f.portName.value, f.portId.value));
          ghost var slot := AddRport(rec);
          g := Grant(true, slot);
        }
      }
    }

    // A new remote port goes to the end of the table, or is lost for lack of memory.
    method AddRport(rec: Rec) returns (ghost ok: bool)
      requires Core() && book.claimer == map[] && |book.objs| < INDEX_LIMIT && rec.rport < INDEX_LIMIT
      modifies `book, `clean, rportsTable
      ensures Core() && clean == (old(clean) && ok)
      ensures Recs(book.objs) == Recs(old(book.objs)) + if ok then [rec] else []
      ensures forall o :: o in book.objs ==> o in old(book.objs) || fresh(o)
      ensures !ok ==> !ample && old(rportsTable.stLimit == rportsTable.stSize)
      ensures book == old(book).(objs := book.objs, adapts := book.adapts)
    {
      var rp := new PortInfo(rec.key, rec.rport, rec.target, rec.attr, null);
      ok := Enlist(rp);
      assert rp.Record() == rec;
    }

    method Enlist(rp: PortInfo) returns (ghost ok: bool)
      requires Core() && book.claimer == map[] && |book.objs| < INDEX_LIMIT
      requires rp !in book.objs && rp !in book.locals && rp.discIndex < INDEX_LIMIT && rp.adapt == null
      modifies `book, `clean, rportsTable
      ensures Core() && clean == (old(clean) && ok)
      ensures book == if ok then Scanned(old(book), rp) else old(book)
      ensures !ok ==> !ample && old(rportsTable.stLimit == rportsTable.stSize)
    {
      var memory: bool :| ample ==> memory;
      var r, _ := rportsTable.Append(Some(rp), memory);
      ok := r >= 0;
      forall p | p in book.locals ensures p.rports in owner && LocalShows(book.locals[p], p) {
        assert old(LocalShows(book.locals[p], p));
      }
      if ok { SoundAfterScan(book, rp); }
      Record(if ok then Scanned(book, rp) else book, ok);
    }

    /** The scan of the directory, for the outcomes of its allocations. */
    method FindRports() returns (ghost gs: seq<Grant>, ghost ok: bool)
      requires Core() && book.objs == [] && SmallListing(listing)
      modifies `book, `clean, rportsTable
      ensures Core() && book == Rescanned(old(book), book.objs) && forall o :: o in book.objs ==> fresh(o)
      ensures Scans(listing, gs, Recs(book.objs), ok) && clean == (old(clean) && ok)
      ensures ample ==> ok
    {
      var i, stop := 0, false;
      gs, ok := [], true;
      while i < |listing| && !stop
        invariant |gs| == i <= |listing| && |book.objs| <= i
        invariant Core() && book == old(book).(objs := book.objs, adapts := book.adapts)
        invariant (ample ==> ok) && forall o :: o in book.objs ==> fresh(o)
        invariant Scanning(listing, gs, Recs(book.objs), stop, ok) && clean == (old(clean) && ok)
      {
        ghost var g;
        ScansOn(listing, gs, Recs(book.objs), ok);
        stop, g := GetRport(listing[i]);
        gs, i, ok := gs + [g], i + 1, ok && !Refused(listing[i], g);
      }
      UnclaimedAdapts(book);
    }

    // The table is filled once; an empty one is filled again.
    method ScanOnce() returns (ghost gs: seq<Grant>, ghost ok: bool)
      requires Steady()
      modifies `book, `clean, rportsTable
      ensures Steady() && book == Rescanned(old(book), book.objs) && clean == (old(clean) && ok)
      ensures clean ==> IsScanned()
      ensures if old(book.objs) != [] then ok else Scans(listing, gs, Recs(book.objs), ok)
      ensures forall o :: o in book.objs ==> o in old(book.objs) || fresh(o)
      ensures ample ==> ok
    {
      assert SteadyInFull(0);
      gs, ok := [], true;
      if rportsTable.stSize == 0 {
        gs, ok := FindRports();
        ScansReadable(listing, gs, Recs(book.objs), ok);
      }
    }

    // ---- get_rport_info ----

    /** Scans if nothing was scanned yet, then lets a local port claim every remote port of its
        host and channel that nobody has claimed. The account is clean exactly when every
        allocation was granted: those of the scan and those of the local table. Repeating the
        call changes nothing, once anything was scanned or with no failed allocation. */
    method GetRportInfo(pp: PortInfo) returns (ghost gs: seq<Grant>, ghost ok: bool)
      requires Steady() && pp in book.locals
      modifies `book, `clean, rportsTable, pp.rports, book.objs`adapt
      ensures Steady() && ClaimedAll(Rescanned(old(book), book.objs), book, pp)
      ensures if old(book.objs) != [] then ok else Scans(listing, gs, Recs(book.objs), ok)
      ensures clean ==> IsScanned()
      ensures clean == (old(clean) && ok && book.Losses() == old(book.Losses()))
      ensures forall o :: o in book.objs ==> o in old(book.objs) || fresh(o)
      ensures Settled(old(book), listing, pp) ==> book == old(book)
      ensures book.objs != [] || clean ==> Settled(book, listing, pp)
      ensures ample ==> ok && clean == old(clean)
    {
      gs, ok := ScanOnce();
      assert forall i :: 0 <= i < |book.objs| ==> book.objs[i] in old(book.objs) || fresh(book.objs[i]);
      if old(book.objs) == [] { ScansReadable(listing, gs, Recs(book.objs), ok); }
      ClaimFor(pp);
      SettledCall(old(book), book, listing, pp);
    }

    // ---- the queries ----

    // The three ways to read a local port's table.
    method ReadTable(pp: PortInfo, q: Query) returns (r: Option<PortInfo>)
      requires Steady() && pp in book.locals
      ensures Steady() && r == TableAnswer(book.locals[pp].slots, q)
    {
      assert SteadyInFull(0);
      assert LocalShows(book.locals[pp], pp);
      r := AskTable(pp.rports, q);
    }

    /** Any of the five queries on a local port: claim, then look up, list or search. */
    method FindRport(pp: PortInfo, q: Query) returns (r: Option<PortInfo>, ghost gs: seq<Grant>, ghost ok: bool)
      requires Valid() && pp in locals
      modifies `book, `clean, rportsTable, pp.rports, book.objs`adapt
      ensures Valid() && Served(pp, q, r) && (clean ==> old(clean) && IsScanned())
      ensures forall o :: o in book.objs ==> o in old(book.objs) || fresh(o)
      ensures pp.PortKey() in old(book).claimer ==> book == old(book) && clean == old(clean)
      ensures ample ==> clean == old(clean)
      ensures if old(book.objs) != [] then ok else Scans(listing, gs, Recs(book.objs), ok)
      ensures clean == (old(clean) && ok && book.Losses() == old(book.Losses()))
    {
      r, gs, ok := Serve(pp, q);
    }

    method Serve(pp: PortInfo, q: Query) returns (r: Option<PortInfo>, ghost gs: seq<Grant>, ghost ok: bool)
      requires Steady() && pp in book.locals
      modifies `book, `clean, rportsTable, pp.rports, book.objs`adapt
      ensures Steady() && Served(pp, q, r) && (clean ==> old(clean) && IsScanned())
      ensures book.locals.Keys == old(book.locals.Keys) && locals == old(locals)
      ensures forall o :: o in book.objs ==> o in old(book.objs) || fresh(o)
      ensures pp.PortKey() in old(book).claimer ==> book == old(book) && clean == old(clean)
      ensures ample ==> clean == old(clean)
      ensures if old(book.objs) != [] then ok else Scans(listing, gs, Recs(book.objs), ok)
      ensures clean == (old(clean) && ok && book.Losses() == old(book.Losses()))
    {
      gs, ok := GetRportInfo(pp);
      r := ReadTable(pp, q);
    }

    // The port's key is claimed, and r was read from its table.
    ghost predicate Served(pp: PortInfo, q: Query, r: Option<PortInfo>)
      reads `book
    {
      && pp in book.locals && (book.objs != [] ==> pp.PortKey() in book.claimer)
      && r == TableAnswer(book.locals[pp].slots, q)
    }

    /** What a query answers: always the answer from the scanned list, and with distinct local
        ports and no failed allocation the one computed from the sysfs directory alone. */
    lemma ServedIsAnswer(pp: PortInfo, q: Query, r: Option<PortInfo>)
      requires Valid() && Served(pp, q, r)
      ensures IsAnswer(book, pp, q, r)
      ensures clean && IsScanned() && DistinctKeys(locals) ==> RecordOf(r) == FromScratch(listing, pp.PortKey(), q)
    {
      assert SteadyInFull(0);
      AnswerFromTable(book, pp, q, r);
      if clean && IsScanned() && DistinctKeys(locals) {
        NobodyIsForeign(book, pp);
        AnswerIsFromScratch(book, listing, pp, q, r);
      }
    }

    lemma TableOfLocal(p: PortInfo)
      requires Valid() && p in locals
      ensures p in book.locals && p.rports in owner && p.rports != rportsTable
      ensures p !in book.objs && p.adapt == book.locals[p].adapt
    {
      assert SteadyInFull(0);
      assert LocalShows(book.locals[p], p) && LocalSound(book, p);
    }
  }
}
