/** Whole sessions: the hosts are loaded, and then remote ports are asked for in any order. */
module Sessions {
  import opened Wrappers
  import opened CText
  import opened SaTables
  import opened Rports
  import opened Ports
  import opened Books
  import opened Registry
  import opened AdapterNames
  import opened Adapters

  // What the scan of one host finds.
  datatype Host = Host(kern: u32, ifname: IfName, attr: Attr)

  // One query: a handle and a port number, and what to look for.
  datatype Request = Request(handle: u32, port: u32, q: Query)

  // The kernel gives every host a number of its own.
  predicate DistinctHosts(hosts: seq<Host>) {
    forall i, j :: 0 <= i < j < |hosts| ==> hosts[i].kern != hosts[j].kern
  }

  // The hosts whose loading succeeded.
  function Kept(hosts: seq<Host>, oks: seq<bool>): (kept: seq<Host>)
    requires |hosts| == |oks|
    ensures |kept| <= |hosts| && (false !in oks ==> kept == hosts)
  {
    if hosts == [] then []
    else
      var n := |hosts| - 1;
      Kept(hosts[..n], oks[..n]) + if oks[n] then [hosts[n]] else []
  }

  lemma {:induction false} KeptAreHosts(hosts: seq<Host>, oks: seq<bool>, h: Host)
    requires |hosts| == |oks| && h in Kept(hosts, oks)
    ensures h in hosts
  {
    var n := |hosts| - 1;
    if h in Kept(hosts[..n], oks[..n]) { KeptAreHosts(hosts[..n], oks[..n], h); }
  }

  /** The answer to a request, from the directory and the loaded hosts alone: the handle names
      the host, whose one port is number 0. */
  function SessionAnswer(listing: seq<DirEntry>, hosts: seq<Host>, r: Request): Option<Rec> {
    if 0x100 <= r.handle < 0x100 + |hosts| && r.port == 0
    then FromScratch(listing, Key(hosts[r.handle - 0x100].kern, 0), r.q)
    else None
  }

  // ---- loading ----

  function KeyOf(h: Host): Key {
    Key(h.kern, 0)
  }

  // The ports of the library are those of these hosts.
  predicate PortsOf(ports: seq<seq<Option<PortInfo>>>, hosts: seq<Host>) {
    && |ports| == |hosts|
    && forall i :: 0 <= i < |ports| ==>
         |ports[i]| == 1 && ports[i][0].Some? && ports[i][0].value.PortKey() == KeyOf(hosts[i])
  }

  // The local ports of the registry are of these hosts, and no two of the same.
  ghost predicate LocalsOf(locals: set<PortInfo>, hosts: seq<Host>) {
    DistinctKeys(locals) && forall p :: p in locals ==> exists i :: 0 <= i < |hosts| && p.PortKey() == KeyOf(hosts[i])
  }

  lemma OneMoreLocal(locals: set<PortInfo>, hosts: seq<Host>, p: PortInfo, h: Host)
    requires LocalsOf(locals, hosts) && p.PortKey() == KeyOf(h) && forall i :: 0 <= i < |hosts| ==> hosts[i].kern != h.kern
    ensures LocalsOf(locals + {p}, hosts + [h])
  {
    var hs := hosts + [h];
    forall q | q in locals + {p} ensures exists i :: 0 <= i < |hs| && q.PortKey() == KeyOf(hs[i]) {
      if q in locals {
        var i :| 0 <= i < |hosts| && q.PortKey() == KeyOf(hosts[i]);
        assert hs[i] == hosts[i];
      } else {
        assert hs[|hosts|] == h;
      }
    }
  }

  lemma KeptNext(hosts: seq<Host>, oks: seq<bool>, ok: bool)
    requires |oks| < |hosts|
    ensures var i := |oks|;
            Kept(hosts[..i + 1], oks + [ok]) == Kept(hosts[..i], oks) + (if ok then [hosts[i]] else [])
  {
    var i := |oks|;
    assert hosts[..i + 1][..i] == hosts[..i] && (oks + [ok])[..i] == oks;
  }

  lemma NotYetLoaded(hosts: seq<Host>, oks: seq<bool>, h: Host)
    requires |oks| < |hosts| && DistinctHosts(hosts) && h in Kept(hosts[..|oks|], oks)
    ensures h.kern != hosts[|oks|].kern
  {
    var front := hosts[..|oks|];
    KeptAreHosts(front, oks, h);
    var j :| 0 <= j < |front| && front[j] == h;
    assert hosts[j] == h;
  }

  // What a library holds when these hosts are loaded.
  ghost predicate Loaded(lib: AdapterLib, hosts: seq<Host>)
    reads lib`adapters, lib`ports, lib.reg`locals
  {
    |lib.adapters| == |lib.ports| && PortsOf(lib.ports, hosts) && LocalsOf(lib.reg.locals, hosts)
  }

  // One host, of a number that is not loaded yet.
  method LoadHost(lib: AdapterLib, h: Host, ghost hosts: seq<Host>) returns (ok: bool)
    requires lib.Ready() && Loaded(lib, hosts) && |hosts| < INDEX_LIMIT
    requires forall g :: g in hosts ==> g.kern != h.kern
    modifies lib`adapters, lib`tables, lib`ports, lib.adapterTable, lib.reg`locals, lib.reg`owner, lib.reg`book, lib.reg`clean
    ensures lib.Ready() && Loaded(lib, hosts + if ok then [h] else [])
    ensures lib.reg.clean == old(lib.reg.clean) && lib.reg.book.objs == old(lib.reg.book.objs)
    ensures forall t :: t in lib.reg.owner ==> t in old(lib.reg.owner) || fresh(t)
    ensures lib.reg.ample ==> ok
  {
    var status, ap, pp := lib.AddHost(h.kern, h.ifname, h.attr);
    ok := status == Ok;
    if ok {
      OneMoreLocal(old(lib.reg.locals), hosts, pp, h);
    } else {
      assert hosts + [] == hosts;
    }
  }

  // The next of these hosts.
  method LoadNext(lib: AdapterLib, hosts: seq<Host>, oks: seq<bool>) returns (ok: bool)
    requires |oks| < |hosts| <= INDEX_LIMIT && DistinctHosts(hosts)
    requires lib.Ready() && Loaded(lib, Kept(hosts[..|oks|], oks))
    modifies lib`adapters, lib`tables, lib`ports, lib.adapterTable, lib.reg`locals, lib.reg`owner, lib.reg`book, lib.reg`clean
    ensures lib.Ready() && Loaded(lib, Kept(hosts[..|oks| + 1], oks + [ok])) && (lib.reg.ample ==> ok)
    ensures lib.reg.clean == old(lib.reg.clean) && lib.reg.book.objs == old(lib.reg.book.objs)
    ensures forall t :: t in lib.reg.owner ==> t in old(lib.reg.owner) || fresh(t)
  {
    ghost var kept := Kept(hosts[..|oks|], oks);
    forall h | h in kept ensures h.kern != hosts[|oks|].kern { NotYetLoaded(hosts, oks, h); }
    ok := LoadHost(lib, hosts[|oks|], kept);
    KeptNext(hosts, oks, ok);
  }

  // All hosts, into a library without any.
  method LoadAll(lib: AdapterLib, hosts: seq<Host>) returns (oks: seq<bool>)
    requires lib.Ready() && Loaded(lib, []) && DistinctHosts(hosts) && |hosts| <= INDEX_LIMIT
    modifies lib`adapters, lib`tables, lib`ports, lib.adapterTable, lib.reg`locals, lib.reg`owner, lib.reg`book, lib.reg`clean
    ensures lib.Ready() && lib.reg.clean == old(lib.reg.clean) && lib.reg.book.objs == old(lib.reg.book.objs)
    ensures forall t :: t in lib.reg.owner ==> t in old(lib.reg.owner) || fresh(t)
    ensures |oks| == |hosts| && Loaded(lib, Kept(hosts, oks)) && (lib.reg.ample ==> false !in oks)
  {
    oks := [];
    assert Kept(hosts[..0], []) == [];
    for i := 0 to |hosts|
      invariant lib.Ready() && lib.reg.clean == old(lib.reg.clean) && lib.reg.book.objs == old(lib.reg.book.objs)
      invariant forall t :: t in lib.reg.owner ==> t in old(lib.reg.owner) || fresh(t)
      invariant |oks| == i && Loaded(lib, Kept(hosts[..i], oks)) && (lib.reg.ample ==> false !in oks)
    {
      var ok := LoadNext(lib, hosts, oks);
      oks := oks + [ok];
    }
    assert hosts[..|hosts|] == hosts;
  }

  /** Loading hosts of distinct numbers: those that succeed are the library's, each with its
      one port, and no two local ports have the same host and channel. All succeed when memory
      never runs out. */
  method Load(listing: Listing, hosts: seq<Host>, ample: bool) returns (lib: AdapterLib, oks: seq<bool>)
    requires DistinctHosts(hosts) && |hosts| <= INDEX_LIMIT
    ensures fresh(lib) && fresh(lib.reg) && fresh(lib.adapterTable) && fresh(lib.reg.rportsTable)
    ensures forall t :: t in lib.reg.owner ==> fresh(t)
    ensures lib.Ready() && lib.reg.listing == listing && lib.reg.clean && lib.reg.book.objs == []
    ensures |oks| == |hosts| && Loaded(lib, Kept(hosts, oks))
    ensures lib.reg.ample == ample && (ample ==> false !in oks)
  {
    var reg := new Registry(listing, ample);
    lib := new AdapterLib(reg);
    oks := LoadAll(lib, hosts);
  }

  // ---- asking ----

  /** One request as the entry points serve it: three of the queries take the handle and the
      port number, the two others the port they name. */
  method Serve(lib: AdapterLib, r: Request) returns (found: Option<PortInfo>)
    requires lib.Ready()
    modifies lib.reg`book, lib.reg`clean, lib.reg.rportsTable, lib.reg.owner.Keys, lib.reg.book.objs`adapt
    ensures lib.Ready() && (lib.reg.clean ==> old(lib.reg.clean))
    ensures forall o :: o in lib.reg.book.objs ==> o in old(lib.reg.book.objs) || fresh(o)
    ensures var pp := lib.PortAt(r.handle, r.port);
            if pp.None? then found == None else IsAnswer(lib.reg.book, pp.value, r.q, found)
    ensures lib.reg.clean && DistinctKeys(lib.reg.locals) ==>
              RecordOf(found) == ScratchAt(lib.reg.listing, KeyIn(lib.ports, r.handle, r.port), r.q)
    ensures lib.reg.ample ==> lib.reg.clean == old(lib.reg.clean)
  {
    if r.q.ByWwn? || r.q.ByFcId? {
      found := None;
      var pp := lib.LocalPort(r.handle, r.port);
      if pp.Some? {
        found := lib.AskPort(pp.value, r.q);
      }
    } else {
      found := lib.GetRport(r.handle, r.port, r.q);
    }
  }

  lemma LoadedAnswer(ports: seq<seq<Option<PortInfo>>>, hosts: seq<Host>, listing: seq<DirEntry>, r: Request)
    requires PortsOf(ports, hosts)
    ensures ScratchAt(listing, KeyIn(ports, r.handle, r.port), r.q) == SessionAnswer(listing, hosts, r)
  {}

  // The answers given so far are those computed from the directory and the hosts alone.
  predicate AllFromScratch(listing: seq<DirEntry>, hosts: seq<Host>, reqs: seq<Request>, rs: seq<Option<Rec>>) {
    |rs| <= |reqs| && forall i :: 0 <= i < |rs| ==> rs[i] == SessionAnswer(listing, hosts, reqs[i])
  }

  /** The first n of any sequence of requests to a library with these hosts loaded, whatever was
      asked of it before: as long as no allocation fails, every answer is the one computed from
      the directory and the hosts alone. The lazy scan and the earlier claims never show. */
  method RunQueries(lib: AdapterLib, ghost hosts: seq<Host>, reqs: seq<Request>, n: nat) returns (rs: seq<Option<Rec>>)
    requires lib.Ready() && Loaded(lib, hosts) && n <= |reqs|
    modifies lib.reg`book, lib.reg`clean, lib.reg.rportsTable, lib.reg.owner.Keys, lib.reg.book.objs`adapt
    ensures lib.Ready() && Loaded(lib, hosts) && |rs| == n && (lib.reg.clean ==> old(lib.reg.clean))
    ensures forall o :: o in lib.reg.book.objs ==> o in old(lib.reg.book.objs) || fresh(o)
    ensures lib.reg.clean ==> AllFromScratch(lib.reg.listing, hosts, reqs, rs)
    ensures lib.reg.ample ==> lib.reg.clean == old(lib.reg.clean)
  {
    if n == 0 {
      return [];
    }
    rs := RunQueries(lib, hosts, reqs, n - 1);
    assert forall k :: 0 <= k < |lib.reg.book.objs| ==>
             lib.reg.book.objs[k] in old(lib.reg.book.objs) || fresh(lib.reg.book.objs[k]);
    var found := Serve(lib, reqs[n - 1]);
    LoadedAnswer(lib.ports, hosts, lib.reg.listing, reqs[n - 1]);
    rs := rs + [RecordOf(found)];
  }

  /** A whole session: a fresh registry, hosts of distinct numbers and any requests. When memory
      never runs out, all hosts are loaded and every answer is the one computed from the
      directory and the hosts alone. In any case that is so, for the hosts that were loaded, as
      long as no allocation fails in a request. */
  method RunSession(listing: Listing, hosts: seq<Host>, reqs: seq<Request>, ample: bool)
    returns (oks: seq<bool>, rs: seq<Option<Rec>>, ghost clean: bool)
    requires DistinctHosts(hosts) && |hosts| <= INDEX_LIMIT
    ensures |oks| == |hosts| && |rs| == |reqs|
    ensures ample ==> false !in oks && AllFromScratch(listing, hosts, reqs, rs)
    ensures clean ==> AllFromScratch(listing, Kept(hosts, oks), reqs, rs)
  {
    var lib;
    lib, oks := Load(listing, hosts, ample);
    rs := RunQueries(lib, Kept(hosts, oks), reqs, |reqs|);
    clean := lib.reg.clean;
  }
}
