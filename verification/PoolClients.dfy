/** What a client served from an address pool gets, and what it gives back
    (dhcp6s.c): exactly which addresses are bound, released and declined. */
module PoolClients {
  import opened Bytes
  import opened ListVals
  import opened Pool
  import opened Bindings
  import opened BindingInvariants
  import opened ServerRuns
  import opened ServerReplies

  // The value offered for an address of the client's pool.
  function FromPool(host: Host, a: Addr): Value
    requires host.pool.Some?
  {
    StatefulAddr(host.pool.value.pltime, host.pool.value.vltime, a)
  }

  /** Hints are honoured exactly where the pool has the address free. */
  lemma {:induction false} HintsHonoured(hints: seq<Value>, host: Host, pools: Pools, leases: map<Addr, bool>, a: Addr)
    requires DistinctHints(hints) && host.pool.Some? && host.pool.value.name in pools
    ensures var o := OfferHints([], hints, host, NA, pools, leases);
            && o.conf == []
            && (FromPool(host, a) in o.list <==>
                  a in AddrSet(hints) && InRange(pools[host.pool.value.name], a) && Usable(a, leases))
  {
    if hints == [] {
    } else {
      var n := |hints| - 1;
      assert hints == hints[..n] + [hints[n]];
      FreePush(hints[..n], hints[n], map[]);
      AddrSetPush(hints[..n], hints[n]);
      HintsHonoured(hints[..n], host, pools, leases, a);
    }
  }

  lemma {:induction false} OfferedFromPool(hints: seq<Value>, host: Host, pools: Pools, leases: map<Addr, bool>)
    requires host.pool.Some?
    ensures var o := OfferHints([], hints, host, NA, pools, leases);
            o.conf == [] && forall v :: v in o.list ==> v.StatefulAddr? && v == FromPool(host, v.addr)
  {
    if hints == [] {
    } else {
      OfferedFromPool(hints[..|hints| - 1], host, pools, leases);
    }
  }

  // The client asks for the address and the pool can give it.
  predicate Wanted(hints: seq<Value>, r: Range, leases: map<Addr, bool>, a: Addr) {
    a in AddrSet(hints) && InRange(r, a) && Usable(a, leases)
  }

  // The least address the pool search can give: in the pool if one is free there; a
  // pool that ends in all ones gives the least of all otherwise.
  ghost predicate Least(r: Range, leases: map<Addr, bool>, a: Addr) {
    if exists b :: InRange(r, b) && Usable(b, leases) then IsLeast(a, Num(r.min), Num(r.max), leases)
    else IsLeast(a, 0, Num(ALL_ONES), leases)
  }

  // Where the search of a pool gets to.
  predicate Reaches(r: Range, a: Addr) {
    InRange(r, a) || r.max == ALL_ONES
  }

  /** The values for a client without a binding: what it asked for as far as the
      pool has it free, otherwise the least free address. */
  ghost predicate Served(host: Host, hints: seq<Value>, r: Range, leases: map<Addr, bool>, vals: seq<Value>)
    requires host.pool.Some?
  {
    if exists a :: Wanted(hints, r, leases, a)
    then forall v :: v in vals <==> v.StatefulAddr? && v == FromPool(host, v.addr) && Wanted(hints, r, leases, v.addr)
    else
      && |vals| == 1 && vals[0].StatefulAddr? && vals[0] == FromPool(host, vals[0].addr)
      && Least(r, leases, vals[0].addr)
  }

  lemma {:induction false} SearchReaches(r: Range, leases: map<Addr, bool>)
    ensures Search(r, leases).Some? <==> exists a :: Reaches(r, a) && Usable(a, leases)
    ensures Search(r, leases).Some? ==> Least(r, leases, Search(r, leases).value)
  {
    SearchIsLeast(r, leases);
    if exists a :: InRange(r, a) && Usable(a, leases) {
      var a :| InRange(r, a) && Usable(a, leases);
      assert Reaches(r, a);
    } else if r.max == ALL_ONES {
      forall a | Usable(a, leases) ensures LeastIn(0, Num(ALL_ONES), leases).Some? {
        AllOnesIsLargest(a);
        LeastExists(a, 0, Num(ALL_ONES), leases);
      }
      if Search(r, leases).Some? {
        assert Reaches(r, Search(r, leases).value);
      }
    }
  }

  lemma {:induction false} OffersServe(ia: IaSpec, host: Host, pools: Pools, leases: map<Addr, bool>)
    requires ia.iatype == NA && DistinctHints(ia.hints) && host.pool.Some? && host.pool.value.name in pools
    ensures var r, list := pools[host.pool.value.name], Offers([], ia, host, pools, leases).list;
            && (list != [] <==> exists a :: Reaches(r, a) && Usable(a, leases))
            && (list != [] ==> Served(host, ia.hints, r, leases, list))
  {
    hide Search, OfferHints, Least;
    var r := pools[host.pool.value.name];
    var o := OfferHints([], ia.hints, host, NA, pools, leases);
    OfferedFromPool(ia.hints, host, pools, leases);
    forall a ensures FromPool(host, a) in o.list <==> Wanted(ia.hints, r, leases, a) {
      HintsHonoured(ia.hints, host, pools, leases, a);
    }
    if o.list == [] {
      assert forall a :: !Wanted(ia.hints, r, leases, a);
      SearchReaches(r, leases);
    } else {
      assert o.list[0] in o.list;
      assert Wanted(ia.hints, r, leases, o.list[0].addr);
      assert Reaches(r, o.list[0].addr);
    }
  }

  /** A pool-backed client without a binding gets a Reply if and only if its pool has
      a free address, or ends in all ones and any address is free; its binding is then
      exactly the free addresses of the pool it asked for, or the least free address if
      there is none of those. */
  lemma {:induction false} PoolClientServed(st: State, ia: IaSpec, host: Host, pools: Pools, now: int)
    requires Inv(st) && ia.iatype == NA && DistinctHints(ia.hints)
    requires host.pool.Some? && host.pool.value.name in pools
    requires FindBinding(st.bindings, host.duid, NA, ia.iaid) < 0
    ensures var m, r := MakeIa(st, [], ia, host, pools, true, now), pools[host.pool.value.name];
            && (m.reply.Some? <==> exists a :: Reaches(r, a) && Usable(a, st.leases))
            && (m.reply.Some? ==>
                  var i := FindBinding(m.st.bindings, host.duid, NA, ia.iaid);
                  i >= 0 && Served(host, ia.hints, r, st.leases, m.st.bindings[i].vals))
  {
    hide Offers, Served, Reaches;
    var offered := Offers([], ia, host, pools, st.leases).list;
    OffersServe(ia, host, pools, st.leases);
    OffersFree(ia, host, pools, st.leases);
    OffersTyped([], ia, host, pools, st.leases);
    LeaseAllKeepsFree(offered, st.leases);
    if offered != [] {
      ReplyIsBinding(st, [], ia, host, pools, now);
    }
  }

  // ---- giving back -------------------------------------------------------

  // What is taken out of a binding was named by a hint.
  lemma {:induction false} TakenWasNamed(vals: seq<Value>, hints: seq<Value>, a: Addr)
    requires Count(Cut(vals, hints).1, a) > 0
    ensures a in AddrSet(hints)
  {
    var n := |hints| - 1;
    if hints == [] {
    } else {
      var (left, taken) := Cut(vals, hints[..n]);
      assert hints == hints[..n] + [hints[n]];
      AddrSetPush(hints[..n], hints[n]);
      var i := Find(left, hints[n]);
      if Count(taken, a) > 0 {
        TakenWasNamed(vals, hints[..n], a);
      } else {
        CountPush(taken, left[i], a);
      }
    }
  }

  /** Exactly the addresses that are both named and held are taken. */
  lemma {:induction false} TakenIsExact(vals: seq<Value>, hints: seq<Value>, a: Addr)
    requires Count(vals, a) <= 1
    ensures a in AddrSet(Cut(vals, hints).1) <==> a in AddrSet(vals) && a in AddrSet(hints)
    ensures a in AddrSet(Cut(vals, hints).0) <==> a in AddrSet(vals) && a !in AddrSet(hints)
  {
    var (left, taken) := Cut(vals, hints);
    CutCounts(vals, hints, a);
    CountPositive(vals, a);
    CountPositive(left, a);
    CountPositive(taken, a);
    if Count(taken, a) > 0 {
      TakenWasNamed(vals, hints, a);
    }
    if a in AddrSet(hints) {
      var h :| 0 <= h < |hints| && hints[h].StatefulAddr? && hints[h].addr == a;
      CutTakes(vals, hints, h, a);
    }
  }

  /** A Release frees exactly the addresses it names that the client's IA holds, and
      takes exactly these out of the binding; no other lease changes. */
  lemma {:induction false} ReleaseIsExact(st: State, duid: Duid, ia: IaSpec, i: int, a: Addr)
    requires Inv(st) && ia.iatype == NA && i == FindBinding(st.bindings, duid, NA, ia.iaid) >= 0
    ensures var st' := ReleaseIa(st, duid, ia);
            && (a in st.leases && a !in st'.leases <==> a in AddrSet(st.bindings[i].vals) && a in AddrSet(ia.hints))
            && (a in st'.leases ==> a in st.leases && st'.leases[a] == st.leases[a])
  {
    HeldIsLeased(st, i, a);
    CountPositive(st.bindings[i].vals, a);
    TakenIsExact(st.bindings[i].vals, ia.hints, a);
  }

  /** A Decline marks exactly the addresses it names that the client's IA holds. */
  lemma {:induction false} DeclineIsExact(st: State, duid: Duid, ia: IaSpec, i: int, a: Addr)
    requires Inv(st) && ia.iatype == NA && i == FindBinding(st.bindings, duid, NA, ia.iaid) >= 0
    ensures var st' := DeclineIa(st, duid, ia);
            && st'.leases.Keys == st.leases.Keys
            && (a in st.leases && st.leases[a] != st'.leases[a] <==>
                  a in AddrSet(st.bindings[i].vals) && a in AddrSet(ia.hints))
            && (a in st.leases && st.leases[a] ==> st'.leases[a])
  {
    HeldIsLeased(st, i, a);
    CountPositive(st.bindings[i].vals, a);
    TakenIsExact(st.bindings[i].vals, ia.hints, a);
  }
}
