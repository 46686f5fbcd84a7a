/** What clients see: replies that match the bindings made, retransmitted
    Requests that change nothing, and lifetimes that expire exactly on time. */
module ServerReplies {
  import opened Bytes
  import opened ListVals
  import opened Bindings
  import opened BindingInvariants
  import opened ServerRuns

  /** The client's binding exists and holds exactly these values. */
  predicate Bound(st: State, duid: Duid, t: IaType, iaid: uint32, vals: seq<Value>) {
    var i := FindBinding(st.bindings, duid, t, iaid);
    i >= 0 && st.bindings[i].vals == vals
  }

  // ---- the reply and the binding -----------------------------------------

  /** Addresses that can all be leased: none leased yet, none twice. */
  predicate AllFree(vals: seq<Value>, leases: map<Addr, bool>) {
    && (forall k :: 0 <= k < |vals| ==> vals[k].StatefulAddr? && vals[k].addr !in leases)
    && (forall j, k :: 0 <= j < k < |vals| ==> vals[j].addr != vals[k].addr)
  }

  lemma {:induction false} LeaseAllLength(vals: seq<Value>, m: map<Addr, bool>)
    ensures |LeaseAll(vals, m).0| <= |vals|
  {
    if vals == [] {
    } else {
      LeaseAllLength(vals[..|vals| - 1], m);
    }
  }

  /** After leasing, exactly the old addresses and those of the list are in the table. */
  lemma {:induction false} LeaseAllKeys(vals: seq<Value>, m: map<Addr, bool>, a: Addr)
    ensures a in LeaseAll(vals, m).1 <==> a in m || a in AddrSet(vals)
  {
    if vals == [] {
    } else {
      LeaseAllKeys(vals[..|vals| - 1], m, a);
      assert vals == vals[..|vals| - 1] + [vals[|vals| - 1]];
    }
  }

  /** Leasing keeps the whole list exactly when every address is free. */
  lemma {:induction false} LeaseAllKeepsFree(vals: seq<Value>, m: map<Addr, bool>)
    requires Typed(vals, NA)
    ensures LeaseAll(vals, m).0 == vals <==> AllFree(vals, m)
  {
    if vals == [] {
    } else {
      var n := |vals| - 1;
      var init, v := vals[..n], vals[n];
      LeaseAllKeepsFree(init, m);
      LeaseAllLength(init, m);
      LeaseAllKeys(init, m, v.addr);
      var kept := LeaseAll(init, m).0;
      assert vals == init + [v];
      assert kept != init ==> kept + [v] != vals by {
        assert |kept| == n ==> (kept + [v])[..n] == kept;
      }
      FreePush(init, v, m);
    }
  }

  lemma {:induction false} FreePush(init: seq<Value>, v: Value, m: map<Addr, bool>)
    requires v.StatefulAddr?
    ensures AllFree(init + [v], m) <==> AllFree(init, m) && v.addr !in m && v.addr !in AddrSet(init)
  {
    var vals := init + [v];
    assert forall k :: 0 <= k < |init| ==> vals[k] == init[k] && init[k] in init;
    assert vals[|init|] == v;
  }

  lemma {:induction false} FindAppended(bs: seq<Binding>, b: Binding)
    requires FindBinding(bs, b.duid, b.iatype, b.iaid) < 0
    ensures FindBinding(bs + [b], b.duid, b.iatype, b.iaid) == |bs|
  {
    assert (bs + [b])[|bs|] == b;
    assert forall k :: 0 <= k < |bs| ==> (bs + [b])[k] == bs[k];
  }

  /** A new IA_NA: the option in the Reply lists exactly the binding's addresses
      if and only if every address offered was free. */
  lemma {:induction false} ReplyIsBinding(st: State, conf: seq<Value>, ia: IaSpec, host: Host, pools: Pools, now: int)
    requires Inv(st) && ia.iatype == NA && Typed(conf, NA)
    requires FindBinding(st.bindings, host.duid, NA, ia.iaid) < 0
    requires MakeIa(st, conf, ia, host, pools, true, now).reply.Some?
    ensures var m := MakeIa(st, conf, ia, host, pools, true, now);
            var offered := Offers(conf, ia, host, pools, st.leases).list;
            && m.reply == Some(IaOption(NA, ia.iaid, offered))
            && (Bound(m.st, host.duid, NA, ia.iaid, offered) <==> AllFree(offered, st.leases))
  {
    var offered := Offers(conf, ia, host, pools, st.leases).list;
    OffersTyped(conf, ia, host, pools, st.leases);
    LeaseAllKeepsFree(offered, st.leases);
    var kept := LeaseAll(offered, st.leases).0;
    FindAppended(st.bindings, NewBinding(host.duid, NA, ia.iaid, kept, now));
  }

  // Hints that are addresses, no two alike, as the option parser delivers them.
  predicate DistinctHints(hints: seq<Value>) {
    AllFree(hints, map[])
  }

  lemma {:induction false} FirstHints(hints: seq<Value>)
    requires hints != [] && DistinctHints(hints)
    ensures DistinctHints(hints[..|hints| - 1]) && hints[|hints| - 1].StatefulAddr?
    ensures hints[|hints| - 1].addr !in AddrSet(hints[..|hints| - 1])
  {
    hide AddrSet, AllFree;
    var n := |hints| - 1;
    assert hints == hints[..n] + [hints[n]];
    LastIsAddr(hints);
    FreePush(hints[..n], hints[n], map[]);
  }

  lemma {:induction false} LastIsAddr(hints: seq<Value>)
    requires hints != [] && AllFree(hints, map[])
    ensures hints[|hints| - 1].StatefulAddr?
  {
  }

  lemma {:induction false} PoolHint(o: Offer, h: Value, host: Host, pools: Pools, leases: map<Addr, bool>)
    requires o.conf == [] && host.pool.Some? && h.StatefulAddr?
    ensures var o' := OfferHint(o, h, host, NA, pools, leases);
            var v := StatefulAddr(host.pool.value.pltime, host.pool.value.vltime, h.addr);
            o' == o || (h.addr !in leases && o' == Offer([], o.list + [v]))
  {
  }

  lemma {:induction false} HintsFirst(hints: seq<Value>, host: Host, pools: Pools, leases: map<Addr, bool>)
    ensures OfferHints([], [], host, NA, pools, leases) == Offer([], []) && AllFree([], leases) && AddrSet([]) == {}
    ensures hints != [] ==>
              var n := |hints| - 1;
              && OfferHints([], hints, host, NA, pools, leases) ==
                 OfferHint(OfferHints([], hints[..n], host, NA, pools, leases), hints[n], host, NA, pools, leases)
              && hints == hints[..n] + [hints[n]]
  {
    hide OfferHint;
  }

  lemma {:induction false} PoolOffersFree(hints: seq<Value>, host: Host, pools: Pools, leases: map<Addr, bool>)
    requires DistinctHints(hints) && host.pool.Some?
    ensures var o := OfferHints([], hints, host, NA, pools, leases);
            o.conf == [] && AllFree(o.list, leases) && AddrSet(o.list) <= AddrSet(hints)
  {
    hide *;
    HintsFirst(hints, host, pools, leases);
    if hints == [] {
    } else {
      var n := |hints| - 1;
      var init, h := hints[..n], hints[n];
      FirstHints(hints);
      PoolOffersFree(init, host, pools, leases);
      var o := OfferHints([], init, host, NA, pools, leases);
      PoolHint(o, h, host, pools, leases);
      AddrSetPush(init, h);
      var v := StatefulAddr(host.pool.value.pltime, host.pool.value.vltime, h.addr);
      AddrSetPush(o.list, v);
      FreePush(o.list, v, leases);
    }
  }

  /** A pool-backed client with distinct address hints is told exactly what was
      bound for it, and every address bound came free from the pool. */
  lemma {:induction false} PoolReplyIsBinding(st: State, ia: IaSpec, host: Host, pools: Pools, now: int)
    requires Inv(st) && ia.iatype == NA && host.pool.Some? && DistinctHints(ia.hints)
    requires FindBinding(st.bindings, host.duid, NA, ia.iaid) < 0
    ensures var m := MakeIa(st, [], ia, host, pools, true, now);
            m.reply.Some? ==>
              var i := FindBinding(m.st.bindings, host.duid, NA, ia.iaid);
              && i >= 0 && m.reply == Some(IaOption(NA, ia.iaid, m.st.bindings[i].vals))
              && AllFree(m.st.bindings[i].vals, st.leases)
  {
    if MakeIa(st, [], ia, host, pools, true, now).reply.Some? {
      OffersFree(ia, host, pools, st.leases);
      ReplyIsBinding(st, [], ia, host, pools, now);
    }
  }

  lemma {:induction false} OffersFree(ia: IaSpec, host: Host, pools: Pools, leases: map<Addr, bool>)
    requires ia.iatype == NA && host.pool.Some? && DistinctHints(ia.hints)
    ensures AllFree(Offers([], ia, host, pools, leases).list, leases)
  {
    PoolOffersFree(ia.hints, host, pools, leases);
  }

  /** For a static list the promise can fail: an exact match is offered although
      another client holds it, and add_binding drops it without a word. */
  lemma {:induction false} StaticReplyExceedsBinding(x: Addr, y: Addr)
    requires x != y
    ensures var vx, vy := StatefulAddr(10, 20, x), StatefulAddr(10, 20, y);
            var st := OneHolder(vx);
            var m := MakeIa(st, [vx, vy], IaSpec(NA, 7, [vx, vy]), Host([2], [], [vx, vy], None), map[], true, 0);
            && Inv(st)
            && m.reply == Some(IaOption(NA, 7, [vx, vy]))
            && Bound(m.st, [2], NA, 7, [vy])
  {
    var vx, vy := StatefulAddr(10, 20, x), StatefulAddr(10, 20, y);
    var st := OneHolder(vx);
    var host := Host([2], [], [vx, vy], None);
    OneHolderInv(vx);
    ExactMatches(vx, vy, host, st.leases);
    assert FindBinding(st.bindings, [2], NA, 7) < 0;
    assert LeaseAll([vx, vy], st.leases).0 == [vy] by {
      assert [vx, vy][..1] == [vx] && [vx][..0] == [];
      assert LeaseAll([vx], st.leases) == ([], st.leases);
    }
    FindAppended(st.bindings, NewBinding([2], NA, 7, [vy], 0));
  }

  // Client 1 holds one address.
  function OneHolder(v: Value): State
    requires v.StatefulAddr?
  {
    State([NewBinding([1], NA, 1, [v], 0)], map[v.addr := false])
  }

  lemma {:induction false} OneHolderInv(v: Value)
    requires v.StatefulAddr?
    ensures Inv(OneHolder(v))
  {
    forall a ensures Held(OneHolder(v).bindings, a) == Leased(OneHolder(v).leases, a) {
      HeldOne(NewBinding([1], NA, 1, [v], 0), a);
      CountPush([], v, a);
      assert [] + [v] == [v];
    }
  }

  lemma {:induction false} ExactMatches(vx: Value, vy: Value, host: Host, leases: map<Addr, bool>)
    requires vx.StatefulAddr? && vy.StatefulAddr? && vx.addr != vy.addr
    ensures Offers([vx, vy], IaSpec(NA, 7, [vx, vy]), host, map[], leases) == Offer([], [vx, vy])
  {
    var hints := [vx, vy];
    assert hints[..1] == [vx] && [vx][..0] == [];
    assert OfferHints(hints, [vx], host, NA, map[], leases) == Offer([vy], [vx]) by {
      assert Find(hints, vx) == 0;
    }
    assert OfferHints(hints, hints, host, NA, map[], leases) == Offer([], [vx, vy]) by {
      assert Find([vy], vy) == 0;
    }
  }

  // ---- retransmission ----------------------------------------------------

  lemma {:induction false} RenewedSame(b: Binding, now: int)
    ensures SameKey(Renewed(b, now), b) && Renewed(b, now).vals == b.vals
  {
  }

  lemma {:induction false} FindReplaced(bs: seq<Binding>, i: nat, b: Binding, duid: Duid, t: IaType, iaid: uint32)
    requires i < |bs| && SameKey(b, bs[i])
    ensures FindBinding(bs[i := b], duid, t, iaid) == FindBinding(bs, duid, t, iaid)
  {
    assert forall k :: 0 <= k < |bs| ==> HasKey(bs[i := b][k], duid, t, iaid) == HasKey(bs[k], duid, t, iaid);
  }

  lemma {:induction false} FindRemoved(bs: seq<Binding>, i: nat, duid: Duid, t: IaType, iaid: uint32)
    requires i < |bs| && !HasKey(bs[i], duid, t, iaid)
    ensures var j := FindBinding(bs, duid, t, iaid);
            FindBinding(RemoveAt(bs, i), duid, t, iaid) == if j < i then j else j - 1
  {
    hide HasKey, FindBinding;
    var j := FindBinding(bs, duid, t, iaid);
    var r := RemoveAt(bs, i);
    assert forall k :: 0 <= k < |r| ==> r[k] == bs[if k < i then k else k + 1];
    assert j >= 0 ==> r[if j < i then j else j - 1] == bs[j];
  }

  lemma {:induction false} FindKept(bs: seq<Binding>, b: Binding, duid: Duid, t: IaType, iaid: uint32)
    requires FindBinding(bs, duid, t, iaid) >= 0
    ensures FindBinding(bs + [b], duid, t, iaid) == FindBinding(bs, duid, t, iaid)
  {
    assert forall k :: 0 <= k < |bs| ==> (bs + [b])[k] == bs[k];
  }

  predicate SparesIas(d: Duid, ias: seq<IaSpec>, duid: Duid, t: IaType, iaid: uint32) {
    d != duid || forall i :: 0 <= i < |ias| ==> !(ias[i].iatype == t && ias[i].iaid == iaid)
  }

  /** An event that neither releases, declines, expires nor removes the named binding. */
  predicate Spares(ev: Event, duid: Duid, t: IaType, iaid: uint32) {
    match ev
    case Release(d, ias) => SparesIas(d, ias, duid, t, iaid)
    case Decline(d, ias) => SparesIas(d, ias, duid, t, iaid)
    case Timer(d, t', id, _) => !(d == duid && t' == t && id == iaid)
    case Remove(d, id) => !(d == duid && id == iaid)
    case _ => true
  }

  lemma {:induction false} RenewKeepsBound(st: State, i: nat, now: int, duid: Duid, t: IaType, iaid: uint32,
                                           vals: seq<Value>)
    requires i < |st.bindings| && Bound(st, duid, t, iaid, vals)
    ensures Bound(RenewAt(st, i, now), duid, t, iaid, vals)
  {
    FindReplaced(st.bindings, i, Renewed(st.bindings[i], now), duid, t, iaid);
  }

  lemma {:induction false} MakeIaKeepsBound(st: State, conf: seq<Value>, ia: IaSpec, host: Host, pools: Pools,
                                            bind: bool, now: int,
                         duid: Duid, t: IaType, iaid: uint32, vals: seq<Value>)
    requires Bound(st, duid, t, iaid, vals)
    ensures Bound(MakeIa(st, conf, ia, host, pools, bind, now).st, duid, t, iaid, vals)
  {
    var i := FindBinding(st.bindings, host.duid, ia.iatype, ia.iaid);
    var m := MakeIa(st, conf, ia, host, pools, bind, now);
    if i >= 0 {
      RenewKeepsBound(st, i, now, duid, t, iaid, vals);
    } else if m.st != st {
      var b := m.st.bindings[|st.bindings|];
      assert m.st.bindings == st.bindings + [b];
      FindKept(st.bindings, b, duid, t, iaid);
    }
  }

  lemma {:induction false} MakeIasKeepsBound(st: State, conf: seq<Value>, ias: seq<IaSpec>, host: Host, pools: Pools,
                                             bind: bool, stop: bool, now: int,
                                             duid: Duid, t: IaType, iaid: uint32, vals: seq<Value>)
    requires Bound(st, duid, t, iaid, vals)
    ensures Bound(MakeIas(st, conf, ias, host, pools, bind, stop, now).st, duid, t, iaid, vals)
  {
    if ias == [] {
    } else {
      MakeIasKeepsBound(st, conf, ias[..|ias| - 1], host, pools, bind, stop, now, duid, t, iaid, vals);
      var r := MakeIas(st, conf, ias[..|ias| - 1], host, pools, bind, stop, now);
      MakeIaKeepsBound(r.st, r.conf, ias[|ias| - 1], host, pools, bind, now, duid, t, iaid, vals);
    }
  }

  lemma {:induction false} UpdateIasKeepsBound(st: State, d: Duid, ias: seq<IaSpec>, stop: bool, now: int,
                                               duid: Duid, t: IaType, iaid: uint32, vals: seq<Value>)
    requires Bound(st, duid, t, iaid, vals)
    ensures Bound(UpdateIas(st, d, ias, stop, now).0, duid, t, iaid, vals)
  {
    if ias == [] {
    } else {
      UpdateIasKeepsBound(st, d, ias[..|ias| - 1], stop, now, duid, t, iaid, vals);
      var (st1, ok) := UpdateIas(st, d, ias[..|ias| - 1], stop, now);
      var i := FindBinding(st1.bindings, d, ias[|ias| - 1].iatype, ias[|ias| - 1].iaid);
      if i >= 0 {
        RenewKeepsBound(st1, i, now, duid, t, iaid, vals);
      }
    }
  }

  lemma {:induction false} PutKeepsBound(st: State, i: nat, left: seq<Value>, leases: map<Addr, bool>,
                      duid: Duid, t: IaType, iaid: uint32, vals: seq<Value>)
    requires i < |st.bindings| && !HasKey(st.bindings[i], duid, t, iaid) && Bound(st, duid, t, iaid, vals)
    ensures Bound(PutVals(st, i, left, leases), duid, t, iaid, vals)
  {
    FindReplaced(st.bindings, i, st.bindings[i].(vals := left), duid, t, iaid);
    FindRemoved(st.bindings, i, duid, t, iaid);
  }

  lemma {:induction false} CutsKeepBound(st: State, d: Duid, ias: seq<IaSpec>, duid: Duid, t: IaType, iaid: uint32,
                                         vals: seq<Value>)
    requires SparesIas(d, ias, duid, t, iaid) && Bound(st, duid, t, iaid, vals)
    ensures Bound(ReleaseIas(st, d, ias), duid, t, iaid, vals)
    ensures Bound(DeclineIas(st, d, ias), duid, t, iaid, vals)
  {
    if ias == [] {
    } else {
      var n := |ias| - 1;
      CutsKeepBound(st, d, ias[..n], duid, t, iaid, vals);
      var ia := ias[n];
      CutKeepsBound(ReleaseIas(st, d, ias[..n]), d, ia, duid, t, iaid, vals);
      CutKeepsBound(DeclineIas(st, d, ias[..n]), d, ia, duid, t, iaid, vals);
    }
  }

  lemma {:induction false} CutKeepsBound(st: State, d: Duid, ia: IaSpec, duid: Duid, t: IaType, iaid: uint32,
                                         vals: seq<Value>)
    requires !(d == duid && ia.iatype == t && ia.iaid == iaid) && Bound(st, duid, t, iaid, vals)
    ensures Bound(ReleaseIa(st, d, ia), duid, t, iaid, vals)
    ensures Bound(DeclineIa(st, d, ia), duid, t, iaid, vals)
  {
    var i := FindBinding(st.bindings, d, ia.iatype, ia.iaid);
    if i >= 0 {
      var (left, taken) := Cut(st.bindings[i].vals, ia.hints);
      var freed := if ia.iatype == NA then st.leases - AddrSet(taken) else st.leases;
      PutKeepsBound(st, i, left, freed, duid, t, iaid, vals);
      PutKeepsBound(st, i, left, DeclineAll(st.leases, AddrSet(taken)), duid, t, iaid, vals);
    }
  }

  lemma {:induction false} StepKeepsBound(st: State, ev: Event, duid: Duid, t: IaType, iaid: uint32, vals: seq<Value>)
    requires Spares(ev, duid, t, iaid) && Bound(st, duid, t, iaid, vals)
    ensures Bound(Step(st, ev), duid, t, iaid, vals)
  {
    hide Bound, MakeIas, UpdateIas, ReleaseIas, DeclineIas, BindBoth, Timeout, RemoveBinding;
    match ev
    case Request(_, _, _, _, _) => BindBothKeepsBound(st, ev, true, duid, t, iaid, vals);
    case Solicit(_, _, _, _, commit, _) => BindBothKeepsBound(st, ev, commit, duid, t, iaid, vals);
    case Confirm(host, pools, iana, link, now) =>
      MakeIasKeepsBound(st, host.addrs, iana, host, pools, true, true, now, duid, t, iaid, vals);
    case Renew(d, ias, now) => UpdateIasKeepsBound(st, d, ias, false, now, duid, t, iaid, vals);
    case Rebind(d, ias, now) => UpdateIasKeepsBound(st, d, ias, true, now, duid, t, iaid, vals);
    case Release(d, ias) => CutsKeepBound(st, d, ias, duid, t, iaid, vals);
    case Decline(d, ias) => CutsKeepBound(st, d, ias, duid, t, iaid, vals);
    case Timer(d, t', id, now) =>
      var i := FindBinding(st.bindings, d, t', id);
      if i >= 0 { TimerKeepsBound(st, i, now, duid, t, iaid, vals); }
    case Remove(d, id) =>
      var i := RemoveTarget(st.bindings, d, id);
      if i >= 0 { RemoveKeepsBound(st, i, duid, t, iaid, vals); }
  }

  lemma {:induction false} TimerKeepsBound(st: State, i: nat, now: int, duid: Duid, t: IaType, iaid: uint32,
                                           vals: seq<Value>)
    requires i < |st.bindings| && !HasKey(st.bindings[i], duid, t, iaid) && Bound(st, duid, t, iaid, vals)
    ensures Bound(Timeout(st, i, now), duid, t, iaid, vals)
  {
    hide Live, Duration, Past, FindBinding;
    var bs := Timeout(st, i, now).bindings;
    if |bs| == |st.bindings| {
      FindReplaced(st.bindings, i, bs[i], duid, t, iaid);
    } else {
      FindRemoved(st.bindings, i, duid, t, iaid);
    }
  }

  lemma {:induction false} RemoveKeepsBound(st: State, i: nat, duid: Duid, t: IaType, iaid: uint32, vals: seq<Value>)
    requires i < |st.bindings| && !HasKey(st.bindings[i], duid, t, iaid) && Bound(st, duid, t, iaid, vals)
    ensures Bound(RemoveBinding(st, i), duid, t, iaid, vals)
  {
    hide FindBinding;
    FindRemoved(st.bindings, i, duid, t, iaid);
  }

  lemma {:induction false} BindBothKeepsBound(st: State, ev: Event, bind: bool, duid: Duid, t: IaType, iaid: uint32,
                                              vals: seq<Value>)
    requires (ev.Request? || ev.Solicit?) && Bound(st, duid, t, iaid, vals)
    ensures Bound(BindBoth(st, ev, bind), duid, t, iaid, vals)
  {
    MakeIasKeepsBound(st, ev.host.prefixes, ev.iapd, ev.host, ev.pools, bind, false, ev.now, duid, t, iaid, vals);
    var r := MakeIas(st, ev.host.prefixes, ev.iapd, ev.host, ev.pools, bind, false, ev.now);
    MakeIasKeepsBound(r.st, ev.host.addrs, ev.iana, ev.host, ev.pools, bind, false, ev.now, duid, t, iaid, vals);
  }

  lemma {:induction false} RunKeepsBound(st: State, evs: seq<Event>, duid: Duid, t: IaType, iaid: uint32,
                                         vals: seq<Value>)
    requires Bound(st, duid, t, iaid, vals) && forall i :: 0 <= i < |evs| ==> Spares(evs[i], duid, t, iaid)
    ensures Bound(Run(st, evs), duid, t, iaid, vals)
  {
    if evs == [] {
    } else {
      RunKeepsBound(st, evs[..|evs| - 1], duid, t, iaid, vals);
      StepKeepsBound(Run(st, evs[..|evs| - 1]), evs[|evs| - 1], duid, t, iaid, vals);
    }
  }

  // ---- expiry ------------------------------------------------------------

  lemma {:induction false} LiveIsFilter(vals: seq<Value>, past: uint32, v: Value)
    ensures v in Live(vals, past) <==> v in vals && !Expired(v, past)
  {
    if vals == [] {
    } else {
      LiveIsFilter(vals[..|vals| - 1], past, v);
      assert vals == vals[..|vals| - 1] + [vals[|vals| - 1]];
    }
  }

  ghost predicate HasFinite(vals: seq<Value>) {
    exists k :: 0 <= k < |vals| && Vltime(vals[k]) != INFINITE
  }

  /** The running minimum is the least finite lifetime when no lifetime is zero. */
  lemma {:induction false} MinLifetimeIsLeast(vals: seq<Value>)
    requires vals != [] && forall k :: 0 <= k < |vals| ==> Vltime(vals[k]) > 0
    ensures MinLifetime(vals) > 0
    ensures forall k :: 0 <= k < |vals| ==> MinLifetime(vals) <= Vltime(vals[k])
    ensures exists k :: 0 <= k < |vals| && Vltime(vals[k]) == MinLifetime(vals)
  {
    var n := |vals| - 1;
    if n > 0 {
      MinLifetimeIsLeast(vals[..n]);
      var k :| 0 <= k < n && Vltime(vals[..n][k]) == MinLifetime(vals[..n]);
      assert Vltime(vals[k]) == MinLifetime(vals[..n]);
    }
    assert MinLifetime(vals) == Vltime(vals[n]) || MinLifetime(vals) == MinLifetime(vals[..n]);
  }

  /** One run of a binding's timer at time `now`: the leases given back are
      exactly the IA_NA addresses whose finite valid lifetime has passed; the
      binding, if it survives, keeps exactly the values not expired; and while a
      finite one is left the timer is set to the least remaining lifetime, which
      is positive. */
  lemma {:induction false} TimeoutIsExact(st: State, i: nat, now: int)
    requires Inv(st) && i < |st.bindings|
    ensures var b, st' := st.bindings[i], Timeout(st, i, now);
            var past := Past(now, b.updatetime);
            && (forall a :: a in st.leases && a !in st'.leases <==> b.iatype == NA && a in ExpiredAddrs(b.vals, past))
            && st'.leases.Keys <= st.leases.Keys
            && (|st'.bindings| < |st.bindings| <==> forall v :: v in b.vals ==> Expired(v, past))
            && (|st'.bindings| == |st.bindings| ==>
                  && (forall v :: v in st'.bindings[i].vals <==> v in b.vals && !Expired(v, past))
                  && (HasFinite(st'.bindings[i].vals) ==> IsNextExpiry(st'.bindings[i], past, now)))
  {
    var b, st' := st.bindings[i], Timeout(st, i, now);
    var past := Past(now, b.updatetime);
    var left := Live(b.vals, past);
    forall v ensures v in left <==> v in b.vals && !Expired(v, past) {
      LiveIsFilter(b.vals, past, v);
    }
    forall a | b.iatype == NA && a in ExpiredAddrs(b.vals, past) ensures a in st.leases {
      LiveCounts(b.vals, past, a);
      HeldIsLeased(st, i, a);
    }
    if left == [] {
      forall v | v in b.vals ensures Expired(v, past) {
        assert v !in left;
      }
    } else {
      assert left[0] in b.vals && !Expired(left[0], past);
      NextExpiry(left, past);
    }
  }

  /** The timer fires when the first finite lifetime runs out, after a positive wait. */
  ghost predicate IsNextExpiry(b: Binding, past: uint32, now: int) {
    && b.duration > 0 && b.timer == Some(now + b.duration)
    && (forall k :: 0 <= k < |b.vals| && Vltime(b.vals[k]) != INFINITE ==> past + b.duration <= Vltime(b.vals[k]))
    && (exists k :: 0 <= k < |b.vals| && Vltime(b.vals[k]) != INFINITE && past + b.duration == Vltime(b.vals[k]))
  }

  lemma {:induction false} NextExpiry(left: seq<Value>, past: uint32)
    requires left != [] && forall v :: v in left ==> !Expired(v, past)
    ensures HasFinite(left) ==>
              var d := Duration(left, past);
              && 0 < d < INFINITE
              && (forall k :: 0 <= k < |left| && Vltime(left[k]) != INFINITE ==> past + d <= Vltime(left[k]))
              && (exists k :: 0 <= k < |left| && Vltime(left[k]) != INFINITE && past + d == Vltime(left[k]))
  {
    if HasFinite(left) {
      forall k | 0 <= k < |left|
        ensures Vltime(left[k]) > 0 && (Vltime(left[k]) != INFINITE ==> Vltime(left[k]) > past)
      {
        assert left[k] in left;
      }
      MinLifetimeIsLeast(left);
    }
  }
}
