/** What whole messages do to the server (dhcp6s.c): a Solicit that is not committed,
    a Request that is repeated, and addresses that were declined. */
module ServerMessages {
  import opened Bytes
  import opened ListVals
  import opened Bindings
  import opened BindingInvariants
  import opened ServerRuns
  import opened ServerReplies

  // ---- a Solicit without commit ------------------------------------------

  /** The binding belongs to one of the IAs the client sent. */
  predicate NamedBy(b: Binding, duid: Duid, ias: seq<IaSpec>) {
    exists k :: 0 <= k < |ias| && HasKey(b, duid, ias[k].iatype, ias[k].iaid)
  }

  /** Exactly the bindings named by the IAs are renewed, and nothing else happens. */
  predicate OnlyRenewed(st: State, st': State, duid: Duid, ias: seq<IaSpec>, now: int) {
    && st'.leases == st.leases && |st'.bindings| == |st.bindings|
    && forall j :: 0 <= j < |st.bindings| ==>
         st'.bindings[j] == if NamedBy(st.bindings[j], duid, ias) then Renewed(st.bindings[j], now) else st.bindings[j]
  }

  lemma {:induction false} NamedByMore(b: Binding, duid: Duid, ias: seq<IaSpec>, more: seq<IaSpec>)
    ensures NamedBy(b, duid, ias + more) <==> NamedBy(b, duid, ias) || NamedBy(b, duid, more)
  {
    var all := ias + more;
    if NamedBy(b, duid, ias) {
      var k :| 0 <= k < |ias| && HasKey(b, duid, ias[k].iatype, ias[k].iaid);
      assert all[k] == ias[k];
    }
    if NamedBy(b, duid, more) {
      var k :| 0 <= k < |more| && HasKey(b, duid, more[k].iatype, more[k].iaid);
      assert all[|ias| + k] == more[k];
    }
  }

  lemma {:induction false} RenewedTwice(b: Binding, now: int)
    ensures Renewed(Renewed(b, now), now) == Renewed(b, now)
  {
  }

  lemma {:induction false} OfferRenewsOne(st: State, conf: seq<Value>, ia: IaSpec, host: Host, pools: Pools, now: int)
    requires UniqueKeys(st.bindings)
    ensures OnlyRenewed(st, MakeIa(st, conf, ia, host, pools, false, now).st, host.duid, [ia], now)
  {
    hide Offers, Renewed;
    var i := FindBinding(st.bindings, host.duid, ia.iatype, ia.iaid);
    forall j | 0 <= j < |st.bindings| ensures NamedBy(st.bindings[j], host.duid, [ia]) <==> i == j {
      assert [ia][0] == ia;
      assert i < j && i >= 0 ==> !SameKey(st.bindings[i], st.bindings[j]);
    }
  }

  lemma {:induction false} RenewsAdd(st: State, st1: State, st2: State, duid: Duid, a: seq<IaSpec>, b: seq<IaSpec>,
                                     now: int)
    requires OnlyRenewed(st, st1, duid, a, now) && OnlyRenewed(st1, st2, duid, b, now)
    ensures OnlyRenewed(st, st2, duid, a + b, now)
  {
    hide Renewed, NamedBy;
    forall j | 0 <= j < |st.bindings|
      ensures st2.bindings[j] ==
              if NamedBy(st.bindings[j], duid, a + b) then Renewed(st.bindings[j], now) else st.bindings[j]
    {
      NamedByMore(st.bindings[j], duid, a, b);
      SameNames(st.bindings[j], duid, b, now);
      RenewedTwice(st.bindings[j], now);
    }
  }

  lemma {:induction false} SameNames(b: Binding, duid: Duid, ias: seq<IaSpec>, now: int)
    ensures NamedBy(Renewed(b, now), duid, ias) == NamedBy(b, duid, ias)
  {
    assert forall t, id :: HasKey(Renewed(b, now), duid, t, id) == HasKey(b, duid, t, id);
  }

  lemma {:induction false} RenewedKeys(st: State, st': State, duid: Duid, ias: seq<IaSpec>, now: int)
    requires UniqueKeys(st.bindings) && OnlyRenewed(st, st', duid, ias, now)
    ensures UniqueKeys(st'.bindings)
  {
    forall i, j | 0 <= i < j < |st'.bindings| ensures !SameKey(st'.bindings[i], st'.bindings[j]) {
      assert !SameKey(st.bindings[i], st.bindings[j]);
    }
  }

  lemma {:induction false} OffersRenew(st: State, conf: seq<Value>, ias: seq<IaSpec>, host: Host, pools: Pools,
                                       now: int)
    requires UniqueKeys(st.bindings)
    ensures OnlyRenewed(st, MakeIas(st, conf, ias, host, pools, false, false, now).st, host.duid, ias, now)
  {
    hide *;
    if ias == [] {
      NoneMade(st, conf, host, pools, false, now);
      NoneRenewed(st, host.duid, now);
    } else {
      var n := |ias| - 1;
      OffersRenew(st, conf, ias[..n], host, pools, now);
      var r := MakeIas(st, conf, ias[..n], host, pools, false, false, now);
      MakeIasFirst(st, conf, ias, host, pools, false, now);
      RenewedKeys(st, r.st, host.duid, ias[..n], now);
      OfferRenewsOne(r.st, r.conf, ias[n], host, pools, now);
      RenewsAdd(st, r.st, MakeIa(r.st, r.conf, ias[n], host, pools, false, now).st, host.duid, ias[..n], [ias[n]], now);
      assert ias[..n] + [ias[n]] == ias;
    }
  }

  lemma {:induction false} NoneRenewed(st: State, duid: Duid, now: int)
    ensures OnlyRenewed(st, st, duid, [], now)
  {
  }

  /** A Solicit without rapid commit leaves the leases and the number, keys and values
      of all bindings as they are; it renews exactly the client's bindings that its
      IAs name. */
  lemma {:induction false} SolicitOnlyRenews(st: State, ev: Event)
    requires Inv(st) && ev.Solicit? && !ev.commit
    ensures OnlyRenewed(st, Step(st, ev), ev.host.duid, ev.iapd + ev.iana, ev.now)
    ensures forall j :: 0 <= j < |st.bindings| ==>
              SameKey(Step(st, ev).bindings[j], st.bindings[j]) && Step(st, ev).bindings[j].vals == st.bindings[j].vals
  {
    hide MakeIas;
    var st1 := MadePd(st, ev, false).st;
    OffersRenew(st, ev.host.prefixes, ev.iapd, ev.host, ev.pools, ev.now);
    RenewedKeys(st, st1, ev.host.duid, ev.iapd, ev.now);
    OffersRenew(st1, ev.host.addrs, ev.iana, ev.host, ev.pools, ev.now);
    RenewsAdd(st, st1, Step(st, ev), ev.host.duid, ev.iapd, ev.iana, ev.now);
  }

  // ---- leased and declined addresses in offers ---------------------------

  // A static list offers a leased address exactly when the client names it.
  lemma {:induction false} LeasedHints(conf: seq<Value>, hints: seq<Value>, host: Host, pools: Pools,
                                       leases: map<Addr, bool>, a: Addr)
    requires Typed(conf, NA) && a in leases
    ensures var o := OfferHints(conf, hints, host, NA, pools, leases);
            && (a in AddrSet(o.list) <==> a in AddrSet(conf) && a in AddrSet(hints))
            && (a in AddrSet(o.conf) ==> a in AddrSet(conf))
            && (a !in AddrSet(hints) ==> (a in AddrSet(o.conf) <==> a in AddrSet(conf)))
  {
    if hints == [] {
    } else {
      hide AddrSet, OfferHint, Typed;
      var n := |hints| - 1;
      var o, h := OfferHints(conf, hints[..n], host, NA, pools, leases), hints[n];
      LeasedHints(conf, hints[..n], host, pools, leases, a);
      OfferHintsTyped(conf, hints[..n], host, NA, pools, leases);
      assert hints == hints[..n] + [h];
      NamesPush(hints[..n], h, a);
      LeasedHint(o, h, host, pools, leases, a);
    }
  }

  lemma {:induction false} NamesPush(s: seq<Value>, v: Value, a: Addr)
    ensures a in AddrSet(s + [v]) <==> a in AddrSet(s) || (v.StatefulAddr? && v.addr == a)
  {
    assert forall x :: x in s + [v] <==> x in s || x == v;
  }

  lemma {:induction false} NamesRemoved(s: seq<Value>, i: nat, a: Addr)
    requires i < |s|
    ensures a in AddrSet(RemoveAt(s, i)) ==> a in AddrSet(s)
    ensures !(s[i].StatefulAddr? && s[i].addr == a) && a in AddrSet(s) ==> a in AddrSet(RemoveAt(s, i))
  {
    var r := RemoveAt(s, i);
    if a in AddrSet(s) && !(s[i].StatefulAddr? && s[i].addr == a) {
      var k :| 0 <= k < |s| && s[k].StatefulAddr? && s[k].addr == a;
      assert r[if k < i then k else k - 1] == s[k];
    }
    assert forall k :: 0 <= k < |r| ==> r[k] == s[if k < i then k else k + 1];
  }

  lemma {:induction false} LeasedHint(o: Offer, h: Value, host: Host, pools: Pools, leases: map<Addr, bool>, a: Addr)
    requires Typed(o.conf, NA) && a in leases
    ensures var o' := OfferHint(o, h, host, NA, pools, leases);
            && (a in AddrSet(o'.list) <==>
                  a in AddrSet(o.list) || (h.StatefulAddr? && h.addr == a && a in AddrSet(o.conf)))
            && (a in AddrSet(o'.conf) ==> a in AddrSet(o.conf))
            && (!(h.StatefulAddr? && h.addr == a) ==> (a in AddrSet(o'.conf) <==> a in AddrSet(o.conf)))
  {
    hide AddrSet;
    var o' := OfferHint(o, h, host, NA, pools, leases);
    if o.conf != [] {
      var i := MatchIndex(o.conf, h);
      MatchesAddress(o.conf, h, a);
      if i >= 0 {
        NamesPush(o.list, o.conf[i], a);
        NamesRemoved(o.conf, i, a);
      }
    } else {
      NoNames(a);
      if o'.list != o.list {
        NamesPush(o.list, o'.list[|o.list|], a);
      }
    }
  }

  lemma {:induction false} NoNames(a: Addr)
    ensures a !in AddrSet([])
  {
  }

  lemma {:induction false} MatchesAddress(conf: seq<Value>, h: Value, a: Addr)
    requires Typed(conf, NA)
    ensures var i := MatchIndex(conf, h);
            && (i >= 0 ==> h.StatefulAddr? && conf[i].addr == h.addr)
            && (h.StatefulAddr? && h.addr == a ==> (i >= 0 <==> a in AddrSet(conf)))
  {
  }

  /** Of the addresses that are leased or declined, an offer lists exactly those that
      the static list has and the client names; from a pool there are none. */
  lemma {:induction false} LeasedOffered(conf: seq<Value>, ia: IaSpec, host: Host, pools: Pools,
                                         leases: map<Addr, bool>, a: Addr)
    requires Typed(conf, NA) && ia.iatype == NA && a in leases
    ensures a in AddrSet(Offers(conf, ia, host, pools, leases).list) <==> a in AddrSet(conf) && a in AddrSet(ia.hints)
  {
    hide OfferHints;
    var o := OfferHints(conf, ia.hints, host, NA, pools, leases);
    LeasedHints(conf, ia.hints, host, pools, leases, a);
    OfferHintsTyped(conf, ia.hints, host, NA, pools, leases);
    if o.list == [] {
      LeasedAny(o, host, pools, leases, a);
    }
  }

  lemma {:induction false} LeasedAny(o: Offer, host: Host, pools: Pools, leases: map<Addr, bool>, a: Addr)
    requires Typed(o.conf, NA) && a in leases && o.list == []
    ensures a !in AddrSet(OfferAny(o, host, NA, pools, leases).list)
  {
    hide AddrSet, FirstFree, PoolAddr;
    var l := OfferAny(o, host, NA, pools, leases).list;
    NoNames(a);
    if o.conf != [] {
      FreeIsFree(o.conf, leases);
    }
    if l != [] {
      NamesPush([], l[0], a);
      assert l == [] + [l[0]];
    }
  }

  lemma {:induction false} FreeIsFree(conf: seq<Value>, leases: map<Addr, bool>)
    ensures var i := FirstFree(conf, NA, leases); i >= 0 ==> HintAddr(conf[i]) !in leases
  {
    if conf == [] || HintAddr(conf[0]) !in leases {
    } else {
      FreeIsFree(conf[1..], leases);
    }
  }

  /** An IA option names an address. */
  predicate Lists(opt: ListVal, a: Addr) {
    exists k :: 0 <= k < |opt.sub| && opt.sub[k].val.StatefulAddr? && opt.sub[k].val.addr == a
  }

  lemma {:induction false} ListsIsAddr(t: IaType, iaid: uint32, vals: seq<Value>, a: Addr)
    ensures Lists(IaOption(t, iaid, vals), a) <==> a in AddrSet(vals)
  {
    var sub := IaOption(t, iaid, vals).sub;
    assert sub == Flat(vals);
    if a in AddrSet(vals) {
      var k :| 0 <= k < |vals| && vals[k].StatefulAddr? && vals[k].addr == a;
      assert sub[k].val == vals[k];
    }
  }

  // Leasing a list keeps something exactly when one of its addresses is free.
  lemma {:induction false} LeasesSome(vals: seq<Value>, m: map<Addr, bool>)
    requires Typed(vals, NA)
    ensures LeaseAll(vals, m).0 != [] <==> exists b :: b in AddrSet(vals) && b !in m
  {
    if vals == [] {
      NoNames(UNSPECIFIED);
    } else {
      hide AddrSet;
      var n := |vals| - 1;
      var v := vals[n];
      LeasesSome(vals[..n], m);
      assert vals == vals[..n] + [v];
      LeaseAllKeys(vals[..n], m, v.addr);
      forall b ensures b in AddrSet(vals) <==> b in AddrSet(vals[..n]) || b == v.addr {
        NamesPush(vals[..n], v, b);
      }
    }
  }

  /** Exactly when an Advertise or Reply names a declined address: when the client has
      no binding for the IA, the address is both in its static list and among its
      hints, and, if the IA is to be bound, some other address offered is free. */
  lemma {:induction false} DeclinedOffered(st: State, conf: seq<Value>, ia: IaSpec, host: Host, pools: Pools,
                                           bind: bool, now: int, a: Addr)
    requires Inv(st) && ia.iatype == NA && Typed(conf, NA) && a in st.leases && st.leases[a]
    ensures var m := MakeIa(st, conf, ia, host, pools, bind, now);
            (m.reply.Some? && Lists(m.reply.value, a)) <==>
              && FindBinding(st.bindings, host.duid, NA, ia.iaid) < 0
              && a in AddrSet(conf) && a in AddrSet(ia.hints)
              && (bind ==> exists b :: b in AddrSet(Offers(conf, ia, host, pools, st.leases).list) && b !in st.leases)
  {
    hide Offers, Lists, IaOption, AddrSet;
    NoNames(a);
    var i := FindBinding(st.bindings, host.duid, NA, ia.iaid);
    if i >= 0 {
      ListsIsAddr(NA, ia.iaid, st.bindings[i].vals, a);
      HeldIsLeased(st, i, a);
      CountPositive(st.bindings[i].vals, a);
    } else {
      var vals := Offers(conf, ia, host, pools, st.leases).list;
      OffersTyped(conf, ia, host, pools, st.leases);
      ListsIsAddr(NA, ia.iaid, vals, a);
      LeasedOffered(conf, ia, host, pools, st.leases, a);
      LeasesSome(vals, st.leases);
    }
  }

  // ---- the reply and the binding -----------------------------------------

  // Distinct hints are met by distinct addresses, each the one hinted at.
  lemma {:induction false} OfferedDistinct(conf: seq<Value>, hints: seq<Value>, host: Host, pools: Pools,
                                           leases: map<Addr, bool>)
    requires Typed(conf, NA) && DistinctHints(hints)
    ensures var o := OfferHints(conf, hints, host, NA, pools, leases);
            AllFree(o.list, map[]) && AddrSet(o.list) <= AddrSet(hints)
  {
    if hints == [] {
    } else {
      hide AddrSet;
      var n := |hints| - 1;
      var h := hints[n];
      var o := OfferHints(conf, hints[..n], host, NA, pools, leases);
      assert hints == hints[..n] + [h];
      FreePush(hints[..n], h, map[]);
      OfferedDistinct(conf, hints[..n], host, pools, leases);
      OfferHintsTyped(conf, hints[..n], host, NA, pools, leases);
      OfferedNext(o, h, host, pools, leases);
      var l := OfferHint(o, h, host, NA, pools, leases).list;
      forall a | a in AddrSet(l) ensures a in AddrSet(hints) {
        NamesPush(hints[..n], h, a);
        if l != o.list {
          NamesPush(o.list, l[|o.list|], a);
        }
      }
      if l != o.list {
        FreePush(o.list, l[|o.list|], map[]);
      }
    }
  }

  lemma {:induction false} OfferedNext(o: Offer, h: Value, host: Host, pools: Pools, leases: map<Addr, bool>)
    requires Typed(o.conf, NA) && h.StatefulAddr?
    ensures var l := OfferHint(o, h, host, NA, pools, leases).list;
            var n := |o.list|;
            l == o.list || (|l| == n + 1 && l == o.list + [l[n]] && l[n].StatefulAddr? && l[n].addr == h.addr)
  {
    if o.conf != [] {
      MatchesAddress(o.conf, h, h.addr);
      var i := MatchIndex(o.conf, h);
      if i >= 0 {
        assert OfferHint(o, h, host, NA, pools, leases).list == o.list + [o.conf[i]];
      }
    }
  }

  /** Every address offered is free exactly when none of the leased ones is both in the
      static list and among the hints. */
  lemma {:induction false} OffersAllFree(conf: seq<Value>, ia: IaSpec, host: Host, pools: Pools,
                                         leases: map<Addr, bool>)
    requires Typed(conf, NA) && ia.iatype == NA && DistinctHints(ia.hints)
    ensures AllFree(Offers(conf, ia, host, pools, leases).list, leases) <==>
              forall a :: a in leases ==> !(a in AddrSet(conf) && a in AddrSet(ia.hints))
  {
    hide OfferHints, AddrSet, OfferAny;
    var list := Offers(conf, ia, host, pools, leases).list;
    OffersTyped(conf, ia, host, pools, leases);
    OfferedDistinct(conf, ia.hints, host, pools, leases);
    AnyIsOne(OfferHints(conf, ia.hints, host, NA, pools, leases), host, pools, leases);
    forall a | a in leases ensures a in AddrSet(list) <==> a in AddrSet(conf) && a in AddrSet(ia.hints) {
      LeasedOffered(conf, ia, host, pools, leases, a);
    }
    FreeIsUnleased(list, leases);
  }

  lemma {:induction false} AnyIsOne(o: Offer, host: Host, pools: Pools, leases: map<Addr, bool>)
    ensures o.list == [] ==> |OfferAny(o, host, NA, pools, leases).list| <= 1
  {
    hide PoolAddr, FirstFree;
  }

  lemma {:induction false} FreeIsUnleased(list: seq<Value>, leases: map<Addr, bool>)
    requires AllFree(list, map[]) || |list| <= 1
    requires Typed(list, NA)
    ensures AllFree(list, leases) <==> forall a :: a in leases ==> a !in AddrSet(list)
  {
    if forall a :: a in leases ==> a !in AddrSet(list) {
      forall k | 0 <= k < |list| ensures list[k].addr !in leases {
        assert list[k] in list && list[k].addr in AddrSet(list);
      }
    }
  }

  lemma {:induction false} SameOption(t: IaType, iaid: uint32, v: seq<Value>, w: seq<Value>)
    ensures IaOption(t, iaid, v) == IaOption(t, iaid, w) ==> v == w
  {
    if IaOption(t, iaid, v) == IaOption(t, iaid, w) {
      assert Flat(v) == Flat(w);
      forall k | 0 <= k < |v| ensures v[k] == w[k] {
        assert Flat(v)[k].val == v[k] && Flat(w)[k].val == w[k];
      }
    }
  }

  /** A new IA_NA of a client with distinct hints, from a static list or a pool: if
      there is a Reply it names exactly what was bound, if and only if no leased
      address is both in the static list and among the hints. */
  lemma {:induction false} StaticReplyIsBinding(st: State, conf: seq<Value>, ia: IaSpec, host: Host, pools: Pools,
                                                now: int)
    requires Inv(st) && ia.iatype == NA && Typed(conf, NA) && DistinctHints(ia.hints)
    requires FindBinding(st.bindings, host.duid, NA, ia.iaid) < 0
    ensures var m := MakeIa(st, conf, ia, host, pools, true, now);
            m.reply.Some? ==>
              (FromBinding(m.st, host.duid, ia, m.reply) <==>
                 forall a :: a in st.leases ==> !(a in AddrSet(conf) && a in AddrSet(ia.hints)))
  {
    hide Offers, IaOption, AllFree, MakeIa;
    var m := MakeIa(st, conf, ia, host, pools, true, now);
    if m.reply.Some? {
      ReplyIsBinding(st, conf, ia, host, pools, now);
      OffersAllFree(conf, ia, host, pools, st.leases);
      var i := FindBinding(m.st.bindings, host.duid, NA, ia.iaid);
      if i >= 0 {
        SameOption(NA, ia.iaid, Offers(conf, ia, host, pools, st.leases).list, m.st.bindings[i].vals);
      }
    }
  }

  /** The input: an address was declined, a client has it and another one in its
      static list and names both; the Reply names the declined one. */
  lemma {:induction false} DeclinedReappears(x: Addr, y: Addr)
    requires x != y
    ensures var vx, vy := StatefulAddr(10, 20, x), StatefulAddr(10, 20, y);
            var st := State([], map[x := true]);
            var m := MakeIa(st, [vx, vy], IaSpec(NA, 7, [vx, vy]), Host([2], [], [vx, vy], None), map[], true, 0);
            Inv(st) && m.reply.Some? && Lists(m.reply.value, x) && Bound(m.st, [2], NA, 7, [vy])
  {
    var vx, vy := StatefulAddr(10, 20, x), StatefulAddr(10, 20, y);
    var st := State([], map[x := true]);
    var host := Host([2], [], [vx, vy], None);
    ExactMatches(vx, vy, host, st.leases);
    assert x in AddrSet([vx, vy]) by {
      assert [vx, vy][0] == vx;
    }
    ListsIsAddr(NA, 7, [vx, vy], x);
    hide Offers, Lists, IaOption;
    var vals := [vx, vy];
    assert vals[..1] == [vx] && [vx][..0] == [];
    assert LeaseAll([vx], st.leases) == ([], st.leases);
    assert LeaseAll(vals, st.leases).0 == [] + [vy];
    FindAppended(st.bindings, NewBinding([2], NA, 7, [vy], 0));
  }

  // ---- a Request repeated ------------------------------------------------

  /** The option answers the IA with the values of its binding. */
  predicate FromBinding(st: State, duid: Duid, ia: IaSpec, reply: Option<ListVal>) {
    var i := FindBinding(st.bindings, duid, ia.iatype, ia.iaid);
    reply.Some? && i >= 0 && reply.value == IaOption(ia.iatype, ia.iaid, st.bindings[i].vals)
  }

  // Where a new IA_NA is answered from: a pool, with hints as the parser delivers them.
  predicate PoolOnly(ia: IaSpec, conf: seq<Value>, host: Host) {
    ia.iatype == NA ==> conf == [] && host.pool.Some? && DistinctHints(ia.hints)
  }

  lemma {:induction false} MadeFromBinding(st: State, conf: seq<Value>, ia: IaSpec, host: Host, pools: Pools, now: int)
    requires Inv(st) && PoolOnly(ia, conf, host)
    ensures var m := MakeIa(st, conf, ia, host, pools, true, now);
            && (m.reply.Some? ==> FromBinding(m.st, host.duid, ia, m.reply))
            && (ia.iatype == NA ==> m.conf == [])
  {
    hide MakeIa, FromBinding, Inv, DistinctHints;
    if FindBinding(st.bindings, host.duid, ia.iatype, ia.iaid) >= 0 {
      MadeForBound(st, conf, ia, host, pools, now);
    } else if ia.iatype == NA {
      MadeFromPool(st, ia, host, pools, now);
    } else {
      MadePrefix(st, conf, ia, host, pools, now);
    }
  }

  lemma {:induction false} MadeForBound(st: State, conf: seq<Value>, ia: IaSpec, host: Host, pools: Pools, now: int)
    requires FindBinding(st.bindings, host.duid, ia.iatype, ia.iaid) >= 0
    ensures var m := MakeIa(st, conf, ia, host, pools, true, now);
            FromBinding(m.st, host.duid, ia, m.reply) && (conf == [] ==> m.conf == [])
  {
    hide IaOption, RemoveMatches, Renewed;
    var i := FindBinding(st.bindings, host.duid, ia.iatype, ia.iaid);
    RenewedSame(st.bindings[i], now);
    FindReplaced(st.bindings, i, Renewed(st.bindings[i], now), host.duid, ia.iatype, ia.iaid);
    NothingMatches(st.bindings[i].vals);
  }

  lemma {:induction false} MadeFromPool(st: State, ia: IaSpec, host: Host, pools: Pools, now: int)
    requires Inv(st) && ia.iatype == NA && host.pool.Some? && DistinctHints(ia.hints)
    requires FindBinding(st.bindings, host.duid, NA, ia.iaid) < 0
    ensures var m := MakeIa(st, [], ia, host, pools, true, now);
            (m.reply.Some? ==> FromBinding(m.st, host.duid, ia, m.reply)) && m.conf == []
  {
    PoolReplyIsBinding(st, ia, host, pools, now);
    PoolOffersFree(ia.hints, host, pools, st.leases);
    hide IaOption, Inv, AddBinding, OfferHints, PoolAddr, AllFree;
  }

  lemma {:induction false} MadePrefix(st: State, conf: seq<Value>, ia: IaSpec, host: Host, pools: Pools, now: int)
    requires ia.iatype == PD && FindBinding(st.bindings, host.duid, PD, ia.iaid) < 0
    ensures var m := MakeIa(st, conf, ia, host, pools, true, now);
            m.reply.Some? ==> FromBinding(m.st, host.duid, ia, m.reply)
  {
    hide IaOption, Offers;
    FindAppended(st.bindings, NewBinding(host.duid, PD, ia.iaid, Offers(conf, ia, host, pools, st.leases).list, now));
  }

  lemma {:induction false} NothingMatches(keys: seq<Value>)
    ensures RemoveMatches([], keys) == []
  {
    if keys == [] {
    } else {
      NothingMatches(keys[..|keys| - 1]);
    }
  }

  // All the options made, each from its binding.
  predicate AllFromBindings(st: State, duid: Duid, ias: seq<IaSpec>, replies: seq<Option<ListVal>>) {
    |replies| == |ias| && forall k :: 0 <= k < |ias| && replies[k].Some? ==> FromBinding(st, duid, ias[k], replies[k])
  }

  // One more option behind those of the earlier IAs.
  lemma {:induction false} OneMore(st: State, duid: Duid, ias: seq<IaSpec>, replies: seq<Option<ListVal>>,
                                   reply: Option<ListVal>)
    requires ias != [] && AllFromBindings(st, duid, ias[..|ias| - 1], replies)
    requires reply.Some? ==> FromBinding(st, duid, ias[|ias| - 1], reply)
    ensures AllFromBindings(st, duid, ias, replies + [reply])
  {
    hide FromBinding;
    var n := |ias| - 1;
    forall k | 0 <= k < n ensures ias[..n][k] == ias[k] {
    }
  }

  lemma {:induction false} NoneMade(st: State, conf: seq<Value>, host: Host, pools: Pools, bind: bool, now: int)
    ensures MakeIas(st, conf, [], host, pools, bind, false, now) == MadeAll(st, conf, [])
    ensures AllFromBindings(st, host.duid, [], []) && SameHoldings(st, st)
  {
  }

  lemma {:induction false} PoolOnlyAt(ias: seq<IaSpec>, conf: seq<Value>, host: Host, k: nat, t: IaType,
                                      conf': seq<Value>)
    requires k < |ias| && AllOf(ias, t) && forall j :: 0 <= j < |ias| ==> PoolOnly(ias[j], conf, host)
    requires t == NA ==> conf' == []
    ensures ias[k].iatype == t && PoolOnly(ias[k], conf', host)
    ensures AllOf(ias[..k], t) && forall j :: 0 <= j < k ==> PoolOnly(ias[..k][j], conf, host)
  {
    assert PoolOnly(ias[k], conf, host);
  }

  lemma {:induction false} MadeAllFromBindings(st: State, conf: seq<Value>, ias: seq<IaSpec>, host: Host, pools: Pools,
                                               now: int, t: IaType)
    requires Inv(st) && Typed(conf, t) && AllOf(ias, t) && forall k :: 0 <= k < |ias| ==> PoolOnly(ias[k], conf, host)
    requires t == NA ==> conf == []
    ensures var r := MakeIas(st, conf, ias, host, pools, true, false, now);
            Inv(r.st) && AllFromBindings(r.st, host.duid, ias, r.replies) && (t == NA ==> r.conf == [])
  {
    hide *;
    MakeIasSound(st, conf, ias, host, pools, true, false, now, t);
    IsSound(st, MakeIas(st, conf, ias, host, pools, true, false, now).st);
    if ias == [] {
      NoneMade(st, conf, host, pools, true, now);
    } else {
      var n := |ias| - 1;
      PoolOnlyAt(ias, conf, host, n, t, conf);
      MadeAllFromBindings(st, conf, ias[..n], host, pools, now, t);
      var r := MakeIas(st, conf, ias[..n], host, pools, true, false, now);
      PoolOnlyAt(ias, conf, host, n, t, r.conf);
      MakeIasFirst(st, conf, ias, host, pools, true, now);
      MadeFromBinding(r.st, r.conf, ias[n], host, pools, now);
      KeptAll(r.st, r.conf, ias[n], host, pools, now, ias[..n], r.replies);
      var m := MakeIa(r.st, r.conf, ias[n], host, pools, true, now);
      OneMore(m.st, host.duid, ias, r.replies, m.reply);
    }
  }

  lemma {:induction false} IsSound(st: State, st': State)
    requires Sound(st, st')
    ensures Inv(st')
  {
  }

  lemma {:induction false} KeptAll(st: State, conf: seq<Value>, other: IaSpec, host: Host, pools: Pools, now: int,
                                   ias: seq<IaSpec>, replies: seq<Option<ListVal>>)
    requires AllFromBindings(st, host.duid, ias, replies)
    ensures AllFromBindings(MakeIa(st, conf, other, host, pools, true, now).st, host.duid, ias, replies)
  {
    hide MakeIa, FromBinding;
    forall k | 0 <= k < |ias| && replies[k].Some?
      ensures FromBinding(MakeIa(st, conf, other, host, pools, true, now).st, host.duid, ias[k], replies[k])
    {
      KeptByMakeIa(st, conf, other, host, pools, now, ias[k], replies[k]);
    }
  }

  lemma {:induction false} MakeIasFirst(st: State, conf: seq<Value>, ias: seq<IaSpec>, host: Host, pools: Pools,
                                        bind: bool, now: int)
    requires ias != []
    ensures var n := |ias| - 1;
            var r := MakeIas(st, conf, ias[..n], host, pools, bind, false, now);
            var m := MakeIa(r.st, r.conf, ias[n], host, pools, bind, now);
            MakeIas(st, conf, ias, host, pools, bind, false, now) == MadeAll(m.st, m.conf, r.replies + [m.reply])
  {
    hide MakeIa;
  }

  lemma {:induction false} KeptByMakeIa(st: State, conf: seq<Value>, other: IaSpec, host: Host, pools: Pools, now: int,
                                        ia: IaSpec, reply: Option<ListVal>)
    requires FromBinding(st, host.duid, ia, reply)
    ensures FromBinding(MakeIa(st, conf, other, host, pools, true, now).st, host.duid, ia, reply)
  {
    hide MakeIa, IaOption, FindBinding;
    var v := st.bindings[FindBinding(st.bindings, host.duid, ia.iatype, ia.iaid)].vals;
    MakeIaKeepsBound(st, conf, other, host, pools, true, now, host.duid, ia.iatype, ia.iaid, v);
  }

  /** Nothing but times may differ: the same leases, and the same bindings with the
      same keys and values. */
  predicate SameHoldings(st: State, st': State) {
    && st'.leases == st.leases && |st'.bindings| == |st.bindings|
    && forall i :: 0 <= i < |st.bindings| ==>
         SameKey(st'.bindings[i], st.bindings[i]) && st'.bindings[i].vals == st.bindings[i].vals
  }

  /** Nothing held is touched: leases may be added, and bindings behind those there are. */
  predicate Extends(st: State, st': State) {
    && |st.bindings| <= |st'.bindings|
    && (forall i :: 0 <= i < |st.bindings| ==>
         SameKey(st'.bindings[i], st.bindings[i]) && st'.bindings[i].vals == st.bindings[i].vals)
    && (forall a :: a in st.leases ==> a in st'.leases && st'.leases[a] == st.leases[a])
  }

  lemma {:induction false} LeaseAllExtends(vals: seq<Value>, m: map<Addr, bool>, a: Addr)
    requires a in m
    ensures a in LeaseAll(vals, m).1 && LeaseAll(vals, m).1[a] == m[a]
  {
    if vals == [] {
    } else {
      LeaseAllExtends(vals[..|vals| - 1], m, a);
    }
  }

  lemma {:induction false} MakeIaExtends(st: State, conf: seq<Value>, ia: IaSpec, host: Host, pools: Pools, now: int)
    ensures Extends(st, MakeIa(st, conf, ia, host, pools, true, now).st)
  {
    hide Offers, IaOption, LeaseAll;
    var vals := Offers(conf, ia, host, pools, st.leases).list;
    var m := LeaseAll(vals, st.leases).1;
    forall a | a in st.leases ensures a in m && m[a] == st.leases[a] {
      LeaseAllExtends(vals, st.leases, a);
    }
  }

  lemma {:induction false} ExtendsTwice(a: State, b: State, c: State)
    requires Extends(a, b) && Extends(b, c)
    ensures Extends(a, c)
  {
  }

  lemma {:induction false} ExtendsSelf(st: State)
    ensures Extends(st, st)
  {
  }

  // The options that were made come back, whatever happens to the other IAs.
  predicate Repeats(before: seq<Option<ListVal>>, after: seq<Option<ListVal>>) {
    |after| == |before| && forall k :: 0 <= k < |before| && before[k].Some? ==> after[k] == before[k]
  }

  lemma {:induction false} BoundAnswers(st: State, conf: seq<Value>, ias: seq<IaSpec>, host: Host, pools: Pools,
                                        now: int, replies: seq<Option<ListVal>>)
    requires AllFromBindings(st, host.duid, ias, replies)
    ensures var r := MakeIas(st, conf, ias, host, pools, true, false, now);
            && Repeats(replies, r.replies) && Extends(st, r.st)
            && (None !in replies ==> SameHoldings(st, r.st))
  {
    hide *;
    if ias == [] {
      NoneAnswered(st, host.duid, replies);
      NoneMade(st, conf, host, pools, true, now);
      ExtendsSelf(st);
    } else {
      var n := |ias| - 1;
      var r := MakeIas(st, conf, ias[..n], host, pools, true, false, now);
      MakeIasFirst(st, conf, ias, host, pools, true, now);
      OneFewer(st, host.duid, ias, replies);
      BoundAnswers(st, conf, ias[..n], host, pools, now, replies[..n]);
      MakeIasKeepsAll(st, conf, ias[..n], host, pools, now, ias, replies);
      OneFewer(r.st, host.duid, ias, replies);
      var m := MakeIa(r.st, r.conf, ias[n], host, pools, true, now);
      if replies[n].Some? {
        BoundAnswer(r.st, r.conf, ias[n], host, pools, now, replies[n]);
      }
      MakeIaExtends(r.st, r.conf, ias[n], host, pools, now);
      ExtendsTwice(st, r.st, m.st);
      RepeatsMore(replies, r.replies, m.reply);
      if None !in replies {
        assert replies[n] in replies;
        SameTwice(st, r.st, m.st);
      }
    }
  }

  lemma {:induction false} RepeatsMore(replies: seq<Option<ListVal>>, after: seq<Option<ListVal>>,
                                       reply: Option<ListVal>)
    requires replies != [] && Repeats(replies[..|replies| - 1], after)
    requires replies[|replies| - 1].Some? ==> reply == replies[|replies| - 1]
    ensures Repeats(replies, after + [reply])
  {
    var n := |replies| - 1;
    forall k | 0 <= k < n ensures replies[..n][k] == replies[k] {
    }
  }

  lemma {:induction false} NoneAnswered(st: State, duid: Duid, replies: seq<Option<ListVal>>)
    requires AllFromBindings(st, duid, [], replies)
    ensures replies == [] && Repeats(replies, [])
  {
  }

  lemma {:induction false} OneFewer(st: State, duid: Duid, ias: seq<IaSpec>, replies: seq<Option<ListVal>>)
    requires ias != [] && AllFromBindings(st, duid, ias, replies)
    ensures var n := |ias| - 1;
            && |replies| == n + 1 && AllFromBindings(st, duid, ias[..n], replies[..n])
            && (replies[n].Some? ==> FromBinding(st, duid, ias[n], replies[n]))
            && (None !in replies ==> None !in replies[..n])
  {
    hide FromBinding;
    var n := |ias| - 1;
    forall k | 0 <= k < n ensures ias[..n][k] == ias[k] && replies[..n][k] == replies[k] {
    }
  }

  lemma {:induction false} BoundAnswer(st: State, conf: seq<Value>, ia: IaSpec, host: Host, pools: Pools, now: int,
                                       reply: Option<ListVal>)
    requires FromBinding(st, host.duid, ia, reply)
    ensures var m := MakeIa(st, conf, ia, host, pools, true, now); m.reply == reply && SameHoldings(st, m.st)
  {
    hide IaOption;
  }

  lemma {:induction false} SameTwice(a: State, b: State, c: State)
    requires SameHoldings(a, b) && SameHoldings(b, c)
    ensures SameHoldings(a, c)
  {
  }

  // No event touches the binding of an IA that was granted.
  predicate SparesGranted(evs: seq<Event>, duid: Duid, ias: seq<IaSpec>, replies: seq<Option<ListVal>>) {
    forall j, k :: 0 <= j < |evs| && 0 <= k < |ias| && k < |replies| && replies[k].Some? ==>
      Spares(evs[j], duid, ias[k].iatype, ias[k].iaid)
  }

  lemma {:induction false} RunKeepsAll(st: State, evs: seq<Event>, duid: Duid, ias: seq<IaSpec>,
                                       replies: seq<Option<ListVal>>)
    requires AllFromBindings(st, duid, ias, replies) && SparesGranted(evs, duid, ias, replies)
    ensures AllFromBindings(Run(st, evs), duid, ias, replies)
  {
    hide Run, IaOption, FindBinding, Spares;
    forall k | 0 <= k < |ias| && replies[k].Some? ensures FromBinding(Run(st, evs), duid, ias[k], replies[k]) {
      var v := st.bindings[FindBinding(st.bindings, duid, ias[k].iatype, ias[k].iaid)].vals;
      RunKeepsBound(st, evs, duid, ias[k].iatype, ias[k].iaid, v);
    }
  }

  lemma {:induction false} MakeIasKeepsAll(st: State, conf: seq<Value>, other: seq<IaSpec>, host: Host, pools: Pools,
                                           now: int, ias: seq<IaSpec>, replies: seq<Option<ListVal>>)
    requires AllFromBindings(st, host.duid, ias, replies)
    ensures AllFromBindings(MakeIas(st, conf, other, host, pools, true, false, now).st, host.duid, ias, replies)
  {
    hide MakeIas, IaOption, FindBinding;
    var st' := MakeIas(st, conf, other, host, pools, true, false, now).st;
    forall k | 0 <= k < |ias| && replies[k].Some? ensures FromBinding(st', host.duid, ias[k], replies[k]) {
      var v := st.bindings[FindBinding(st.bindings, host.duid, ias[k].iatype, ias[k].iaid)].vals;
      MakeIasKeepsBound(st, conf, other, host, pools, true, false, now, host.duid, ias[k].iatype, ias[k].iaid, v);
    }
  }

  // A Request of a client whose addresses come from a pool.
  predicate PoolRequest(ev: Event) {
    && ev.Request? && EventOk(ev) && ev.host.addrs == [] && ev.host.pool.Some?
    && forall k :: 0 <= k < |ev.iana| ==> DistinctHints(ev.iana[k].hints)
  }

  lemma {:induction false} RequestBinds(st: State, ev: Event)
    requires Inv(st) && ev.Request? && PoolRequest(ev)
    ensures AllFromBindings(Step(st, ev), ev.host.duid, ev.iapd, MadePd(st, ev, true).replies)
    ensures AllFromBindings(Step(st, ev), ev.host.duid, ev.iana, MadeNa(st, ev, true).replies)
  {
    hide MakeIas, AllFromBindings, DistinctHints, Inv;
    var st1 := MadePd(st, ev, true).st;
    MadeAllFromBindings(st, ev.host.prefixes, ev.iapd, ev.host, ev.pools, ev.now, PD);
    MakeIasKeepsAll(st1, ev.host.addrs, ev.iana, ev.host, ev.pools, ev.now, ev.iapd, MadePd(st, ev, true).replies);
    MadeAllFromBindings(st1, ev.host.addrs, ev.iana, ev.host, ev.pools, ev.now, NA);
  }

  /** A pool-backed client repeats a whole Request, for any number of addresses and
      prefixes, whatever else the server did in between short of touching the bindings
      that were granted, and whatever the pools are by then: every option granted comes
      back unchanged, nothing held is touched, and if everything had been granted no
      lease, no binding and no value changes at all. */
  lemma {:induction false} RepeatedMessage(st: State, ev: Event, evs: seq<Event>, pools': Pools, now': int)
    requires Inv(st) && ev.Request? && PoolRequest(ev)
    requires SparesGranted(evs, ev.host.duid, ev.iapd, MadePd(st, ev, true).replies)
    requires SparesGranted(evs, ev.host.duid, ev.iana, MadeNa(st, ev, true).replies)
    ensures var st1, again := Run(Step(st, ev), evs), Request(ev.host, pools', ev.iapd, ev.iana, now');
            var pd, na := MadePd(st, ev, true).replies, MadeNa(st, ev, true).replies;
            && Repeats(pd, MadePd(st1, again, true).replies) && Repeats(na, MadeNa(st1, again, true).replies)
            && Extends(st1, Step(st1, again))
            && (None !in pd && None !in na ==> SameHoldings(st1, Step(st1, again)))
  {
    hide MakeIas, AllFromBindings, Run, SparesGranted, SameHoldings, Extends, Repeats, Inv, PoolRequest;
    var st1, again := Run(Step(st, ev), evs), Request(ev.host, pools', ev.iapd, ev.iana, now');
    var pd, na := MadePd(st, ev, true).replies, MadeNa(st, ev, true).replies;
    var d := ev.host.duid;
    RequestBinds(st, ev);
    RunKeepsAll(Step(st, ev), evs, d, ev.iapd, pd);
    RunKeepsAll(Step(st, ev), evs, d, ev.iana, na);
    BoundAnswers(st1, ev.host.prefixes, ev.iapd, ev.host, pools', now', pd);
    var st2 := MadePd(st1, again, true).st;
    MakeIasKeepsAll(st1, ev.host.prefixes, ev.iapd, ev.host, pools', now', ev.iana, na);
    BoundAnswers(st2, ev.host.addrs, ev.iana, ev.host, pools', now', na);
    ExtendsTwice(st1, st2, Step(st1, again));
    if None !in pd && None !in na {
      SameTwice(st1, st2, Step(st1, again));
    }
  }
}
