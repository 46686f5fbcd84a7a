/** No binding ever holds a value twice: the configuration refuses duplicates
    (config.c), and nothing the server does introduces one. */
module Twinless {
  import opened Bytes
  import opened ListVals
  import opened Bindings
  import opened BindingInvariants
  import opened ServerRuns

  /** No two values of a list name the same address or prefix. */
  predicate NoTwins(vals: seq<Value>) {
    forall j, k :: 0 <= j < k < |vals| ==> !Matches(vals[j], vals[k])
  }

  // For addresses the lease table sees to it; this is about the prefixes.
  predicate NoTwinPrefixes(st: State) {
    forall i :: 0 <= i < |st.bindings| && st.bindings[i].iatype == PD ==> NoTwins(st.bindings[i].vals)
  }

  lemma {:induction false} RemovedNoTwins(s: seq<Value>, i: nat)
    requires i < |s| && NoTwins(s)
    ensures NoTwins(RemoveAt(s, i))
  {
    hide Matches;
    var r := RemoveAt(s, i);
    assert forall k :: 0 <= k < |r| ==> r[k] == s[if k < i then k else k + 1];
  }

  lemma {:induction false} AddressesDiffer(st: State, i: nat)
    requires Inv(st) && i < |st.bindings| && st.bindings[i].iatype == NA
    ensures NoTwins(st.bindings[i].vals)
  {
    hide Held, Leased;
    var vals := st.bindings[i].vals;
    forall j, k | 0 <= j < k < |vals| ensures !Matches(vals[j], vals[k]) {
      if Matches(vals[j], vals[k]) {
        HeldSplit(st.bindings, i, vals[k].addr);
        CountRemoveAt(vals, k, vals[k].addr);
        CountAt(RemoveAt(vals, k), j);
        CountAt([vals[k]], 0);
        AtMostOne(st, vals[k].addr);
      }
    }
  }

  lemma {:induction false} AtMostOne(st: State, a: Addr)
    requires Inv(st)
    ensures Held(st.bindings, a) <= 1
  {
  }

  /** Whatever binding it is, its values are all different. */
  lemma {:induction false} BindingNoTwins(st: State, i: nat)
    requires Inv(st) && NoTwinPrefixes(st) && i < |st.bindings|
    ensures NoTwins(st.bindings[i].vals)
  {
    hide Inv, NoTwins;
    if st.bindings[i].iatype == NA {
      AddressesDiffer(st, i);
    }
  }

  // ---- what is offered ---------------------------------------------------

  // Moving a value from one list to the end of the other keeps all of them different.
  lemma {:induction false} MovedNoTwins(list: seq<Value>, conf: seq<Value>, i: nat)
    requires i < |conf| && Typed(conf, PD) && Typed(list, PD) && NoTwins(list + conf)
    ensures NoTwins(list + [conf[i]] + RemoveAt(conf, i)) && Typed(list + [conf[i]], PD) && Typed(RemoveAt(conf, i), PD)
  {
    var all, r, n := list + conf, list + [conf[i]] + RemoveAt(conf, i), |list|;
    assert forall k :: 0 <= k < |r| ==>
        r[k] == all[if k < n then k else if k == n then n + i else if k <= n + i then k - 1 else k];
    assert forall k :: 0 <= k < |all| ==> all[k].Prefix?;
  }

  lemma {:induction false} OfferHintNoTwins(o: Offer, h: Value, host: Host, pools: Pools, leases: map<Addr, bool>)
    requires Typed(o.conf, PD) && Typed(o.list, PD) && NoTwins(o.list + o.conf)
    ensures var r := OfferHint(o, h, host, PD, pools, leases);
            Typed(r.conf, PD) && Typed(r.list, PD) && NoTwins(r.list + r.conf)
  {
    hide NoTwins, Typed, MatchIndex;
    if o.conf != [] && MatchIndex(o.conf, h) >= 0 {
      MovedNoTwins(o.list, o.conf, MatchIndex(o.conf, h));
    }
  }

  lemma {:induction false} OfferHintsNoTwins(conf: seq<Value>, hints: seq<Value>, host: Host, pools: Pools,
                                             leases: map<Addr, bool>)
    requires Typed(conf, PD) && NoTwins(conf)
    ensures var r := OfferHints(conf, hints, host, PD, pools, leases);
            Typed(r.conf, PD) && Typed(r.list, PD) && NoTwins(r.list + r.conf)
  {
    hide NoTwins, OfferHint;
    if hints == [] {
      assert [] + conf == conf;
    } else {
      OfferHintsNoTwins(conf, hints[..|hints| - 1], host, pools, leases);
      OfferHintNoTwins(OfferHints(conf, hints[..|hints| - 1], host, PD, pools, leases), hints[|hints| - 1],
                       host, pools, leases);
    }
  }

  /** Prefixes are handed out without repetition, and none of those left is among them. */
  lemma {:induction false} OffersNoTwins(conf: seq<Value>, ia: IaSpec, host: Host, pools: Pools,
                                         leases: map<Addr, bool>)
    requires ia.iatype == PD && Typed(conf, PD) && NoTwins(conf)
    ensures var r := Offers(conf, ia, host, pools, leases);
            Typed(r.conf, PD) && Typed(r.list, PD) && NoTwins(r.list + r.conf)
  {
    hide NoTwins, Typed, OfferHints, FirstFree;
    OfferHintsNoTwins(conf, ia.hints, host, pools, leases);
    var o := OfferHints(conf, ia.hints, host, PD, pools, leases);
    if o.list == [] && o.conf != [] && FirstFree(o.conf, PD, leases) >= 0 {
      MovedNoTwins(o.list, o.conf, FirstFree(o.conf, PD, leases));
    }
  }

  lemma {:induction false} BothNoTwins(list: seq<Value>, conf: seq<Value>)
    requires NoTwins(list + conf)
    ensures NoTwins(list) && NoTwins(conf)
  {
    hide Matches;
    var all := list + conf;
    assert forall k :: 0 <= k < |list| ==> all[k] == list[k];
    assert forall k :: 0 <= k < |conf| ==> all[|list| + k] == conf[k];
  }

  lemma {:induction false} UnmatchedNoTwins(conf: seq<Value>, keys: seq<Value>)
    requires NoTwins(conf)
    ensures NoTwins(RemoveMatches(conf, keys))
  {
    hide NoTwins;
    if keys == [] {
    } else {
      var c := RemoveMatches(conf, keys[..|keys| - 1]);
      UnmatchedNoTwins(conf, keys[..|keys| - 1]);
      if Find(c, keys[|keys| - 1]) >= 0 {
        RemovedNoTwins(c, Find(c, keys[|keys| - 1]));
      }
    }
  }

  lemma {:induction false} PushedNoTwins(st: State, b: Binding, leases: map<Addr, bool>)
    requires NoTwinPrefixes(st) && (b.iatype == PD ==> NoTwins(b.vals))
    ensures NoTwinPrefixes(State(st.bindings + [b], leases))
  {
    hide NoTwins;
  }

  lemma {:induction false} RenewedNoTwins(st: State, i: nat, now: int)
    requires i < |st.bindings| && NoTwinPrefixes(st)
    ensures NoTwinPrefixes(RenewAt(st, i, now))
  {
    hide NoTwins;
  }

  lemma {:induction false} MakeIaNoTwins(st: State, conf: seq<Value>, ia: IaSpec, host: Host, pools: Pools, bind: bool,
                                         now: int)
    requires NoTwinPrefixes(st) && (ia.iatype == PD ==> Typed(conf, PD) && NoTwins(conf))
    ensures var m := MakeIa(st, conf, ia, host, pools, bind, now);
            NoTwinPrefixes(m.st) && (ia.iatype == PD ==> Typed(m.conf, PD) && NoTwins(m.conf))
  {
    hide NoTwins, NoTwinPrefixes, Typed, Offers, RemoveMatches, Renewed, IaOption, LeaseAll;
    var i := FindBinding(st.bindings, host.duid, ia.iatype, ia.iaid);
    if i >= 0 {
      RenewedNoTwins(st, i, now);
      if ia.iatype == PD {
        UnmatchedNoTwins(conf, st.bindings[i].vals);
        RemoveMatchesTyped(conf, st.bindings[i].vals, PD);
      }
    } else if ia.iatype == PD {
      OffersNoTwins(conf, ia, host, pools, st.leases);
      var o := Offers(conf, ia, host, pools, st.leases);
      BothNoTwins(o.list, o.conf);
      PushedNoTwins(st, NewBinding(host.duid, PD, ia.iaid, o.list, now), st.leases);
    } else {
      var o := Offers(conf, ia, host, pools, st.leases);
      var r := LeaseAll(o.list, st.leases);
      PushedNoTwins(st, NewBinding(host.duid, NA, ia.iaid, r.0, now), r.1);
    }
  }

  lemma {:induction false} MakeIasNoTwins(st: State, conf: seq<Value>, ias: seq<IaSpec>, host: Host, pools: Pools,
                                          bind: bool, stop: bool, now: int, t: IaType)
    requires NoTwinPrefixes(st) && AllOf(ias, t) && (t == PD ==> Typed(conf, PD) && NoTwins(conf))
    ensures var r := MakeIas(st, conf, ias, host, pools, bind, stop, now);
            NoTwinPrefixes(r.st) && (t == PD ==> Typed(r.conf, PD) && NoTwins(r.conf))
  {
    hide NoTwins, NoTwinPrefixes, Typed, MakeIa;
    if ias == [] {
    } else {
      var n := |ias| - 1;
      MakeIasNoTwins(st, conf, ias[..n], host, pools, bind, stop, now, t);
      var r := MakeIas(st, conf, ias[..n], host, pools, bind, stop, now);
      MakeIaNoTwins(r.st, r.conf, ias[n], host, pools, bind, now);
    }
  }

  // ---- what is cut down --------------------------------------------------

  lemma {:induction false} CutNoTwins(vals: seq<Value>, hints: seq<Value>)
    requires NoTwins(vals)
    ensures NoTwins(Cut(vals, hints).0)
  {
    hide NoTwins;
    if hints == [] {
    } else {
      CutNoTwins(vals, hints[..|hints| - 1]);
      var left := Cut(vals, hints[..|hints| - 1]).0;
      if Find(left, hints[|hints| - 1]) >= 0 {
        RemovedNoTwins(left, Find(left, hints[|hints| - 1]));
      }
    }
  }

  lemma {:induction false} LiveNoTwins(vals: seq<Value>, past: uint32)
    requires NoTwins(vals)
    ensures NoTwins(Live(vals, past))
    ensures forall v :: v in Live(vals, past) ==> v in vals
  {
    hide Matches, Expired;
    if vals == [] {
    } else {
      var n := |vals| - 1;
      LiveNoTwins(vals[..n], past);
      var r := Live(vals[..n], past);
      forall k | 0 <= k < |r| ensures !Matches(r[k], vals[n]) && r[k] in vals {
        assert r[k] in vals[..n];
        var j :| 0 <= j < n && vals[..n][j] == r[k];
        assert vals[j] == r[k];
      }
    }
  }

  lemma {:induction false} ReleasesNoTwins(st: State, duid: Duid, ias: seq<IaSpec>)
    requires NoTwinPrefixes(st)
    ensures NoTwinPrefixes(ReleaseIas(st, duid, ias))
  {
    hide NoTwins, Cut, AddrSet;
    if ias == [] {
    } else {
      ReleasesNoTwins(st, duid, ias[..|ias| - 1]);
      var st1, ia := ReleaseIas(st, duid, ias[..|ias| - 1]), ias[|ias| - 1];
      var i := FindBinding(st1.bindings, duid, ia.iatype, ia.iaid);
      if i >= 0 && ia.iatype == PD {
        CutNoTwins(st1.bindings[i].vals, ia.hints);
      }
    }
  }

  lemma {:induction false} DeclinesNoTwins(st: State, duid: Duid, ias: seq<IaSpec>)
    requires NoTwinPrefixes(st)
    ensures NoTwinPrefixes(DeclineIas(st, duid, ias))
  {
    hide NoTwins, Cut, AddrSet, DeclineAll;
    if ias == [] {
    } else {
      DeclinesNoTwins(st, duid, ias[..|ias| - 1]);
    }
  }

  lemma {:induction false} UpdatesNoTwins(st: State, duid: Duid, ias: seq<IaSpec>, stop: bool, now: int)
    requires NoTwinPrefixes(st)
    ensures NoTwinPrefixes(UpdateIas(st, duid, ias, stop, now).0)
  {
    hide NoTwins, NoTwinPrefixes, Renewed;
    if ias == [] {
    } else {
      UpdatesNoTwins(st, duid, ias[..|ias| - 1], stop, now);
      var st1, ia := UpdateIas(st, duid, ias[..|ias| - 1], stop, now).0, ias[|ias| - 1];
      var i := FindBinding(st1.bindings, duid, ia.iatype, ia.iaid);
      if i >= 0 {
        RenewedNoTwins(st1, i, now);
      }
    }
  }

  lemma {:induction false} TimeoutNoTwins(st: State, i: nat, now: int)
    requires i < |st.bindings| && NoTwinPrefixes(st)
    ensures NoTwinPrefixes(Timeout(st, i, now))
  {
    hide NoTwins, Live, ExpiredAddrs, Duration, Past;
    var b := st.bindings[i];
    if b.iatype == PD {
      LiveNoTwins(b.vals, Past(now, b.updatetime));
    }
  }

  // ---- every run ---------------------------------------------------------

  /** The prefixes configured for the host of a Request or Solicit are all different. */
  predicate ConfiguredOnce(ev: Event) {
    (ev.Request? || ev.Solicit?) ==> NoTwins(ev.host.prefixes)
  }

  lemma {:induction false} BindBothNoTwins(st: State, ev: Event, bind: bool)
    requires (ev.Request? || ev.Solicit?) && EventOk(ev) && ConfiguredOnce(ev) && NoTwinPrefixes(st)
    ensures NoTwinPrefixes(BindBoth(st, ev, bind))
  {
    hide NoTwins, NoTwinPrefixes, MakeIas;
    MakeIasNoTwins(st, ev.host.prefixes, ev.iapd, ev.host, ev.pools, bind, false, ev.now, PD);
    MakeIasNoTwins(MadePd(st, ev, bind).st, ev.host.addrs, ev.iana, ev.host, ev.pools, bind, false, ev.now, NA);
  }

  lemma {:induction false} StepNoTwins(st: State, ev: Event)
    requires EventOk(ev) && ConfiguredOnce(ev) && NoTwinPrefixes(st)
    ensures NoTwinPrefixes(Step(st, ev))
  {
    hide NoTwins, NoTwinPrefixes, MakeIas, UpdateIas, ReleaseIas, DeclineIas, Timeout, BindBoth;
    match ev
    case Request(_, _, _, _, _) => BindBothNoTwins(st, ev, true);
    case Solicit(_, _, _, _, commit, _) => BindBothNoTwins(st, ev, commit);
    case Confirm(host, pools, iana, _, now) =>
      MakeIasNoTwins(st, host.addrs, iana, host, pools, true, true, now, NA);
    case Renew(duid, ias, now) => UpdatesNoTwins(st, duid, ias, false, now);
    case Rebind(duid, ias, now) => UpdatesNoTwins(st, duid, ias, true, now);
    case Release(duid, ias) => ReleasesNoTwins(st, duid, ias);
    case Decline(duid, ias) => DeclinesNoTwins(st, duid, ias);
    case Timer(duid, t, iaid, now) =>
      if FindBinding(st.bindings, duid, t, iaid) >= 0 {
        TimeoutNoTwins(st, FindBinding(st.bindings, duid, t, iaid), now);
      }
    case Remove(duid, iaid) =>
      var i := RemoveTarget(st.bindings, duid, iaid);
      if i >= 0 {
        RemovalNoTwins(st, i);
      }
  }

  lemma {:induction false} RemovalNoTwins(st: State, i: nat)
    requires i < |st.bindings| && NoTwinPrefixes(st)
    ensures NoTwinPrefixes(RemoveBinding(st, i))
  {
    hide NoTwins, Freed;
  }

  /** Over any run no binding comes to hold a prefix twice. */
  lemma {:induction false} RunNoTwins(st: State, evs: seq<Event>)
    requires NoTwinPrefixes(st) && EventsOk(evs) && forall i :: 0 <= i < |evs| ==> ConfiguredOnce(evs[i])
    ensures NoTwinPrefixes(Run(st, evs))
  {
    hide NoTwinPrefixes, Step, ConfiguredOnce, EventOk;
    if evs == [] {
    } else {
      RunNoTwins(st, evs[..|evs| - 1]);
      StepNoTwins(Run(st, evs[..|evs| - 1]), evs[|evs| - 1]);
    }
  }
}
