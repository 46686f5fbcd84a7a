/** What a Renew or Rebind is answered with (dhcp6s.c): the addresses or prefixes it
    names, with the lifetimes the server holds for them. */
module RenewReplies {
  import opened Bytes
  import opened ListVals
  import opened Bindings
  import opened BindingInvariants
  import opened ServerRuns
  import opened ServerReplies
  import opened ServerMessages
  import opened Server
  import opened Twinless

  // ---- one IA ------------------------------------------------------------

  predicate OwnKind(v: Value, t: IaType) {
    if t == NA then v.StatefulAddr? else v.Prefix?
  }

  /** The hints that are of the IA's kind, in the order sent. */
  function OwnHints(hints: seq<Value>, t: IaType): seq<Value> {
    if hints == [] then []
    else if OwnKind(hints[0], t) then [hints[0]] + OwnHints(hints[1..], t)
    else OwnHints(hints[1..], t)
  }

  /** Two values name the same address, or the same prefix and length. */
  predicate SameName(v: Value, w: Value) {
    || (v.StatefulAddr? && w.StatefulAddr? && v.addr == w.addr)
    || (v.Prefix? && w.Prefix? && v.addr == w.addr && v.plen == w.plen)
  }

  // Position `j` is the first of the list with the name of `h`.
  predicate FirstNamed(bound: seq<Value>, h: Value, j: int) {
    0 <= j < |bound| && SameName(bound[j], h) && forall i :: 0 <= i < j ==> !SameName(bound[i], h)
  }

  /** `v` answers the hint `h`: the same name, with the lifetimes the binding has for
      it, and both zero exactly when the binding does not have it. */
  ghost predicate AnswersHint(bound: seq<Value>, h: Value, v: Value) {
    && SameName(v, h)
    && (forall j :: FirstNamed(bound, h, j) ==>
          (bound[j].StatefulAddr? || bound[j].Prefix?) && v.pltime == bound[j].pltime && v.vltime == bound[j].vltime)
    && ((forall j :: 0 <= j < |bound| ==> !SameName(bound[j], h)) ==> v.pltime == 0 && v.vltime == 0)
  }

  lemma {:induction false} MatchIsName(v: Value, h: Value)
    requires h.StatefulAddr? || h.Prefix?
    ensures Matches(v, h) <==> SameName(v, h)
  {
  }

  // The answer to one hint, as update_ia puts it together.
  function AnswerOne(bound: seq<Value>, h: Value): Value
    requires h.StatefulAddr? || h.Prefix?
  {
    var i := Find(bound, h);
    if i < 0 then h.(pltime := 0, vltime := 0) else h.(pltime := Pltime(bound[i]), vltime := Vltime(bound[i]))
  }

  lemma {:induction false} OneAnswers(bound: seq<Value>, h: Value)
    requires h.StatefulAddr? || h.Prefix?
    ensures AnswersHint(bound, h, AnswerOne(bound, h))
  {
    forall j | 0 <= j < |bound| ensures Matches(bound[j], h) <==> SameName(bound[j], h) {
      MatchIsName(bound[j], h);
    }
    var i := Find(bound, h);
    forall j | FirstNamed(bound, h, j) ensures i == j {
    }
  }

  lemma {:induction false} OwnHintsPush(hints: seq<Value>, h: Value, t: IaType)
    ensures OwnHints(hints + [h], t) == OwnHints(hints, t) + if OwnKind(h, t) then [h] else []
    decreases |hints|
  {
    if hints == [] {
      assert ([] + [h])[1..] == [];
    } else {
      OwnHintsPush(hints[1..], h, t);
      assert (hints + [h])[1..] == hints[1..] + [h];
    }
  }

  lemma {:induction false} OwnHintsOwn(hints: seq<Value>, t: IaType)
    ensures Typed(OwnHints(hints, t), t)
    ensures Typed(hints, t) ==> OwnHints(hints, t) == hints
  {
    if hints == [] {
    } else {
      OwnHintsOwn(hints[1..], t);
    }
  }

  lemma {:induction false} RenewPush(bound: seq<Value>, hints: seq<Value>, h: Value, t: IaType)
    ensures RenewVals(bound, hints + [h], t) ==
            RenewVals(bound, hints, t) + if OwnKind(h, t) then [AnswerOne(bound, h)] else []
  {
    assert (hints + [h])[..|hints|] == hints;
  }

  /** A Renew or Rebind of one IA is answered with exactly the hints of the IA's kind,
      in order, each with the lifetimes of the binding's value of that name, or with
      both zero if and only if the binding has none. */
  lemma {:induction false} RenewAnswers(bound: seq<Value>, hints: seq<Value>, t: IaType)
    ensures |RenewVals(bound, hints, t)| == |OwnHints(hints, t)|
    ensures forall k :: 0 <= k < |OwnHints(hints, t)| ==>
              AnswersHint(bound, OwnHints(hints, t)[k], RenewVals(bound, hints, t)[k])
  {
    hide AnswersHint, AnswerOne, RenewVals;
    if hints == [] {
      NoHints(bound, t);
    } else {
      var n := |hints| - 1;
      RenewAnswers(bound, hints[..n], t);
      assert hints == hints[..n] + [hints[n]];
      OwnHintsPush(hints[..n], hints[n], t);
      RenewPush(bound, hints[..n], hints[n], t);
      if OwnKind(hints[n], t) {
        OneAnswers(bound, hints[n]);
      }
    }
  }

  lemma {:induction false} NoHints(bound: seq<Value>, t: IaType)
    ensures RenewVals(bound, [], t) == []
  {
  }

  /** An IA without a binding is answered NoBinding, any other with its identity and
      these values; the binding itself is not consulted for anything else. */
  lemma {:induction false} AnswerCases(bs: seq<Binding>, duid: Duid, ia: IaSpec)
    ensures var i, r := FindBinding(bs, duid, ia.iatype, ia.iaid), UpdateAnswer(bs, duid, ia);
            && r.val.Ia? && r.val.iatype == ia.iatype && r.val.iaid == ia.iaid
            && (i < 0 ==> r.sub == [ListVal(StCode(NOBINDING), [])] && r.val.t1 == 0 && r.val.t2 == 0)
            && (i >= 0 ==>
                  && |r.sub| == |OwnHints(ia.hints, ia.iatype)|
                  && forall k :: 0 <= k < |r.sub| ==>
                       && r.sub[k].sub == []
                       && AnswersHint(bs[i].vals, OwnHints(ia.hints, ia.iatype)[k], r.sub[k].val))
  {
    hide RenewVals, OwnHints, AnswersHint, FindBinding, MinPltime;
    var i := FindBinding(bs, duid, ia.iatype, ia.iaid);
    if i >= 0 {
      RenewAnswers(bs[i].vals, ia.hints, ia.iatype);
    }
  }

  // ---- asking for what was granted ---------------------------------------

  lemma {:induction false} AnswerBound(bound: seq<Value>, j: nat)
    requires NoTwins(bound) && j < |bound| && (bound[j].StatefulAddr? || bound[j].Prefix?)
    ensures AnswerOne(bound, bound[j]) == bound[j]
  {
    assert Matches(bound[j], bound[j]);
    assert Find(bound, bound[j]) == j;
  }

  /** When a value comes back as it was sent: it is one the binding holds, or it came
      with zero lifetimes and the binding does not know it. */
  lemma {:induction false} SameBack(bound: seq<Value>, v: Value)
    requires NoTwins(bound) && (v.StatefulAddr? || v.Prefix?)
    ensures AnswerOne(bound, v) == v <==> v in bound || (Find(bound, v) < 0 && v.pltime == 0 && v.vltime == 0)
  {
    if v in bound {
      var j :| 0 <= j < |bound| && bound[j] == v;
      AnswerBound(bound, j);
    } else if Find(bound, v) >= 0 {
      assert Matches(bound[Find(bound, v)], v);
    }
  }

  lemma {:induction false} RenewTyped(bound: seq<Value>, vals: seq<Value>, t: IaType)
    requires Typed(vals, t)
    ensures |RenewVals(bound, vals, t)| == |vals|
    ensures forall k :: 0 <= k < |vals| ==> RenewVals(bound, vals, t)[k] == AnswerOne(bound, vals[k])
  {
    hide AnswerOne, RenewVals;
    if vals == [] {
      NoHints(bound, t);
    } else {
      var n := |vals| - 1;
      RenewTyped(bound, vals[..n], t);
      assert vals == vals[..n] + [vals[n]];
      RenewPush(bound, vals[..n], vals[n], t);
    }
  }

  /** A list of values is answered unchanged if and only if the binding holds every one
      of them, up to those of zero lifetime that it does not know. */
  lemma {:induction false} RenewUnchanged(bound: seq<Value>, vals: seq<Value>, t: IaType)
    requires NoTwins(bound) && Typed(vals, t)
    ensures RenewVals(bound, vals, t) == vals <==>
            forall k :: 0 <= k < |vals| ==>
              vals[k] in bound || (Find(bound, vals[k]) < 0 && vals[k].pltime == 0 && vals[k].vltime == 0)
  {
    hide AnswerOne, RenewVals, NoTwins;
    RenewTyped(bound, vals, t);
    forall k | 0 <= k < |vals|
      ensures AnswerOne(bound, vals[k]) == vals[k] <==>
              vals[k] in bound || (Find(bound, vals[k]) < 0 && vals[k].pltime == 0 && vals[k].vltime == 0)
    {
      SameBack(bound, vals[k]);
    }
  }

  /** The values an IA option lists. */
  function Listed(opt: ListVal): (vals: seq<Value>)
    ensures |vals| == |opt.sub| && forall k :: 0 <= k < |vals| ==> vals[k] == opt.sub[k].val
  {
    seq(|opt.sub|, k requires 0 <= k < |opt.sub| => opt.sub[k].val)
  }

  lemma {:induction false} ListedBack(t: IaType, iaid: uint32, vals: seq<Value>)
    ensures Listed(IaOption(t, iaid, vals)) == vals
  {
    hide MinPltime;
  }

  /** An IA option made from the binding is the answer to a Renew of what it lists. */
  lemma {:induction false} RenewRepeats(st: State, duid: Duid, ia: IaSpec, reply: Option<ListVal>)
    requires Inv(st) && NoTwinPrefixes(st) && FromBinding(st, duid, ia, reply)
    ensures UpdateAnswer(st.bindings, duid, IaSpec(ia.iatype, ia.iaid, Listed(reply.value))) == reply.value
  {
    hide Inv, NoTwinPrefixes, NoTwins, Listed, IaOption, RenewVals, FindBinding;
    var i := FindBinding(st.bindings, duid, ia.iatype, ia.iaid);
    var vals := st.bindings[i].vals;
    InvTyped(st, i);
    BindingNoTwins(st, i);
    ListedBack(ia.iatype, ia.iaid, vals);
    RenewUnchanged(vals, vals, ia.iatype);
  }

  /** Whatever was granted in answer to a whole Request of a client whose addresses come
      from a pool, and whatever the server did since short of touching those bindings: a
      Renew or Rebind naming what an option listed is answered with that very option. */
  lemma {:induction false} RequestThenRenew(st: State, ev: Event, evs: seq<Event>)
    requires Inv(st) && NoTwinPrefixes(st) && ev.Request? && PoolRequest(ev) && ConfiguredOnce(ev)
    requires EventsOk(evs) && forall i :: 0 <= i < |evs| ==> ConfiguredOnce(evs[i])
    requires SparesGranted(evs, ev.host.duid, ev.iapd, MadePd(st, ev, true).replies)
    requires SparesGranted(evs, ev.host.duid, ev.iana, MadeNa(st, ev, true).replies)
    ensures var bs := Run(Step(st, ev), evs).bindings;
            && AllRepeated(bs, ev.host.duid, ev.iapd, MadePd(st, ev, true).replies)
            && AllRepeated(bs, ev.host.duid, ev.iana, MadeNa(st, ev, true).replies)
  {
    hide MakeIas, AllFromBindings, AllRepeated, Run, SparesGranted, Inv, PoolRequest, NoTwinPrefixes, Step;
    hide ConfiguredOnce;
    var d, st1 := ev.host.duid, Run(Step(st, ev), evs);
    RequestBinds(st, ev);
    RunKeepsAll(Step(st, ev), evs, d, ev.iapd, MadePd(st, ev, true).replies);
    RunKeepsAll(Step(st, ev), evs, d, ev.iana, MadeNa(st, ev, true).replies);
    RequestOk(ev);
    StepSound(st, ev);
    RunSound(Step(st, ev), evs);
    StepNoTwins(st, ev);
    RunNoTwins(Step(st, ev), evs);
    BindingsRepeat(st1, d, ev.iapd, MadePd(st, ev, true).replies);
    BindingsRepeat(st1, d, ev.iana, MadeNa(st, ev, true).replies);
  }

  lemma {:induction false} RequestOk(ev: Event)
    requires ev.Request? && PoolRequest(ev)
    ensures EventOk(ev)
  {
  }

  // Every option granted is what a Renew of the values it lists is answered with.
  predicate AllRepeated(bs: seq<Binding>, duid: Duid, ias: seq<IaSpec>, replies: seq<Option<ListVal>>) {
    && |replies| == |ias|
    && forall k :: 0 <= k < |ias| && replies[k].Some? ==>
         UpdateAnswer(bs, duid, IaSpec(ias[k].iatype, ias[k].iaid, Listed(replies[k].value))) == replies[k].value
  }

  lemma {:induction false} BindingsRepeat(st: State, duid: Duid, ias: seq<IaSpec>, replies: seq<Option<ListVal>>)
    requires Inv(st) && NoTwinPrefixes(st) && AllFromBindings(st, duid, ias, replies)
    ensures AllRepeated(st.bindings, duid, ias, replies)
  {
    hide Inv, NoTwinPrefixes, UpdateAnswer, Listed, FromBinding;
    forall k | 0 <= k < |ias| && replies[k].Some?
      ensures UpdateAnswer(st.bindings, duid, IaSpec(ias[k].iatype, ias[k].iaid, Listed(replies[k].value)))
           == replies[k].value
    {
      RenewRepeats(st, duid, ias[k], replies[k]);
    }
  }

  // ---- addresses of a static list ----------------------------------------

  // Leasing a list of different addresses keeps those that were free.
  lemma {:induction false} KeptWhenFree(vals: seq<Value>, m: map<Addr, bool>, v: Value)
    requires AllFree(vals, map[])
    ensures v in LeaseAll(vals, m).0 <==> v in vals && v.addr !in m
  {
    if vals == [] {
    } else {
      hide AllFree, AddrSet;
      var n := |vals| - 1;
      assert vals == vals[..n] + [vals[n]];
      LastFree(vals[..n], vals[n]);
      KeptWhenFree(vals[..n], m, v);
      LeaseAllKeys(vals[..n], m, vals[n].addr);
      if v.StatefulAddr? && v in vals[..n] {
        NamedIn(vals[..n], v);
      }
    }
  }

  lemma {:induction false} LastFree(init: seq<Value>, v: Value)
    requires AllFree(init + [v], map[])
    ensures AllFree(init, map[]) && v.StatefulAddr? && v.addr !in AddrSet(init)
  {
    assert (init + [v])[|init|] == v;
    FreePush(init, v, map[]);
  }

  lemma {:induction false} NamedIn(vals: seq<Value>, v: Value)
    requires v in vals && v.StatefulAddr?
    ensures v.addr in AddrSet(vals)
  {
  }

  // What is offered comes from the static list, or is free.
  lemma {:induction false} OfferedFrom(conf: seq<Value>, hints: seq<Value>, host: Host, pools: Pools,
                                       leases: map<Addr, bool>, v: Value)
    requires Typed(conf, NA)
    ensures var o := OfferHints(conf, hints, host, NA, pools, leases);
            && (v in o.conf ==> v in conf)
            && (v in o.list ==> v in conf || HintAddr(v) !in leases)
  {
    hide MatchIndex;
    if hints == [] {
    } else {
      OfferedFrom(conf, hints[..|hints| - 1], host, pools, leases, v);
      var o := OfferHints(conf, hints[..|hints| - 1], host, NA, pools, leases);
      OfferedFromOne(o, hints[|hints| - 1], host, pools, leases, v);
    }
  }

  lemma {:induction false} OfferedFromOne(o: Offer, h: Value, host: Host, pools: Pools, leases: map<Addr, bool>,
                                          v: Value)
    ensures var r := OfferHint(o, h, host, NA, pools, leases);
            && (v in r.conf ==> v in o.conf)
            && (v in r.list ==> v in o.list || v in o.conf || HintAddr(v) !in leases)
  {
    hide MatchIndex;
  }

  lemma {:induction false} OffersFrom(conf: seq<Value>, ia: IaSpec, host: Host, pools: Pools, leases: map<Addr, bool>,
                                      v: Value)
    requires Typed(conf, NA) && ia.iatype == NA
    ensures v in Offers(conf, ia, host, pools, leases).list ==> v in conf || HintAddr(v) !in leases
  {
    hide OfferHints, FirstFree;
    OfferedFrom(conf, ia.hints, host, pools, leases, v);
  }

  // No leased address that is configured and named has a lifetime.
  predicate NoneLost(conf: seq<Value>, hints: seq<Value>, leases: map<Addr, bool>) {
    forall k :: 0 <= k < |conf| && HintAddr(conf[k]) in leases && HintAddr(conf[k]) in AddrSet(hints) ==>
      Pltime(conf[k]) == 0 && Vltime(conf[k]) == 0
  }

  lemma {:induction false} LostOffered(conf: seq<Value>, ia: IaSpec, host: Host, pools: Pools, leases: map<Addr, bool>)
    requires Typed(conf, NA) && NoTwins(conf) && ia.iatype == NA
    ensures var list := Offers(conf, ia, host, pools, leases).list;
            NoneLost(conf, ia.hints, leases) <==>
              forall k :: 0 <= k < |list| && HintAddr(list[k]) in leases ==>
                Pltime(list[k]) == 0 && Vltime(list[k]) == 0
  {
    hide Offers;
    var list := Offers(conf, ia, host, pools, leases).list;
    OffersTyped(conf, ia, host, pools, leases);
    forall k | 0 <= k < |list| && list[k].addr in leases
      ensures list[k] in conf && list[k].addr in AddrSet(ia.hints)
    {
      OffersFrom(conf, ia, host, pools, leases, list[k]);
      NamedIn(list, list[k]);
      LeasedOffered(conf, ia, host, pools, leases, list[k].addr);
    }
    forall k | 0 <= k < |conf| && conf[k].addr in leases && conf[k].addr in AddrSet(ia.hints)
      ensures conf[k] in list
    {
      NamedIn(conf, conf[k]);
      LeasedOffered(conf, ia, host, pools, leases, conf[k].addr);
      var j :| 0 <= j < |list| && list[j].StatefulAddr? && list[j].addr == conf[k].addr;
      var i :| 0 <= i < |conf| && conf[i] == list[j];
      assert i == k by {
        assert i < k ==> Matches(conf[i], conf[k]);
        assert k < i ==> Matches(conf[k], conf[i]);
      }
    }
  }

  lemma {:induction false} ComesBack(list: seq<Value>, m: map<Addr, bool>)
    requires AllFree(list, map[]) && NoTwins(LeaseAll(list, m).0)
    ensures RenewVals(LeaseAll(list, m).0, list, NA) == list <==>
              forall k :: 0 <= k < |list| && HintAddr(list[k]) in m ==> Pltime(list[k]) == 0 && Vltime(list[k]) == 0
  {
    hide RenewVals, LeaseAll, NoTwins;
    var kept := LeaseAll(list, m).0;
    RenewUnchanged(kept, list, NA);
    forall k | 0 <= k < |list|
      ensures list[k] in kept <==> list[k].addr !in m
      ensures list[k].addr in m ==> Find(kept, list[k]) < 0
    {
      KeptWhenFree(list, m, list[k]);
      var j := Find(kept, list[k]);
      if j >= 0 {
        KeptWhenFree(list, m, kept[j]);
      }
    }
  }

  lemma {:induction false} OffersDiffer(conf: seq<Value>, ia: IaSpec, host: Host, pools: Pools, leases: map<Addr, bool>)
    requires Typed(conf, NA) && ia.iatype == NA && DistinctHints(ia.hints)
    ensures AllFree(Offers(conf, ia, host, pools, leases).list, map[])
  {
    hide OfferHints, OfferAny;
    OffersTyped(conf, ia, host, pools, leases);
    OfferedDistinct(conf, ia.hints, host, pools, leases);
    AnyIsOne(OfferHints(conf, ia.hints, host, NA, pools, leases), host, pools, leases);
  }

  /** A new IA_NA answered from a static list or a pool, and renewed with what the Reply
      listed: the same option comes back if and only if no leased address that is both
      configured and named has a lifetime. */
  lemma {:induction false} StaticThenRenew(st: State, conf: seq<Value>, ia: IaSpec, host: Host, pools: Pools, now: int)
    requires Inv(st) && ia.iatype == NA && Typed(conf, NA) && NoTwins(conf) && DistinctHints(ia.hints)
    requires FindBinding(st.bindings, host.duid, NA, ia.iaid) < 0
    requires MakeIa(st, conf, ia, host, pools, true, now).reply.Some?
    ensures var m := MakeIa(st, conf, ia, host, pools, true, now);
            UpdateAnswer(m.st.bindings, host.duid, IaSpec(NA, ia.iaid, Listed(m.reply.value))) == m.reply.value <==>
              NoneLost(conf, ia.hints, st.leases)
  {
    hide Offers, LeaseAll, NoTwins, AllFree, IaOption, Listed, NoneLost, RenewVals, Inv, Sound, DistinctHints;
    var list := Offers(conf, ia, host, pools, st.leases).list;
    var kept := LeaseAll(list, st.leases).0;
    var b := NewBinding(host.duid, NA, ia.iaid, kept, now);
    FindAppended(st.bindings, b);
    MakeIaKeepsInv(st, conf, ia, host, pools, true, now);
    IsSound(st, MakeIa(st, conf, ia, host, pools, true, now).st);
    AddressesDiffer(MakeIa(st, conf, ia, host, pools, true, now).st, |st.bindings|);
    OffersDiffer(conf, ia, host, pools, st.leases);
    ComesBack(list, st.leases);
    LostOffered(conf, ia, host, pools, st.leases);
    ListedBack(NA, ia.iaid, list);
    SameOption(NA, ia.iaid, RenewVals(kept, list, NA), list);
  }
}
