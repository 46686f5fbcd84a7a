/** Whether one prefix can be delegated to two IAs (dhcp6s.c): prefixes are not entered
    in the lease table, so only the lists of one message stand against it. */
module PrefixSharing {
  import opened Bytes
  import opened ListVals
  import opened Bindings
  import opened BindingInvariants
  import opened ServerRuns
  import opened ServerReplies
  import opened ServerMessages
  import opened Twinless
  import opened BindingChanges
  import opened RenewReplies
  import opened StaticClients

  /** No value of one list has the name of a value of the other. */
  predicate Apart(vals: seq<Value>, ws: seq<Value>) {
    forall j, k :: 0 <= j < |vals| && 0 <= k < |ws| ==> !SameName(vals[j], ws[k])
  }

  // What a new IA_PD with these hints is given.
  ghost function Given(st: State, conf: seq<Value>, iaid: uint32, hints: seq<Value>, host: Host, pools: Pools,
                       now: int): seq<Value>
  {
    var m := MakeIa(st, conf, IaSpec(PD, iaid, hints), host, pools, true, now);
    if m.reply.Some? then Listed(m.reply.value) else []
  }

  lemma {:induction false} GivenFrom(st: State, conf: seq<Value>, iaid: uint32, hints: seq<Value>, host: Host,
                                     pools: Pools, now: int, v: Value)
    requires FindBinding(st.bindings, host.duid, PD, iaid) < 0
    ensures v in Given(st, conf, iaid, hints, host, pools, now) ==> v in conf
  {
    hide MakeIa, PrefixesOffered, Listed, IaOption, Bound, NewBinding;
    PrefixClientServed(st, conf, IaSpec(PD, iaid, hints), host, pools, true, now);
    var m := MakeIa(st, conf, IaSpec(PD, iaid, hints), host, pools, true, now);
    if m.reply.Some? && v in Listed(m.reply.value) {
      assert v in multiset(Listed(m.reply.value)) + multiset(m.conf);
      assert v in multiset(conf);
    }
  }

  // A client that names one configured prefix is given a prefix of that name.
  lemma {:induction false} NamedGiven(st: State, conf: seq<Value>, iaid: uint32, host: Host, pools: Pools, now: int,
                                      j: nat)
    requires FindBinding(st.bindings, host.duid, PD, iaid) < 0 && j < |conf| && conf[j].Prefix?
    ensures var g := Given(st, conf, iaid, [conf[j]], host, pools, now); |g| == 1 && SameName(g[0], conf[j])
  {
    hide MakeIa, Listed, IaOption, Bound, NewBinding, Dealt;
    var h := conf[j];
    PrefixClientServed(st, conf, IaSpec(PD, iaid, [h]), host, pools, true, now);
    var m := MakeIa(st, conf, IaSpec(PD, iaid, [h]), host, pools, true, now);
    var vals := Listed(m.reply.value);
    if Dealt(conf, [h], vals, m.conf) {
      OneDealt(conf, h, j, vals, m.conf);
    } else {
      OneDealt(conf, h, j, [], conf);
    }
  }

  lemma {:induction false} OneDealt(conf: seq<Value>, h: Value, j: nat, list: seq<Value>, left: seq<Value>)
    requires Dealt(conf, [h], list, left) && j < |conf| && SameName(conf[j], h)
    ensures |list| == 1 && SameName(list[0], h)
  {
    FirstExists(conf, h, j);
    var n :| FirstNamed(conf, h, n);
    assert Meets(conf, [h][0], n) && [h][1..] == [];
    var i :| Meets(conf, h, i) && list != [] && list[0] == conf[i] && Dealt(RemoveAt(conf, i), [], list[1..], left);
  }

  lemma {:induction false} FirstExists(conf: seq<Value>, h: Value, j: nat)
    requires j < |conf| && SameName(conf[j], h)
    ensures exists i :: FirstNamed(conf, h, i)
  {
    if exists i :: 0 <= i < j && SameName(conf[i], h) {
      var i :| 0 <= i < j && SameName(conf[i], h);
      FirstExists(conf, h, i);
    } else {
      assert FirstNamed(conf, h, j);
    }
  }

  /** Whatever hints it sends, a new IA_PD is given nothing that is held elsewhere, if and
      only if nothing still configured when its turn comes is held elsewhere. */
  lemma {:induction false} SharesExactly(st: State, conf: seq<Value>, iaid: uint32, host: Host, pools: Pools, now: int,
                                         held: seq<Value>)
    requires FindBinding(st.bindings, host.duid, PD, iaid) < 0 && Typed(conf, PD)
    ensures (forall hints :: Apart(Given(st, conf, iaid, hints, host, pools, now), held)) <==> Apart(conf, held)
  {
    hide Given, SameName;
    if Apart(conf, held) {
      forall hints ensures Apart(Given(st, conf, iaid, hints, host, pools, now), held) {
        var g := Given(st, conf, iaid, hints, host, pools, now);
        forall j, k | 0 <= j < |g| && 0 <= k < |held| ensures !SameName(g[j], held[k]) {
          GivenFrom(st, conf, iaid, hints, host, pools, now, g[j]);
          assert g[j] in conf;
        }
      }
    } else {
      var j, k :| 0 <= j < |conf| && 0 <= k < |held| && SameName(conf[j], held[k]);
      var g := Given(st, conf, iaid, [conf[j]], host, pools, now);
      NamedGiven(st, conf, iaid, host, pools, now, j);
      SameNames(g[0], conf[j], held[k]);
      assert !Apart(g, held);
    }
  }

  lemma {:induction false} SameNames(u: Value, v: Value, w: Value)
    requires SameName(u, v) && SameName(v, w)
    ensures SameName(u, w)
  {
  }

  /** The input: a client holds its one prefix under one IA, asks under another, and is
      given the same prefix again. */
  lemma {:induction false} GivenTwice(p: Addr)
    ensures var v := Prefix(10, 20, p, 64);
            var st := State([NewBinding([1], PD, 1, [v], 0)], map[]);
            var m := MakeIa(st, [v], IaSpec(PD, 2, []), Host([1], [v], [], None), map[], true, 0);
            && Inv(st) && Bound(m.st, [1], PD, 1, [v]) && Bound(m.st, [1], PD, 2, [v])
  {
    hide Listed, IaOption, Offers;
    var v := Prefix(10, 20, p, 64);
    var b := NewBinding([1], PD, 1, [v], 0);
    var st, ia, host := State([b], map[]), IaSpec(PD, 2, []), Host([1], [v], [], None);
    PrefixClientServed(st, [v], ia, host, map[], true, 0);
    forall a ensures Held(st.bindings, a) == Leased(st.leases, a) {
      HeldOne(b, a);
    }
    var m := MakeIa(st, [v], ia, host, map[], true, 0);
    var vals := Listed(m.reply.value);
    assert |multiset(vals)| + |multiset(m.conf)| == |multiset([v])|;
  }

  // ---- the IAs of one message --------------------------------------------

  lemma {:induction false} KeysGone(conf: seq<Value>, keys: seq<Value>)
    requires NoTwins(conf) && Typed(conf, PD) && Typed(keys, PD)
    ensures var r := RemoveMatches(conf, keys); Apart(r, keys) && forall v :: v in r ==> v in conf
  {
    hide NoTwins, RemoveMatches, Unnamed;
    ConfiguredLeft(conf, keys, PD);
    var r := RemoveMatches(conf, keys);
    forall v | v in r ensures v in conf && !IsNamed(v, keys) {
      UnnamedIn(conf, keys, v);
    }
    forall j, k | 0 <= j < |r| && 0 <= k < |keys| ensures !SameName(r[j], keys[k]) {
      assert r[j] in r;
      MatchIsName(r[j], keys[k]);
    }
  }

  lemma {:induction false} SplitApart(list: seq<Value>, left: seq<Value>)
    requires NoTwins(list + left) && Typed(list, PD) && Typed(left, PD)
    ensures Apart(left, list)
  {
    var all := list + left;
    forall j, k | 0 <= j < |left| && 0 <= k < |list| ensures !SameName(left[j], list[k]) {
      assert !Matches(all[k], all[|list| + j]);
    }
  }

  lemma {:induction false} OffersFromConf(conf: seq<Value>, ia: IaSpec, host: Host, pools: Pools,
                                          leases: map<Addr, bool>, v: Value)
    requires ia.iatype == PD && conf != []
    ensures var o := Offers(conf, ia, host, pools, leases); v in o.list || v in o.conf ==> v in conf
  {
    hide Offers, PrefixesOffered;
    OffersPrefixes(conf, ia, host, pools, leases);
    var o := Offers(conf, ia, host, pools, leases);
    PrefixesConserved(conf, ia.hints, o.list, o.conf);
    if v in o.list || v in o.conf {
      assert v in multiset(o.list) + multiset(o.conf);
    }
  }

  /** What is still configured after an IA has been answered does not include anything
      the answer listed. */
  lemma {:induction false} MadeApart(st: State, conf: seq<Value>, ia: IaSpec, host: Host, pools: Pools, now: int)
    requires Inv(st) && ia.iatype == PD && Typed(conf, PD) && NoTwins(conf)
    ensures var m := MakeIa(st, conf, ia, host, pools, true, now);
            && (m.reply.Some? ==> Apart(m.conf, Listed(m.reply.value)))
            && forall v :: v in m.conf ==> v in conf
  {
    hide NoTwins, Typed, Offers, IaOption, Listed, Apart, Inv, Renewed, RemoveMatches;
    var i := FindBinding(st.bindings, host.duid, PD, ia.iaid);
    if i >= 0 {
      var vals := st.bindings[i].vals;
      InvTyped(st, i);
      KeysGone(conf, vals);
      ListedBack(PD, ia.iaid, vals);
    } else if conf != [] {
      var o := Offers(conf, ia, host, pools, st.leases);
      OffersNoTwins(conf, ia, host, pools, st.leases);
      SplitApart(o.list, o.conf);
      ListedBack(PD, ia.iaid, o.list);
      forall v | v in o.conf ensures v in conf {
        OffersFromConf(conf, ia, host, pools, st.leases, v);
      }
    }
  }

  /** Nothing still configured when an IA's turn comes was listed for an earlier IA of the
      same message.  So, by SharesExactly, an IA_PD without a binding is given no prefix
      of an earlier one, and a client that names all its IAs, the bound ones first, is
      never given a prefix twice. */
  lemma {:induction false} MessageApart(st: State, conf: seq<Value>, ias: seq<IaSpec>, host: Host, pools: Pools,
                                        now: int)
    requires Inv(st) && NoTwinPrefixes(st) && AllOf(ias, PD) && Typed(conf, PD) && NoTwins(conf)
    ensures var r := MakeIas(st, conf, ias, host, pools, true, false, now);
            && |r.replies| == |ias| && (forall v :: v in r.conf ==> v in conf)
            && forall k :: 0 <= k < |ias| && r.replies[k].Some? ==> Apart(r.conf, Listed(r.replies[k].value))
  {
    hide NoTwins, Typed, NoTwinPrefixes, Inv, Sound, MakeIa, Listed, SameName;
    if ias == [] {
    } else {
      var n := |ias| - 1;
      MessageApart(st, conf, ias[..n], host, pools, now);
      var r := MakeIas(st, conf, ias[..n], host, pools, true, false, now);
      MakeIasSound(st, conf, ias[..n], host, pools, true, false, now, PD);
      IsSound(st, r.st);
      MakeIasNoTwins(st, conf, ias[..n], host, pools, true, false, now, PD);
      MadeApart(r.st, r.conf, ias[n], host, pools, now);
      var m := MakeIa(r.st, r.conf, ias[n], host, pools, true, now);
      forall k | 0 <= k < n && r.replies[k].Some? ensures Apart(m.conf, Listed(r.replies[k].value)) {
        FewerApart(m.conf, r.conf, Listed(r.replies[k].value));
      }
    }
  }

  lemma {:induction false} FewerApart(fewer: seq<Value>, vals: seq<Value>, ws: seq<Value>)
    requires Apart(vals, ws) && forall v :: v in fewer ==> v in vals
    ensures Apart(fewer, ws)
  {
    forall j, k | 0 <= j < |fewer| && 0 <= k < |ws| ensures !SameName(fewer[j], ws[k]) {
      assert fewer[j] in vals;
    }
  }
}
