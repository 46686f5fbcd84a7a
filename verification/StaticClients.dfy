/** What a client without a binding gets from the addresses and prefixes configured
    for it (dhcp6s.c): which value meets which hint, and when there is a Reply. */
module StaticClients {
  import opened Bytes
  import opened ListVals
  import opened Bindings
  import opened BindingInvariants
  import opened ServerReplies
  import opened ServerMessages
  import opened Twinless
  import opened RenewReplies

  // ---- one hint ----------------------------------------------------------

  predicate SameLength(v: Value, h: Value) {
    v.Prefix? && h.Prefix? && v.plen == h.plen
  }

  // Position `i` is the first of the list with the prefix length of `h`.
  predicate FirstLong(conf: seq<Value>, h: Value, i: int) {
    0 <= i < |conf| && SameLength(conf[i], h) && forall j :: 0 <= j < i ==> !SameLength(conf[j], h)
  }

  /** The configured value that meets a hint: the one of that name; for a prefix, failing
      that, the first of its length. */
  ghost predicate Meets(conf: seq<Value>, h: Value, i: int): (r: bool)
    ensures r ==> 0 <= i < |conf|
  {
    || FirstNamed(conf, h, i)
    || (FirstLong(conf, h, i) && forall j :: 0 <= j < |conf| ==> !SameName(conf[j], h))
  }

  lemma {:induction false} MatchMeets(conf: seq<Value>, h: Value, i: int)
    ensures 0 <= i && MatchIndex(conf, h) == i <==> Meets(conf, h, i)
  {
    if h.StatefulAddr? || h.Prefix? {
      forall j | 0 <= j < |conf| ensures Matches(conf[j], h) <==> SameName(conf[j], h) {
        MatchIsName(conf[j], h);
      }
      forall j | 0 <= j < |conf| ensures MatchesPlen(conf[j], h) <==> SameLength(conf[j], h) {
      }
      NamedOnce(conf, h, i, Find(conf, h));
      LongOnce(conf, h, i, FindPlen(conf, h));
    }
  }

  lemma {:induction false} NamedOnce(conf: seq<Value>, h: Value, i: int, j: int)
    ensures FirstNamed(conf, h, i) && FirstNamed(conf, h, j) ==> i == j
  {
    hide SameName;
  }

  lemma {:induction false} LongOnce(conf: seq<Value>, h: Value, i: int, j: int)
    ensures FirstLong(conf, h, i) && FirstLong(conf, h, j) ==> i == j
  {
    hide SameLength;
  }

  // ---- all the hints of an IA --------------------------------------------

  /** How the configured values are dealt out to the hints, one after the other, each
      value at most once: `list` is what the hints get and `left` what remains. */
  ghost predicate Dealt(conf: seq<Value>, hints: seq<Value>, list: seq<Value>, left: seq<Value>) {
    if hints == [] then list == [] && left == conf
    else if exists i :: Meets(conf, hints[0], i) then
      exists i ::
        && Meets(conf, hints[0], i) && list != [] && list[0] == conf[i]
        && Dealt(RemoveAt(conf, i), hints[1..], list[1..], left)
    else Dealt(conf, hints[1..], list, left)
  }

  lemma {:induction false} DealtMore(conf: seq<Value>, hints: seq<Value>, list: seq<Value>, left: seq<Value>, h: Value,
                                     i: int)
    requires Dealt(conf, hints, list, left) && Meets(left, h, i)
    ensures Dealt(conf, hints + [h], list + [left[i]], RemoveAt(left, i))
    decreases |hints|
  {
    hide Meets;
    var all, l := hints + [h], list + [left[i]];
    if hints == [] {
      assert all[0] == h && all[1..] == [] && l[1..] == [];
      assert Dealt(RemoveAt(conf, i), [], [], RemoveAt(left, i));
    } else {
      assert all[0] == hints[0] && all[1..] == hints[1..] + [h];
      if j :| Meets(conf, hints[0], j) && list != [] && list[0] == conf[j]
              && Dealt(RemoveAt(conf, j), hints[1..], list[1..], left) {
        DealtMore(RemoveAt(conf, j), hints[1..], list[1..], left, h, i);
        assert l[1..] == list[1..] + [left[i]];
      } else {
        DealtMore(conf, hints[1..], list, left, h, i);
      }
    }
  }

  lemma {:induction false} DealtNoMore(conf: seq<Value>, hints: seq<Value>, list: seq<Value>, left: seq<Value>,
                                       h: Value)
    requires Dealt(conf, hints, list, left) && forall i :: !Meets(left, h, i)
    ensures Dealt(conf, hints + [h], list, left)
    decreases |hints|
  {
    hide Meets;
    var all := hints + [h];
    if hints == [] {
      assert all[0] == h && all[1..] == [];
    } else {
      assert all[0] == hints[0] && all[1..] == hints[1..] + [h];
      if j :| Meets(conf, hints[0], j) && list != [] && list[0] == conf[j]
              && Dealt(RemoveAt(conf, j), hints[1..], list[1..], left) {
        DealtNoMore(RemoveAt(conf, j), hints[1..], list[1..], left, h);
      } else {
        DealtNoMore(conf, hints[1..], list, left, h);
      }
    }
  }

  /** Only one outcome fits the description. */
  lemma {:induction false} DealtOnce(conf: seq<Value>, hints: seq<Value>, list: seq<Value>, left: seq<Value>,
                                     list': seq<Value>, left': seq<Value>)
    requires Dealt(conf, hints, list, left) && Dealt(conf, hints, list', left')
    ensures list == list' && left == left'
    decreases |hints|
  {
    hide Meets;
    if hints == [] {
    } else if i :| Meets(conf, hints[0], i) && list != [] && list[0] == conf[i]
                   && Dealt(RemoveAt(conf, i), hints[1..], list[1..], left) {
      var j :| Meets(conf, hints[0], j) && list' != [] && list'[0] == conf[j]
               && Dealt(RemoveAt(conf, j), hints[1..], list'[1..], left');
      MatchMeets(conf, hints[0], i);
      MatchMeets(conf, hints[0], j);
      DealtOnce(RemoveAt(conf, i), hints[1..], list[1..], left, list'[1..], left');
      assert list == [list[0]] + list[1..] && list' == [list'[0]] + list'[1..];
    } else {
      DealtOnce(conf, hints[1..], list, left, list', left');
    }
  }

  /** Nothing configured is lost, made up or handed out twice. */
  lemma {:induction false} DealtConserves(conf: seq<Value>, hints: seq<Value>, list: seq<Value>, left: seq<Value>)
    requires Dealt(conf, hints, list, left)
    ensures multiset(list) + multiset(left) == multiset(conf)
    decreases |hints|
  {
    hide Meets;
    if hints == [] {
    } else if i :| Meets(conf, hints[0], i) && list != [] && list[0] == conf[i]
                   && Dealt(RemoveAt(conf, i), hints[1..], list[1..], left) {
      MatchMeets(conf, hints[0], i);
      DealtConserves(RemoveAt(conf, i), hints[1..], list[1..], left);
      OneMoved(conf, i);
      OneMoved(list, 0);
      assert RemoveAt(list, 0) == list[1..];
    } else {
      DealtConserves(conf, hints[1..], list, left);
    }
  }

  lemma {:induction false} OneMoved(conf: seq<Value>, i: nat)
    requires i < |conf|
    ensures multiset(conf) == multiset{conf[i]} + multiset(RemoveAt(conf, i))
  {
    assert conf == conf[..i] + [conf[i]] + conf[i + 1..];
  }

  // Hints that leave something over, or a host without a pool, are dealt with from the
  // static list alone.
  predicate FromList(o: Offer, host: Host, t: IaType) {
    o.conf != [] || t == PD || host.pool.None?
  }

  lemma {:induction false} HintDealt(conf: seq<Value>, hints: seq<Value>, o: Offer, h: Value, host: Host, t: IaType,
                                     pools: Pools, leases: map<Addr, bool>)
    requires Dealt(conf, hints, o.list, o.conf) && FromList(o, host, t)
    ensures var r := OfferHint(o, h, host, t, pools, leases); Dealt(conf, hints + [h], r.list, r.conf)
  {
    hide Dealt, Meets, MatchIndex;
    var i := MatchIndex(o.conf, h);
    if o.conf != [] && i >= 0 {
      MatchMeets(o.conf, h, i);
      DealtMore(conf, hints, o.list, o.conf, h, i);
    } else {
      forall j ensures !Meets(o.conf, h, j) {
        MatchMeets(o.conf, h, j);
      }
      DealtNoMore(conf, hints, o.list, o.conf, h);
    }
  }

  // The static list was not used up on the way.
  ghost predicate NeverEmpty(conf: seq<Value>, hints: seq<Value>, host: Host, t: IaType, pools: Pools,
                             leases: map<Addr, bool>)
  {
    forall k :: 0 <= k < |hints| ==> FromList(OfferHints(conf, hints[..k], host, t, pools, leases), host, t)
  }

  /** The loop over the hints deals out the configured values. */
  lemma {:induction false} HintsDealt(conf: seq<Value>, hints: seq<Value>, host: Host, t: IaType, pools: Pools,
                                      leases: map<Addr, bool>)
    requires NeverEmpty(conf, hints, host, t, pools, leases)
    ensures var o := OfferHints(conf, hints, host, t, pools, leases); Dealt(conf, hints, o.list, o.conf)
  {
    hide OfferHint, FromList;
    if hints == [] {
    } else {
      var n := |hints| - 1;
      var o := OfferHints(conf, hints[..n], host, t, pools, leases);
      forall k | 0 <= k < n ensures hints[..n][..k] == hints[..k] {
      }
      HintsDealt(conf, hints[..n], host, t, pools, leases);
      assert hints[..n] + [hints[n]] == hints;
      HintDealt(conf, hints[..n], o, hints[n], host, t, pools, leases);
    }
  }

  // ---- the value to fall back on -----------------------------------------

  /** Position `i` is the first configured value that may be offered unasked. */
  predicate FirstSpare(conf: seq<Value>, t: IaType, leases: map<Addr, bool>, i: int) {
    && 0 <= i < |conf|
    && (t == PD ==> i == 0)
    && (t == NA ==> HintAddr(conf[i]) !in leases && forall j :: 0 <= j < i ==> HintAddr(conf[j]) in leases)
  }

  lemma {:induction false} SpareFound(conf: seq<Value>, t: IaType, leases: map<Addr, bool>)
    ensures var i := FirstFree(conf, t, leases);
            && (i >= 0 ==> FirstSpare(conf, t, leases, i))
            && (i < 0 ==> (t == PD ==> conf == []) && forall k :: 0 <= k < |conf| ==> HintAddr(conf[k]) in leases)
  {
    if conf == [] || t == PD || HintAddr(conf[0]) !in leases {
    } else {
      SpareFound(conf[1..], t, leases);
      assert forall j :: 1 <= j < |conf| ==> conf[j] == conf[1..][j - 1];
    }
  }

  // ---- an IA_PD ----------------------------------------------------------

  lemma {:induction false} PrefixesDealt(conf: seq<Value>, hints: seq<Value>, host: Host, pools: Pools,
                                         leases: map<Addr, bool>)
    ensures var o := OfferHints(conf, hints, host, PD, pools, leases); Dealt(conf, hints, o.list, o.conf)
  {
    HintsDealt(conf, hints, host, PD, pools, leases);
  }

  // What an IA_PD is offered: what its hints are dealt, or else the first prefix.
  ghost predicate PrefixesOffered(conf: seq<Value>, hints: seq<Value>, vals: seq<Value>, left: seq<Value>) {
    || (vals != [] && Dealt(conf, hints, vals, left))
    || (conf != [] && Dealt(conf, hints, [], conf) && vals == [conf[0]] && left == conf[1..])
  }

  lemma {:induction false} NothingDealt(conf: seq<Value>, hints: seq<Value>, left: seq<Value>)
    requires Dealt(conf, hints, [], left)
    ensures left == conf
    decreases |hints|
  {
    hide Meets;
    if hints == [] {
    } else {
      NothingDealt(conf, hints[1..], left);
    }
  }

  lemma {:induction false} OffersPrefixes(conf: seq<Value>, ia: IaSpec, host: Host, pools: Pools,
                                          leases: map<Addr, bool>)
    requires ia.iatype == PD
    ensures var o := Offers(conf, ia, host, pools, leases);
            conf != [] ==> o.list != [] && PrefixesOffered(conf, ia.hints, o.list, o.conf)
  {
    hide Dealt, OfferHints, FirstFree;
    var o := OfferHints(conf, ia.hints, host, PD, pools, leases);
    PrefixesDealt(conf, ia.hints, host, pools, leases);
    if o.list == [] && conf != [] {
      NothingDealt(conf, ia.hints, o.conf);
      SpareFound(conf, PD, leases);
      assert RemoveAt(conf, 0) == conf[1..];
    }
  }

  lemma {:induction false} PrefixesConserved(conf: seq<Value>, hints: seq<Value>, vals: seq<Value>, left: seq<Value>)
    requires PrefixesOffered(conf, hints, vals, left)
    ensures multiset(vals) + multiset(left) == multiset(conf)
  {
    hide Dealt;
    if vals != [] && Dealt(conf, hints, vals, left) {
      DealtConserves(conf, hints, vals, left);
    } else {
      assert conf == [conf[0]] + conf[1..];
    }
  }

  /** An IA_PD without a binding is answered if and only if a prefix is still configured.
      Each hint in turn gets the equal prefix or else the first of its length among
      those left; if no hint is met the first configured prefix is given.  What is given
      is bound under the client's identity, no other binding and no lease changes, and
      no prefix is lost or given twice. */
  lemma {:induction false} PrefixClientServed(st: State, conf: seq<Value>, ia: IaSpec, host: Host, pools: Pools,
                                              bind: bool, now: int)
    requires ia.iatype == PD && FindBinding(st.bindings, host.duid, PD, ia.iaid) < 0
    ensures var m := MakeIa(st, conf, ia, host, pools, bind, now);
            && (m.reply.Some? <==> conf != [])
            && (m.reply.None? || !bind ==> m.st == st) && m.st.leases == st.leases
            && (m.reply.Some? ==>
                  var vals := Listed(m.reply.value);
                  && PrefixesOffered(conf, ia.hints, vals, m.conf)
                  && multiset(vals) + multiset(m.conf) == multiset(conf)
                  && m.reply.value == IaOption(PD, ia.iaid, vals)
                  && (bind ==>
                        && m.st.bindings == st.bindings + [NewBinding(host.duid, PD, ia.iaid, vals, now)]
                        && Bound(m.st, host.duid, PD, ia.iaid, vals)))
  {
    hide PrefixesOffered, Offers, IaOption, Listed, FindBinding;
    OffersPrefixes(conf, ia, host, pools, st.leases);
    var o := Offers(conf, ia, host, pools, st.leases);
    ListedBack(PD, ia.iaid, o.list);
    FindAppended(st.bindings, NewBinding(host.duid, PD, ia.iaid, o.list, now));
    if conf != [] {
      PrefixesConserved(conf, ia.hints, o.list, o.conf);
    }
  }

  // ---- an IA_NA ----------------------------------------------------------

  lemma {:induction false} StillThere(s: seq<Value>, i: nat, v: Value)
    requires i < |s|
    ensures v in s <==> v == s[i] || v in RemoveAt(s, i)
  {
    var r := RemoveAt(s, i);
    if k :| 0 <= k < |s| && k != i && s[k] == v {
      assert r[if k < i then k else k - 1] == v;
    }
  }

  lemma {:induction false} AloneInName(conf: seq<Value>, i: nat, v: Value)
    requires i < |conf| && Typed(conf, NA) && NoTwins(conf)
    ensures v in RemoveAt(conf, i) ==> v.addr != conf[i].addr
  {
    var r := RemoveAt(conf, i);
    if k :| 0 <= k < |r| && r[k] == v {
      var j := if k < i then k else k + 1;
      assert conf[j] == v;
      assert !Matches(conf[if j < i then j else i], conf[if j < i then i else j]);
    }
  }

  lemma {:induction false} FirstName(hints: seq<Value>, a: Addr)
    requires hints != []
    ensures a in AddrSet(hints) <==> a in AddrSet(hints[1..]) || (hints[0].StatefulAddr? && hints[0].addr == a)
  {
    assert hints == [hints[0]] + hints[1..];
  }

  // Addresses go to the hints that name them.
  lemma {:induction false} DealtAddresses(conf: seq<Value>, hints: seq<Value>, list: seq<Value>, left: seq<Value>,
                                          v: Value)
    requires Dealt(conf, hints, list, left) && Typed(conf, NA) && NoTwins(conf)
    ensures v in list <==> v in conf && v.addr in AddrSet(hints)
    ensures v in left <==> v in conf && v.addr !in AddrSet(hints)
    decreases |hints|
  {
    hide AddrSet, NoTwins, Meets;
    if hints == [] {
      NoNames(HintAddr(v));
    } else {
      FirstName(hints, HintAddr(v));
      if i :| Meets(conf, hints[0], i) && list != [] && list[0] == conf[i]
              && Dealt(RemoveAt(conf, i), hints[1..], list[1..], left) {
        MeetsName(conf, hints[0], i);
        AloneInName(conf, i, v);
        StillThere(conf, i, v);
        RemovedNoTwins(conf, i);
        DealtAddresses(RemoveAt(conf, i), hints[1..], list[1..], left, v);
        assert list == [list[0]] + list[1..];
      } else {
        NotNamed(conf, hints[0], v);
        DealtAddresses(conf, hints[1..], list, left, v);
      }
    }
  }

  lemma {:induction false} MeetsName(conf: seq<Value>, h: Value, i: int)
    requires Typed(conf, NA) && Meets(conf, h, i)
    ensures h.StatefulAddr? && conf[i].addr == h.addr
  {
  }

  lemma {:induction false} NotNamed(conf: seq<Value>, h: Value, v: Value)
    requires Typed(conf, NA) && forall i :: !Meets(conf, h, i)
    ensures v in conf ==> !(h.StatefulAddr? && h.addr == v.addr)
  {
    hide Meets;
    MatchMeets(conf, h, MatchIndex(conf, h));
    assert forall k :: 0 <= k < |conf| ==> !Matches(conf[k], h) || !h.StatefulAddr?;
  }

  /** The pool stays out of it: there is none, or the hints leave a configured address. */
  predicate ListOnly(conf: seq<Value>, hints: seq<Value>, host: Host) {
    host.pool.None? || exists k :: 0 <= k < |conf| && HintAddr(conf[k]) !in AddrSet(hints)
  }

  lemma {:induction false} FewerNames(hints: seq<Value>, k: nat, a: Addr)
    requires k <= |hints| && a in AddrSet(hints[..k])
    ensures a in AddrSet(hints)
  {
  }

  lemma {:induction false} AddressesDealt(conf: seq<Value>, hints: seq<Value>, n: nat, host: Host, pools: Pools,
                                          leases: map<Addr, bool>)
    requires n <= |hints| && Typed(conf, NA) && NoTwins(conf) && ListOnly(conf, hints, host)
    ensures var o := OfferHints(conf, hints[..n], host, NA, pools, leases);
            Dealt(conf, hints[..n], o.list, o.conf) && FromList(o, host, NA)
  {
    hide Dealt, AddrSet, NoTwins, OfferHint;
    if n == 0 {
      NothingAsked(conf);
    } else {
      AddressesDealt(conf, hints, n - 1, host, pools, leases);
      assert hints[..n] == hints[..n - 1] + [hints[n - 1]];
      assert hints[..n][..n - 1] == hints[..n - 1];
      var o := OfferHints(conf, hints[..n - 1], host, NA, pools, leases);
      HintDealt(conf, hints[..n - 1], o, hints[n - 1], host, NA, pools, leases);
    }
    if host.pool.Some? {
      var k :| 0 <= k < |conf| && HintAddr(conf[k]) !in AddrSet(hints);
      var o := OfferHints(conf, hints[..n], host, NA, pools, leases);
      DealtAddresses(conf, hints[..n], o.list, o.conf, conf[k]);
      if conf[k].addr in AddrSet(hints[..n]) {
        FewerNames(hints, n, conf[k].addr);
      }
    }
  }

  lemma {:induction false} NothingAsked(conf: seq<Value>)
    ensures Dealt(conf, [], [], conf)
  {
  }

  /** Some hint names a configured address. */
  predicate AnyNamed(conf: seq<Value>, hints: seq<Value>) {
    exists k :: 0 <= k < |conf| && HintAddr(conf[k]) in AddrSet(hints)
  }

  /** Some configured address is free that may be offered: once a hint names one, only
      those named count. */
  predicate AnyFree(conf: seq<Value>, hints: seq<Value>, leases: map<Addr, bool>) {
    exists k ::
      && 0 <= k < |conf| && HintAddr(conf[k]) !in leases
      && (AnyNamed(conf, hints) ==> HintAddr(conf[k]) in AddrSet(hints))
  }

  /** What a list of configured addresses offers: the ones named, dealt out in the order
      of the hints, or else the first free one. */
  ghost predicate AddressesOffered(conf: seq<Value>, hints: seq<Value>, leases: map<Addr, bool>, vals: seq<Value>,
                                   left: seq<Value>)
  {
    if AnyNamed(conf, hints) then Dealt(conf, hints, vals, left)
    else exists i :: FirstSpare(conf, NA, leases, i) && vals == [conf[i]] && left == RemoveAt(conf, i)
  }

  lemma {:induction false} DealtAny(conf: seq<Value>, hints: seq<Value>, list: seq<Value>, left: seq<Value>)
    requires Dealt(conf, hints, list, left) && Typed(conf, NA) && NoTwins(conf)
    ensures list != [] <==> AnyNamed(conf, hints)
  {
    hide Dealt, AddrSet, NoTwins;
    if list != [] {
      DealtAddresses(conf, hints, list, left, list[0]);
    } else {
      forall k | 0 <= k < |conf| ensures conf[k].addr !in AddrSet(hints) {
        DealtAddresses(conf, hints, list, left, conf[k]);
      }
    }
  }

  lemma {:induction false} OffersAddresses(conf: seq<Value>, ia: IaSpec, host: Host, pools: Pools,
                                           leases: map<Addr, bool>)
    requires ia.iatype == NA && Typed(conf, NA) && NoTwins(conf) && ListOnly(conf, ia.hints, host)
    ensures var o := Offers(conf, ia, host, pools, leases);
            && (o.list != [] ==> AddressesOffered(conf, ia.hints, leases, o.list, o.conf))
            && (o.list == [] ==>
                  o.conf == conf && !AnyNamed(conf, ia.hints)
                  && forall k :: 0 <= k < |conf| ==> HintAddr(conf[k]) in leases)
  {
    hide Dealt, OfferHints, FirstFree, NoTwins, AnyNamed;
    assert ia.hints[..|ia.hints|] == ia.hints;
    AddressesDealt(conf, ia.hints, |ia.hints|, host, pools, leases);
    var o := OfferHints(conf, ia.hints, host, NA, pools, leases);
    DealtAny(conf, ia.hints, o.list, o.conf);
    if o.list == [] {
      NothingDealt(conf, ia.hints, o.conf);
      SpareFound(conf, NA, leases);
    }
  }

  lemma {:induction false} OfferedMembers(conf: seq<Value>, hints: seq<Value>, leases: map<Addr, bool>,
                                          vals: seq<Value>, left: seq<Value>)
    requires AddressesOffered(conf, hints, leases, vals, left) && Typed(conf, NA) && NoTwins(conf)
    ensures AnyFree(conf, hints, leases) <==> exists k :: 0 <= k < |vals| && HintAddr(vals[k]) !in leases
  {
    hide Dealt, AddrSet, NoTwins;
    if AnyNamed(conf, hints) {
      forall v ensures v in vals <==> v in conf && v.addr in AddrSet(hints) {
        DealtAddresses(conf, hints, vals, left, v);
      }
      if AnyFree(conf, hints, leases) {
        var k :| 0 <= k < |conf| && HintAddr(conf[k]) !in leases && HintAddr(conf[k]) in AddrSet(hints);
        assert conf[k] in vals;
      }
      if k :| 0 <= k < |vals| && HintAddr(vals[k]) !in leases {
        assert vals[k] in vals && vals[k] in conf;
      }
    } else {
      var i :| FirstSpare(conf, NA, leases, i) && vals == [conf[i]];
      assert HintAddr(vals[0]) !in leases;
    }
  }

  lemma {:induction false} SomeKept(vals: seq<Value>, m: map<Addr, bool>)
    requires Typed(vals, NA)
    ensures LeaseAll(vals, m).0 != [] <==> exists k :: 0 <= k < |vals| && HintAddr(vals[k]) !in m
  {
    hide LeaseAll;
    LeasesSome(vals, m);
    if k :| 0 <= k < |vals| && HintAddr(vals[k]) !in m {
      NamedIn(vals, vals[k]);
    }
  }

  // The binding holds exactly the addresses listed that were free.
  ghost predicate HoldsFree(st: State, duid: Duid, iaid: uint32, vals: seq<Value>, leases: map<Addr, bool>) {
    var i := FindBinding(st.bindings, duid, NA, iaid);
    i >= 0 && forall v :: v in st.bindings[i].vals <==> v in vals && HintAddr(v) !in leases
  }

  lemma {:induction false} AddsFree(st: State, duid: Duid, iaid: uint32, vals: seq<Value>, now: int)
    requires AllFree(vals, map[]) && FindBinding(st.bindings, duid, NA, iaid) < 0
    ensures var r := AddBinding(st, duid, NA, iaid, vals, now);
            && (r.Some? <==> exists k :: 0 <= k < |vals| && HintAddr(vals[k]) !in st.leases)
            && (r.Some? ==> HoldsFree(r.value, duid, iaid, vals, st.leases))
  {
    hide LeaseAll, FindBinding;
    var kept := LeaseAll(vals, st.leases).0;
    SomeKept(vals, st.leases);
    FindAppended(st.bindings, NewBinding(duid, NA, iaid, kept, now));
    forall v ensures v in kept <==> v in vals && HintAddr(v) !in st.leases {
      KeptWhenFree(vals, st.leases, v);
    }
  }

  /** An IA_NA without a binding, of a client with configured addresses.  A Request is
      answered if and only if a configured address is free which, as soon as any hint
      names a configured address, must itself be named.  The Reply lists the addresses
      named, in the order of the hints, or else the first free one; the binding gets
      those listed that were free. */
  lemma {:induction false} AddressClientServed(st: State, conf: seq<Value>, ia: IaSpec, host: Host, pools: Pools,
                                               now: int)
    requires ia.iatype == NA && FindBinding(st.bindings, host.duid, NA, ia.iaid) < 0
    requires Typed(conf, NA) && NoTwins(conf) && DistinctHints(ia.hints) && ListOnly(conf, ia.hints, host)
    ensures var m := MakeIa(st, conf, ia, host, pools, true, now);
            && (m.reply.Some? <==> AnyFree(conf, ia.hints, st.leases))
            && (m.reply.None? ==> m.st == st)
            && (m.reply.Some? ==>
                  var vals := Listed(m.reply.value);
                  && AddressesOffered(conf, ia.hints, st.leases, vals, m.conf)
                  && m.reply.value == IaOption(NA, ia.iaid, vals)
                  && HoldsFree(m.st, host.duid, ia.iaid, vals, st.leases))
  {
    hide AddressesOffered, Offers, AddBinding, IaOption, Listed, FindBinding, HoldsFree, NoTwins, AnyNamed, AllFree;
    hide DistinctHints, AddrSet;
    var o := Offers(conf, ia, host, pools, st.leases);
    OffersAddresses(conf, ia, host, pools, st.leases);
    OffersDiffer(conf, ia, host, pools, st.leases);
    ListedBack(NA, ia.iaid, o.list);
    AddsFree(st, host.duid, ia.iaid, o.list, now);
    if o.list != [] {
      OfferedMembers(conf, ia.hints, st.leases, o.list, o.conf);
    }
  }

  /** In an Advertise a named address is offered even if it is leased: there is one if
      and only if a hint names a configured address or some configured address is free. */
  lemma {:induction false} AddressClientOffered(st: State, conf: seq<Value>, ia: IaSpec, host: Host, pools: Pools,
                                                now: int)
    requires ia.iatype == NA && FindBinding(st.bindings, host.duid, NA, ia.iaid) < 0
    requires Typed(conf, NA) && NoTwins(conf) && ListOnly(conf, ia.hints, host)
    ensures var m := MakeIa(st, conf, ia, host, pools, false, now);
            && m.st == st
            && (m.reply.Some? <==>
                  AnyNamed(conf, ia.hints) || exists k :: 0 <= k < |conf| && HintAddr(conf[k]) !in st.leases)
            && (m.reply.Some? ==>
                  AddressesOffered(conf, ia.hints, st.leases, Listed(m.reply.value), m.conf))
  {
    hide Offers, IaOption, Listed, FindBinding, NoTwins, AddrSet, Dealt;
    var o := Offers(conf, ia, host, pools, st.leases);
    OffersAddresses(conf, ia, host, pools, st.leases);
    ListedBack(NA, ia.iaid, o.list);
  }

  /** A configured address that is free is not enough for a Reply: the client names its
      first address, which another one holds, and gets nothing, although its second is
      free.  Without the hint it would have got that one. */
  lemma {:induction false} NamedButLeased(x: Addr, y: Addr)
    requires x != y
    ensures var vx, vy := StatefulAddr(10, 20, x), StatefulAddr(10, 20, y);
            var st, host := OneHolder(vx), Host([2], [], [vx, vy], None);
            && Inv(st) && y !in st.leases
            && MakeIa(st, [vx, vy], IaSpec(NA, 7, [vx]), host, map[], true, 0).reply.None?
            && MakeIa(st, [vx, vy], IaSpec(NA, 7, []), host, map[], true, 0).reply.Some?
  {
    hide MakeIa, Inv;
    var vx, vy := StatefulAddr(10, 20, x), StatefulAddr(10, 20, y);
    var st, host, conf := OneHolder(vx), Host([2], [], [vx, vy], None), [vx, vy];
    OneHolderInv(vx);
    AddressClientServed(st, conf, IaSpec(NA, 7, [vx]), host, map[], 0);
    AddressClientServed(st, conf, IaSpec(NA, 7, []), host, map[], 0);
    assert AddrSet([vx]) == {x};
    assert HintAddr(conf[0]) in AddrSet([vx]) && HintAddr(conf[1]) !in st.leases;
    assert AnyFree(conf, [], st.leases);
  }
}
