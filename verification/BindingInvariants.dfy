/** What every operation on the bindings keeps: the lease table holds exactly
    the addresses of the IA_NA bindings, each once, and the declined ones. */
module BindingInvariants {
  import opened Bytes
  import opened ListVals
  import opened Bindings

  // ---- counting held addresses -------------------------------------------

  function Count(vals: seq<Value>, a: Addr): nat {
    if vals == [] then 0
    else Count(vals[..|vals| - 1], a) + if vals[|vals| - 1].StatefulAddr? && vals[|vals| - 1].addr == a then 1 else 0
  }

  /** How often one binding holds an address. */
  function HeldOf(b: Binding, a: Addr): nat {
    if b.iatype == NA then Count(b.vals, a) else 0
  }

  /** How often all bindings together hold an address. */
  function Held(bs: seq<Binding>, a: Addr): nat {
    if bs == [] then 0 else Held(bs[..|bs| - 1], a) + HeldOf(bs[|bs| - 1], a)
  }

  /** One for an address leased and not declined, zero otherwise. */
  function Leased(leases: map<Addr, bool>, a: Addr): nat {
    if a in leases && !leases[a] then 1 else 0
  }

  predicate Typed(vals: seq<Value>, t: IaType) {
    forall k :: 0 <= k < |vals| ==> if t == NA then vals[k].StatefulAddr? else vals[k].Prefix?
  }

  predicate BindingOk(b: Binding) {
    b.vals != [] && Typed(b.vals, b.iatype)
  }

  predicate SameKey(b: Binding, c: Binding) {
    HasKey(b, c.duid, c.iatype, c.iaid)
  }

  predicate UniqueKeys(bs: seq<Binding>) {
    forall i, j :: 0 <= i < j < |bs| ==> !SameKey(bs[i], bs[j])
  }

  ghost predicate Inv(st: State) {
    && UniqueKeys(st.bindings)
    && (forall i :: 0 <= i < |st.bindings| ==> BindingOk(st.bindings[i]))
    && (forall a :: Held(st.bindings, a) == Leased(st.leases, a))
  }

  /** Every declined address is still in the table and still declined. */
  ghost predicate DeclinedKept(m: map<Addr, bool>, m': map<Addr, bool>) {
    forall a :: a in m && m[a] ==> a in m' && m'[a]
  }

  /** One step from a sound state: the new state is sound and no decline is forgotten. */
  ghost predicate Sound(st: State, st': State) {
    Inv(st') && DeclinedKept(st.leases, st'.leases)
  }

  // ---- counting under list operations ------------------------------------

  lemma {:induction false} CountAppend(s: seq<Value>, t: seq<Value>, a: Addr)
    ensures Count(s + t, a) == Count(s, a) + Count(t, a)
  {
    if t == [] {
      assert s + t == s;
    } else {
      CountAppend(s, t[..|t| - 1], a);
      assert (s + t)[..|s + t| - 1] == s + t[..|t| - 1];
    }
  }

  lemma {:induction false} CountPush(s: seq<Value>, v: Value, a: Addr)
    ensures Count(s + [v], a) == Count(s, a) + if v.StatefulAddr? && v.addr == a then 1 else 0
  {
    assert (s + [v])[..|s|] == s;
  }

  lemma {:induction false} CountRemoveAt(s: seq<Value>, i: nat, a: Addr)
    requires i < |s|
    ensures Count(s, a) == Count(RemoveAt(s, i), a) + Count([s[i]], a)
  {
    assert s == s[..i] + [s[i]] + s[i + 1..];
    CountAppend(s[..i] + [s[i]], s[i + 1..], a);
    CountAppend(s[..i], [s[i]], a);
    CountAppend(s[..i], s[i + 1..], a);
  }

  lemma {:induction false} CountAt(s: seq<Value>, i: nat)
    requires i < |s| && s[i].StatefulAddr?
    ensures Count(s, s[i].addr) >= 1
  {
    CountRemoveAt(s, i, s[i].addr);
    assert [s[i]][..0] == [];
  }

  lemma {:induction false} AddrSetPush(s: seq<Value>, v: Value)
    ensures AddrSet(s + [v]) == AddrSet(s) + if v.StatefulAddr? then {v.addr} else {}
  {
    assert forall w :: w in s + [v] <==> w in s || w == v;
    assert v in s + [v];
  }

  lemma {:induction false} CountPositive(s: seq<Value>, a: Addr)
    ensures Count(s, a) > 0 <==> a in AddrSet(s)
  {
    if s == [] {
    } else {
      CountPositive(s[..|s| - 1], a);
      AddrSetPush(s[..|s| - 1], s[|s| - 1]);
      assert s == s[..|s| - 1] + [s[|s| - 1]];
    }
  }

  lemma {:induction false} HeldAppend(s: seq<Binding>, t: seq<Binding>, a: Addr)
    ensures Held(s + t, a) == Held(s, a) + Held(t, a)
  {
    if t == [] {
      assert s + t == s;
    } else {
      HeldAppend(s, t[..|t| - 1], a);
      assert (s + t)[..|s + t| - 1] == s + t[..|t| - 1];
    }
  }

  lemma {:induction false} HeldOne(b: Binding, a: Addr)
    ensures Held([b], a) == HeldOf(b, a)
  {
    assert [b][..0] == [];
  }

  lemma {:induction false} HeldSplit(bs: seq<Binding>, i: nat, a: Addr)
    requires i < |bs|
    ensures Held(bs, a) == Held(RemoveAt(bs, i), a) + HeldOf(bs[i], a)
  {
    assert bs == bs[..i] + [bs[i]] + bs[i + 1..];
    HeldAppend(bs[..i] + [bs[i]], bs[i + 1..], a);
    HeldAppend(bs[..i], [bs[i]], a);
    HeldAppend(bs[..i], bs[i + 1..], a);
    HeldOne(bs[i], a);
  }

  lemma {:induction false} HeldUpdate(bs: seq<Binding>, i: nat, b: Binding, a: Addr)
    requires i < |bs|
    ensures Held(bs[i := b], a) + HeldOf(bs[i], a) == Held(bs, a) + HeldOf(b, a)
  {
    HeldSplit(bs, i, a);
    HeldSplit(bs[i := b], i, a);
    assert RemoveAt(bs, i) == RemoveAt(bs[i := b], i);
  }

  // ---- the three ways a binding list changes -----------------------------

  lemma {:induction false} ReplaceKeepsInv(st: State, i: nat, b: Binding, leases: map<Addr, bool>)
    requires Inv(st) && i < |st.bindings|
    requires SameKey(b, st.bindings[i]) && BindingOk(b)
    requires forall a :: HeldOf(b, a) + Leased(st.leases, a) == HeldOf(st.bindings[i], a) + Leased(leases, a)
    ensures Inv(State(st.bindings[i := b], leases))
  {
    forall a ensures Held(st.bindings[i := b], a) == Leased(leases, a) {
      HeldUpdate(st.bindings, i, b, a);
    }
  }

  lemma {:induction false} DropKeepsInv(st: State, i: nat, leases: map<Addr, bool>)
    requires Inv(st) && i < |st.bindings|
    requires forall a :: Leased(st.leases, a) == HeldOf(st.bindings[i], a) + Leased(leases, a)
    ensures Inv(State(RemoveAt(st.bindings, i), leases))
  {
    forall a ensures Held(RemoveAt(st.bindings, i), a) == Leased(leases, a) {
      HeldSplit(st.bindings, i, a);
    }
  }

  lemma {:induction false} AppendKeepsInv(st: State, b: Binding, leases: map<Addr, bool>)
    requires Inv(st) && BindingOk(b)
    requires forall j :: 0 <= j < |st.bindings| ==> !SameKey(st.bindings[j], b)
    requires forall a :: Leased(leases, a) == HeldOf(b, a) + Leased(st.leases, a)
    ensures Inv(State(st.bindings + [b], leases))
  {
    forall a ensures Held(st.bindings + [b], a) == Leased(leases, a) {
      HeldAppend(st.bindings, [b], a);
      HeldOne(b, a);
    }
  }

  /** A binding holds an address at most once, and then it is leased. */
  lemma {:induction false} HeldIsLeased(st: State, i: nat, a: Addr)
    requires Inv(st) && i < |st.bindings|
    ensures HeldOf(st.bindings[i], a) <= Leased(st.leases, a) <= 1
  {
    HeldSplit(st.bindings, i, a);
  }

  // ---- leasing -----------------------------------------------------------

  // What leasing does to one address of the table: nothing if it is there already.
  ghost predicate LeaseBalance(kept: seq<Value>, m: map<Addr, bool>, m': map<Addr, bool>, a: Addr) {
    && Leased(m', a) == Count(kept, a) + Leased(m, a)
    && (a in m ==> a in m' && m'[a] == m[a] && Count(kept, a) == 0)
  }

  lemma {:induction false} LeaseBalancePush(kept: seq<Value>, v: Value, m: map<Addr, bool>, m': map<Addr, bool>,
                                            a: Addr)
    requires LeaseBalance(kept, m, m', a) && (v.StatefulAddr? ==> v.addr !in m')
    ensures LeaseBalance(kept + [v], m, if v.StatefulAddr? then m'[v.addr := false] else m', a)
  {
    hide Count;
    CountPush(kept, v, a);
  }

  lemma {:induction false} LeaseAllCounts(vals: seq<Value>, m: map<Addr, bool>, a: Addr)
    ensures LeaseBalance(LeaseAll(vals, m).0, m, LeaseAll(vals, m).1, a)
  {
    if vals == [] {
    } else {
      LeaseAllCounts(vals[..|vals| - 1], m, a);
      hide LeaseBalance;
      var (kept, m1) := LeaseAll(vals[..|vals| - 1], m);
      var v := vals[|vals| - 1];
      if !(v.StatefulAddr? && v.addr in m1) {
        LeaseBalancePush(kept, v, m, m1, a);
      }
    }
  }

  lemma {:induction false} LeaseAllTyped(vals: seq<Value>, m: map<Addr, bool>, t: IaType)
    requires Typed(vals, t)
    ensures Typed(LeaseAll(vals, m).0, t)
  {
    if vals == [] {
    } else {
      LeaseAllTyped(vals[..|vals| - 1], m, t);
    }
  }

  lemma {:induction false} AddKeepsInv(st: State, duid: Duid, t: IaType, iaid: uint32, vals: seq<Value>, now: int)
    requires Inv(st) && vals != [] && Typed(vals, t)
    requires FindBinding(st.bindings, duid, t, iaid) < 0
    ensures var r := AddBinding(st, duid, t, iaid, vals, now); r.Some? ==> Sound(st, r.value)
  {
    var (kept, m) := LeaseAll(vals, st.leases);
    LeaseAllTyped(vals, st.leases, t);
    if t == PD {
      AppendKeepsInv(st, NewBinding(duid, t, iaid, vals, now), st.leases);
    } else if kept != [] {
      var b := NewBinding(duid, t, iaid, kept, now);
      forall a
        ensures Leased(m, a) == HeldOf(b, a) + Leased(st.leases, a)
        ensures a in st.leases ==> a in m && m[a] == st.leases[a]
      {
        LeaseAllCounts(vals, st.leases, a);
      }
      AppendKeepsInv(st, b, m);
    }
  }

  // ---- cutting values out of a binding -----------------------------------

  lemma {:induction false} CutCounts(vals: seq<Value>, hints: seq<Value>, a: Addr)
    ensures var (left, taken) := Cut(vals, hints); Count(vals, a) == Count(left, a) + Count(taken, a)
  {
    if hints == [] {
    } else {
      CutCounts(vals, hints[..|hints| - 1], a);
      var (left, taken) := Cut(vals, hints[..|hints| - 1]);
      var i := Find(left, hints[|hints| - 1]);
      if i >= 0 {
        CountRemoveAt(left, i, a);
        CountAppend(taken, [left[i]], a);
      }
    }
  }

  lemma {:induction false} CutTyped(vals: seq<Value>, hints: seq<Value>, t: IaType)
    requires Typed(vals, t)
    ensures Typed(Cut(vals, hints).0, t)
  {
    if hints == [] {
    } else {
      CutTyped(vals, hints[..|hints| - 1], t);
    }
  }

  // The lease table after the addresses in `gone` left binding `i`, either
  // released (`m - gone`) or declined (`DeclineAll(m, gone)`).
  lemma {:induction false} GoneIsUnleased(m: map<Addr, bool>, gone: set<Addr>, a: Addr)
    ensures Leased(m - gone, a) == Leased(DeclineAll(m, gone), a) == if a in gone then 0 else Leased(m, a)
  {
  }

  lemma {:induction false} PutKeepsInv(st: State, i: nat, left: seq<Value>, b: Binding, leases: map<Addr, bool>)
    requires Inv(st) && i < |st.bindings|
    requires Typed(left, st.bindings[i].iatype) && SameKey(b, st.bindings[i]) && b.vals == left
    requires forall a :: Leased(st.leases, a) + HeldOf(b, a) == HeldOf(st.bindings[i], a) + Leased(leases, a)
    ensures Inv(if left == [] then State(RemoveAt(st.bindings, i), leases) else State(st.bindings[i := b], leases))
  {
    if left == [] {
      DropKeepsInv(st, i, leases);
    } else {
      ReplaceKeepsInv(st, i, b, leases);
    }
  }

  // What is left and what is taken, seen from the lease table.
  lemma {:induction false} CutBalance(st: State, i: nat, hints: seq<Value>, a: Addr)
    requires Inv(st) && i < |st.bindings| && st.bindings[i].iatype == NA
    ensures var (left, taken) := Cut(st.bindings[i].vals, hints);
            && Leased(st.leases, a) + Count(left, a) ==
               HeldOf(st.bindings[i], a) + (if a in AddrSet(taken) then 0 else Leased(st.leases, a))
            && (a in AddrSet(taken) ==> Leased(st.leases, a) == 1)
  {
    var vals := st.bindings[i].vals;
    CutCounts(vals, hints, a);
    CountPositive(Cut(vals, hints).1, a);
    HeldIsLeased(st, i, a);
  }

  lemma {:induction false} CutKeepsInv(st: State, i: nat, hints: seq<Value>)
    requires Inv(st) && i < |st.bindings|
    ensures var (left, taken) := Cut(st.bindings[i].vals, hints);
            var t := st.bindings[i].iatype;
            && Sound(st, PutVals(st, i, left, if t == NA then st.leases - AddrSet(taken) else st.leases))
            && (t == NA ==> Sound(st, PutVals(st, i, left, DeclineAll(st.leases, AddrSet(taken)))))
  {
    hide Cut, AddrSet, Inv, Leased, Count;
    var was := st.bindings[i];
    var (left, taken) := Cut(was.vals, hints);
    var b := was.(vals := left);
    InvTyped(st, i);
    CutTyped(was.vals, hints, was.iatype);
    if was.iatype == NA {
      forall a
        ensures Leased(st.leases, a) + HeldOf(b, a) == HeldOf(was, a) + Leased(st.leases - AddrSet(taken), a)
        ensures Leased(st.leases, a) + HeldOf(b, a) == HeldOf(was, a) + Leased(DeclineAll(st.leases, AddrSet(taken)), a)
        ensures a in st.leases && st.leases[a] ==> a !in AddrSet(taken)
      {
        CutBalance(st, i, hints, a);
        GoneIsUnleased(st.leases, AddrSet(taken), a);
        if a in st.leases && st.leases[a] {
          DeclinedIsNotLeased(st.leases, a);
        }
      }
      PutKeepsInv(st, i, left, b, st.leases - AddrSet(taken));
      PutKeepsInv(st, i, left, b, DeclineAll(st.leases, AddrSet(taken)));
    } else {
      PutKeepsInv(st, i, left, b, st.leases);
    }
  }

  lemma {:induction false} InvTyped(st: State, i: nat)
    requires Inv(st) && i < |st.bindings|
    ensures BindingOk(st.bindings[i])
  {
  }

  lemma {:induction false} DeclinedIsNotLeased(m: map<Addr, bool>, a: Addr)
    requires a in m && m[a]
    ensures Leased(m, a) == 0
  {
  }

  lemma {:induction false} ReleaseKeepsInv(st: State, duid: Duid, ia: IaSpec)
    requires Inv(st)
    ensures Sound(st, ReleaseIa(st, duid, ia))
  {
    var i := FindBinding(st.bindings, duid, ia.iatype, ia.iaid);
    if i >= 0 {
      CutKeepsInv(st, i, ia.hints);
    }
  }

  lemma {:induction false} DeclineKeepsInv(st: State, duid: Duid, ia: IaSpec)
    requires Inv(st)
    ensures Sound(st, DeclineIa(st, duid, ia))
  {
    var i := FindBinding(st.bindings, duid, ia.iatype, ia.iaid);
    if i >= 0 && ia.iatype == NA {
      CutKeepsInv(st, i, ia.hints);
    }
  }

  lemma {:induction false} RemoveKeepsInv(st: State, i: nat)
    requires Inv(st) && i < |st.bindings|
    ensures Sound(st, RemoveBinding(st, i))
  {
    var b := st.bindings[i];
    forall a
      ensures Leased(st.leases, a) == HeldOf(b, a) + Leased(st.leases - Freed(b), a)
      ensures a in Freed(b) ==> Leased(st.leases, a) == 1
    {
      CountPositive(b.vals, a);
      HeldIsLeased(st, i, a);
      GoneIsUnleased(st.leases, Freed(b), a);
    }
    DropKeepsInv(st, i, st.leases - Freed(b));
  }

  lemma {:induction false} RenewKeepsInv(st: State, i: nat, now: int)
    requires Inv(st) && i < |st.bindings|
    ensures Sound(st, RenewAt(st, i, now))
  {
    ReplaceKeepsInv(st, i, Renewed(st.bindings[i], now), st.leases);
  }

  // ---- expiry ------------------------------------------------------------

  lemma {:induction false} ExpiredPush(vals: seq<Value>, past: uint32, a: Addr)
    requires vals != []
    ensures var v := vals[|vals| - 1];
            a in ExpiredAddrs(vals, past) <==>
            a in ExpiredAddrs(vals[..|vals| - 1], past) || (v.StatefulAddr? && Expired(v, past) && v.addr == a)
  {
    assert vals == vals[..|vals| - 1] + [vals[|vals| - 1]];
  }

  lemma {:induction false} LiveCounts(vals: seq<Value>, past: uint32, a: Addr)
    ensures Count(Live(vals, past), a) <= Count(vals, a)
    ensures Count(Live(vals, past), a) < Count(vals, a) <==> a in ExpiredAddrs(vals, past)
  {
    if vals == [] {
    } else {
      var n := |vals| - 1;
      LiveCounts(vals[..n], past, a);
      CountPush(Live(vals[..n], past), vals[n], a);
      ExpiredPush(vals, past, a);
    }
  }

  lemma {:induction false} LiveTyped(vals: seq<Value>, past: uint32, t: IaType)
    requires Typed(vals, t)
    ensures Typed(Live(vals, past), t)
  {
    if vals == [] {
    } else {
      LiveTyped(vals[..|vals| - 1], past, t);
    }
  }

  lemma {:induction false} TimeoutKeepsInv(st: State, i: nat, now: int)
    requires Inv(st) && i < |st.bindings|
    ensures Sound(st, Timeout(st, i, now))
  {
    var old_ := st.bindings[i];
    var past := Past(now, old_.updatetime);
    var left := Live(old_.vals, past);
    LiveTyped(old_.vals, past, old_.iatype);
    var gone := if old_.iatype == NA then ExpiredAddrs(old_.vals, past) else {};
    assert st.leases - {} == st.leases;
    var d := Duration(left, past);
    var b := old_.(vals := left, duration := d, timer := if d == INFINITE then old_.timer else Some(now + d));
    forall a
      ensures Leased(st.leases, a) + HeldOf(b, a) == HeldOf(old_, a) + Leased(st.leases - gone, a)
      ensures a in gone ==> Leased(st.leases, a) == 1
    {
      LiveCounts(old_.vals, past, a);
      HeldIsLeased(st, i, a);
      GoneIsUnleased(st.leases, gone, a);
    }
    PutKeepsInv(st, i, left, b, st.leases - gone);
  }

  // ---- make_ia -----------------------------------------------------------

  /** A host's configured lists carry values of the right kind (config.c). */
  predicate HostOk(h: Host) {
    Typed(h.prefixes, PD) && Typed(h.addrs, NA)
  }

  lemma {:induction false} OfferHintsTyped(conf: seq<Value>, hints: seq<Value>, host: Host, t: IaType, pools: Pools,
                                           leases: map<Addr, bool>)
    requires Typed(conf, t)
    ensures var o := OfferHints(conf, hints, host, t, pools, leases); Typed(o.conf, t) && Typed(o.list, t)
  {
    if hints == [] {
    } else {
      OfferHintsTyped(conf, hints[..|hints| - 1], host, t, pools, leases);
      var o := OfferHints(conf, hints[..|hints| - 1], host, t, pools, leases);
      OfferHintTyped(o, hints[|hints| - 1], host, t, pools, leases);
    }
  }

  lemma {:induction false} OfferHintTyped(o: Offer, hint: Value, host: Host, t: IaType, pools: Pools,
                                          leases: map<Addr, bool>)
    requires Typed(o.conf, t) && Typed(o.list, t)
    ensures var o' := OfferHint(o, hint, host, t, pools, leases); Typed(o'.conf, t) && Typed(o'.list, t)
  {
    hide PoolAddr, MatchIndex;
  }

  lemma {:induction false} OffersTyped(conf: seq<Value>, ia: IaSpec, host: Host, pools: Pools, leases: map<Addr, bool>)
    requires Typed(conf, ia.iatype)
    ensures var o := Offers(conf, ia, host, pools, leases); Typed(o.conf, ia.iatype) && Typed(o.list, ia.iatype)
  {
    hide OfferHints, PoolAddr, FirstFree;
    OfferHintsTyped(conf, ia.hints, host, ia.iatype, pools, leases);
  }

  lemma {:induction false} RemoveMatchesTyped(conf: seq<Value>, keys: seq<Value>, t: IaType)
    requires Typed(conf, t)
    ensures Typed(RemoveMatches(conf, keys), t)
  {
    if keys == [] {
    } else {
      RemoveMatchesTyped(conf, keys[..|keys| - 1], t);
    }
  }

  lemma {:induction false} MakeIaKeepsInv(st: State, conf: seq<Value>, ia: IaSpec, host: Host, pools: Pools,
                                          bind: bool, now: int)
    requires Inv(st) && Typed(conf, ia.iatype)
    ensures var m := MakeIa(st, conf, ia, host, pools, bind, now); Sound(st, m.st) && Typed(m.conf, ia.iatype)
  {
    var i := FindBinding(st.bindings, host.duid, ia.iatype, ia.iaid);
    if i >= 0 {
      RenewKeepsInv(st, i, now);
      RemoveMatchesTyped(conf, st.bindings[i].vals, ia.iatype);
    } else {
      OffersTyped(conf, ia, host, pools, st.leases);
      var o := Offers(conf, ia, host, pools, st.leases);
      if o.list != [] {
        AddKeepsInv(st, host.duid, ia.iatype, ia.iaid, o.list, now);
      }
    }
  }

  // ---- what the invariant means ------------------------------------------

  lemma {:induction false} HeldSomewhere(bs: seq<Binding>, a: Addr)
    requires Held(bs, a) > 0
    ensures exists i :: 0 <= i < |bs| && HeldOf(bs[i], a) > 0
  {
    var n := |bs| - 1;
    if HeldOf(bs[n], a) == 0 {
      HeldSomewhere(bs[..n], a);
      var i :| 0 <= i < n && HeldOf(bs[..n][i], a) > 0;
      assert HeldOf(bs[i], a) > 0;
    }
  }

  // Binding `i` holds `a` as its `k`-th value.
  predicate HoldsAt(bs: seq<Binding>, i: int, k: int, a: Addr) {
    && 0 <= i < |bs| && bs[i].iatype == NA
    && 0 <= k < |bs[i].vals| && bs[i].vals[k].StatefulAddr? && bs[i].vals[k].addr == a
  }

  lemma {:induction false} CountLocates(vals: seq<Value>, a: Addr)
    requires Count(vals, a) > 0
    ensures exists k :: 0 <= k < |vals| && vals[k].StatefulAddr? && vals[k].addr == a
  {
    var n := |vals| - 1;
    if !(vals[n].StatefulAddr? && vals[n].addr == a) {
      CountLocates(vals[..n], a);
    }
  }

  /** The lease table is the disjoint union of the addresses held by IA_NA
      bindings and the declined addresses. */
  lemma {:induction false} LeasedIffHeldOrDeclined(st: State, a: Addr)
    requires Inv(st)
    ensures a in st.leases <==> (exists i, k :: HoldsAt(st.bindings, i, k, a)) || (a in st.leases && st.leases[a])
    ensures !((exists i, k :: HoldsAt(st.bindings, i, k, a)) && a in st.leases && st.leases[a])
  {
    if Held(st.bindings, a) > 0 {
      HeldSomewhere(st.bindings, a);
      var i :| 0 <= i < |st.bindings| && HeldOf(st.bindings[i], a) > 0;
      CountLocates(st.bindings[i].vals, a);
      var vals := st.bindings[i].vals;
      var k :| 0 <= k < |vals| && vals[k].StatefulAddr? && vals[k].addr == a;
      assert HoldsAt(st.bindings, i, k, a);
    }
    forall i, k | HoldsAt(st.bindings, i, k, a) ensures Leased(st.leases, a) == 1 {
      CountAt(st.bindings[i].vals, k);
      HeldIsLeased(st, i, a);
    }
  }

  /** No address is held twice, in one binding or in two. */
  lemma {:induction false} HeldOnce(st: State, a: Addr, i: int, k: int, j: int, l: int)
    requires Inv(st) && HoldsAt(st.bindings, i, k, a) && HoldsAt(st.bindings, j, l, a)
    ensures i == j && k == l
  {
    CountAt(st.bindings[i].vals, k);
    CountAt(st.bindings[j].vals, l);
    if i != j {
      HeldTwice(st.bindings, i, j, a);
    } else if k != l {
      CountTwice(st.bindings[i].vals, k, l, a);
      HeldIsLeased(st, i, a);
    }
  }

  lemma {:induction false} HeldTwice(bs: seq<Binding>, i: nat, j: nat, a: Addr)
    requires i < |bs| && j < |bs| && i != j && HeldOf(bs[i], a) >= 1 && HeldOf(bs[j], a) >= 1
    ensures Held(bs, a) >= 2
  {
    HeldSplit(bs, i, a);
    var j' := if j < i then j else j - 1;
    assert RemoveAt(bs, i)[j'] == bs[j];
    HeldSplit(RemoveAt(bs, i), j', a);
  }

  lemma {:induction false} CountTwice(vals: seq<Value>, k: nat, l: nat, a: Addr)
    requires k < |vals| && l < |vals| && k != l
    requires vals[k].StatefulAddr? && vals[k].addr == a && vals[l].StatefulAddr? && vals[l].addr == a
    ensures Count(vals, a) >= 2
  {
    CountRemoveAt(vals, k, a);
    CountPush([], vals[k], a);
    assert [] + [vals[k]] == [vals[k]];
    var l' := if l < k then l else l - 1;
    assert RemoveAt(vals, k)[l'] == vals[l];
    CountAt(RemoveAt(vals, k), l');
  }

}
