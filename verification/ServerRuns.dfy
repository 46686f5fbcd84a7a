/** Whole runs of the server: every message, timer and control command as one
    step, and what holds after any number of them. */
module ServerRuns {
  import opened Bytes
  import opened ListVals
  import opened Pool
  import opened Bindings
  import opened BindingInvariants

  datatype MadeAll = MadeAll(st: State, conf: seq<Value>, replies: seq<Option<ListVal>>)

  /** make_ia for each IA of a message in turn, the configured values being used
      up on the way; a Confirm stops at the first IA that cannot be met. */
  ghost function MakeIas(st: State, conf: seq<Value>, ias: seq<IaSpec>, host: Host, pools: Pools,
                         bind: bool, stop: bool, now: int): MadeAll
  {
    if ias == [] then MadeAll(st, conf, [])
    else
      var r := MakeIas(st, conf, ias[..|ias| - 1], host, pools, bind, stop, now);
      if stop && None in r.replies then r
      else
        var m := MakeIa(r.st, r.conf, ias[|ias| - 1], host, pools, bind, now);
        MadeAll(m.st, m.conf, r.replies + [m.reply])
  }

  /** update_ia for each IA of a Renew or Rebind; a Rebind is dropped at the
      first IA without a binding. */
  function UpdateIas(st: State, duid: Duid, ias: seq<IaSpec>, stop: bool, now: int): (r: (State, bool)) {
    if ias == [] then (st, true)
    else
      var (st1, ok) := UpdateIas(st, duid, ias[..|ias| - 1], stop, now);
      var ia := ias[|ias| - 1];
      if !ok || (stop && FindBinding(st1.bindings, duid, ia.iatype, ia.iaid) < 0) then (st1, false)
      else (UpdateIa(st1, duid, ia, now), true)
  }

  function ReleaseIas(st: State, duid: Duid, ias: seq<IaSpec>): State {
    if ias == [] then st else ReleaseIa(ReleaseIas(st, duid, ias[..|ias| - 1]), duid, ias[|ias| - 1])
  }

  function DeclineIas(st: State, duid: Duid, ias: seq<IaSpec>): State {
    if ias == [] then st else DeclineIa(DeclineIas(st, duid, ias[..|ias| - 1]), duid, ias[|ias| - 1])
  }

  /** Every address of every IA shares its first eight bytes with the link. */
  predicate OnLink(ias: seq<IaSpec>, link: Addr) {
    forall i :: 0 <= i < |ias| ==> IaOnLink(ias[i], link)
  }

  predicate IaOnLink(ia: IaSpec, link: Addr) {
    ia.hints != [] && forall k :: 0 <= k < |ia.hints| ==> HintAddr(ia.hints[k])[..8] == link[..8]
  }

  datatype Event =
    | Request(host: Host, pools: Pools, iapd: seq<IaSpec>, iana: seq<IaSpec>, now: int)
    | Solicit(host: Host, pools: Pools, iapd: seq<IaSpec>, iana: seq<IaSpec>, commit: bool, now: int)
    | Confirm(host: Host, pools: Pools, iana: seq<IaSpec>, link: Addr, now: int)
    | Renew(duid: Duid, ias: seq<IaSpec>, now: int)
    | Rebind(duid: Duid, ias: seq<IaSpec>, now: int)
    | Release(duid: Duid, ias: seq<IaSpec>)
    | Decline(duid: Duid, ias: seq<IaSpec>)
    | Timer(duid: Duid, iatype: IaType, iaid: uint32, now: int)
    | Remove(duid: Duid, iaid: uint32)

  /** Lists of values come from the configuration and the option parser by kind. */
  predicate EventOk(ev: Event) {
    match ev
    case Request(host, _, iapd, iana, _) => HostOk(host) && AllOf(iapd, PD) && AllOf(iana, NA)
    case Solicit(host, _, iapd, iana, _, _) => HostOk(host) && AllOf(iapd, PD) && AllOf(iana, NA)
    case Confirm(host, _, iana, _, _) => HostOk(host) && AllOf(iana, NA)
    case _ => true
  }

  predicate AllOf(ias: seq<IaSpec>, t: IaType) {
    forall i :: 0 <= i < |ias| ==> ias[i].iatype == t
  }

  /** The binding a control "remove" names: the IA_PD if there is one, else the IA_NA. */
  function RemoveTarget(bs: seq<Binding>, duid: Duid, iaid: uint32): (i: int)
    ensures -1 <= i < |bs|
    ensures i >= 0 && bs[i].iatype == PD ==> HasKey(bs[i], duid, PD, iaid)
    ensures i >= 0 && bs[i].iatype == NA ==>
              HasKey(bs[i], duid, NA, iaid) && forall k :: 0 <= k < |bs| ==> !HasKey(bs[k], duid, PD, iaid)
    ensures i < 0 ==> forall k :: 0 <= k < |bs| ==> !HasKey(bs[k], duid, PD, iaid) && !HasKey(bs[k], duid, NA, iaid)
  {
    var i := FindBinding(bs, duid, PD, iaid);
    if i >= 0 then i else FindBinding(bs, duid, NA, iaid)
  }

  // The prefixes of a Request or Solicit are made first, then the addresses.
  ghost function MadePd(st: State, ev: Event, bind: bool): MadeAll
    requires ev.Request? || ev.Solicit?
  {
    MakeIas(st, ev.host.prefixes, ev.iapd, ev.host, ev.pools, bind, false, ev.now)
  }

  ghost function MadeNa(st: State, ev: Event, bind: bool): MadeAll
    requires ev.Request? || ev.Solicit?
  {
    MakeIas(MadePd(st, ev, bind).st, ev.host.addrs, ev.iana, ev.host, ev.pools, bind, false, ev.now)
  }

  ghost function BindBoth(st: State, ev: Event, bind: bool): State
    requires ev.Request? || ev.Solicit?
  {
    MadeNa(st, ev, bind).st
  }

  ghost function Step(st: State, ev: Event): State {
    match ev
    case Request(_, _, _, _, _) => BindBoth(st, ev, true)
    case Solicit(_, _, _, _, commit, _) => BindBoth(st, ev, commit)
    case Confirm(host, pools, iana, link, now) =>
      if OnLink(iana, link) then MakeIas(st, host.addrs, iana, host, pools, true, true, now).st else st
    case Renew(duid, ias, now) => UpdateIas(st, duid, ias, false, now).0
    case Rebind(duid, ias, now) => UpdateIas(st, duid, ias, true, now).0
    case Release(duid, ias) => ReleaseIas(st, duid, ias)
    case Decline(duid, ias) => DeclineIas(st, duid, ias)
    case Timer(duid, t, iaid, now) =>
      var i := FindBinding(st.bindings, duid, t, iaid);
      if i < 0 then st else Timeout(st, i, now)
    case Remove(duid, iaid) =>
      var i := RemoveTarget(st.bindings, duid, iaid);
      if i < 0 then st else RemoveBinding(st, i)
  }

  ghost function Run(st: State, evs: seq<Event>): State {
    if evs == [] then st else Step(Run(st, evs[..|evs| - 1]), evs[|evs| - 1])
  }

  predicate EventsOk(evs: seq<Event>) {
    forall i :: 0 <= i < |evs| ==> EventOk(evs[i])
  }

  // ---- every run is sound ------------------------------------------------

  lemma {:induction false} MakeIasSound(st: State, conf: seq<Value>, ias: seq<IaSpec>, host: Host, pools: Pools,
                                        bind: bool, stop: bool, now: int, t: IaType)
    requires Inv(st) && Typed(conf, t) && AllOf(ias, t)
    ensures var r := MakeIas(st, conf, ias, host, pools, bind, stop, now); Sound(st, r.st) && Typed(r.conf, t)
  {
    if ias == [] {
    } else {
      MakeIasSound(st, conf, ias[..|ias| - 1], host, pools, bind, stop, now, t);
      var r := MakeIas(st, conf, ias[..|ias| - 1], host, pools, bind, stop, now);
      MakeIaKeepsInv(r.st, r.conf, ias[|ias| - 1], host, pools, bind, now);
    }
  }

  lemma {:induction false} UpdateIasSound(st: State, duid: Duid, ias: seq<IaSpec>, stop: bool, now: int)
    requires Inv(st)
    ensures Sound(st, UpdateIas(st, duid, ias, stop, now).0)
  {
    if ias == [] {
    } else {
      UpdateIasSound(st, duid, ias[..|ias| - 1], stop, now);
      var (st1, ok) := UpdateIas(st, duid, ias[..|ias| - 1], stop, now);
      var i := FindBinding(st1.bindings, duid, ias[|ias| - 1].iatype, ias[|ias| - 1].iaid);
      if i >= 0 {
        RenewKeepsInv(st1, i, now);
      }
    }
  }

  lemma {:induction false} ReleaseIasSound(st: State, duid: Duid, ias: seq<IaSpec>)
    requires Inv(st)
    ensures Sound(st, ReleaseIas(st, duid, ias))
  {
    if ias == [] {
    } else {
      ReleaseIasSound(st, duid, ias[..|ias| - 1]);
      ReleaseKeepsInv(ReleaseIas(st, duid, ias[..|ias| - 1]), duid, ias[|ias| - 1]);
    }
  }

  lemma {:induction false} DeclineIasSound(st: State, duid: Duid, ias: seq<IaSpec>)
    requires Inv(st)
    ensures Sound(st, DeclineIas(st, duid, ias))
  {
    if ias == [] {
    } else {
      DeclineIasSound(st, duid, ias[..|ias| - 1]);
      DeclineKeepsInv(DeclineIas(st, duid, ias[..|ias| - 1]), duid, ias[|ias| - 1]);
    }
  }

  lemma {:induction false} BindBothSound(st: State, ev: Event, bind: bool)
    requires Inv(st) && EventOk(ev) && (ev.Request? || ev.Solicit?)
    ensures Sound(st, BindBoth(st, ev, bind))
  {
    MakeIasSound(st, ev.host.prefixes, ev.iapd, ev.host, ev.pools, bind, false, ev.now, PD);
    var r := MakeIas(st, ev.host.prefixes, ev.iapd, ev.host, ev.pools, bind, false, ev.now);
    MakeIasSound(r.st, ev.host.addrs, ev.iana, ev.host, ev.pools, bind, false, ev.now, NA);
  }

  lemma {:induction false} StepSound(st: State, ev: Event)
    requires Inv(st) && EventOk(ev)
    ensures Sound(st, Step(st, ev))
  {
    hide Inv, MakeIas, UpdateIas, ReleaseIas, DeclineIas, BindBoth, FindBinding, RemoveTarget;
    match ev
    case Request(_, _, _, _, _) => BindBothSound(st, ev, true);
    case Solicit(_, _, _, _, commit, _) => BindBothSound(st, ev, commit);
    case Confirm(host, pools, iana, link, now) =>
      MakeIasSound(st, host.addrs, iana, host, pools, true, true, now, NA);
    case Renew(duid, ias, now) => UpdateIasSound(st, duid, ias, false, now);
    case Rebind(duid, ias, now) => UpdateIasSound(st, duid, ias, true, now);
    case Release(duid, ias) => ReleaseIasSound(st, duid, ias);
    case Decline(duid, ias) => DeclineIasSound(st, duid, ias);
    case Timer(duid, t, iaid, now) =>
      var i := FindBinding(st.bindings, duid, t, iaid);
      if i >= 0 { TimeoutKeepsInv(st, i, now); }
    case Remove(duid, iaid) =>
      var i := RemoveTarget(st.bindings, duid, iaid);
      if i >= 0 { RemoveKeepsInv(st, i); }
  }

  lemma {:induction false} RunSound(st: State, evs: seq<Event>)
    requires Inv(st) && EventsOk(evs)
    ensures Sound(st, Run(st, evs))
  {
    if evs == [] {
    } else {
      RunSound(st, evs[..|evs| - 1]);
      StepSound(Run(st, evs[..|evs| - 1]), evs[|evs| - 1]);
    }
  }

  /** Every reachable state: unique keys, no empty binding, and a lease table that
      is exactly the addresses held by IA_NA bindings, each held once, together
      with the declined addresses, none of them held. */
  lemma {:induction false} ReachableStates(evs: seq<Event>)
    requires EventsOk(evs)
    ensures var st := Run(INIT, evs);
            && (forall i, j :: 0 <= i < j < |st.bindings| ==> !SameKey(st.bindings[i], st.bindings[j]))
            && (forall i :: 0 <= i < |st.bindings| ==> st.bindings[i].vals != [])
            && (forall a :: a in st.leases && !st.leases[a] <==> exists i, k :: HoldsAt(st.bindings, i, k, a))
            && (forall a, i, k, j, l :: HoldsAt(st.bindings, i, k, a) && HoldsAt(st.bindings, j, l, a) ==>
                  i == j && k == l)
  {
    var st := Run(INIT, evs);
    RunSound(INIT, evs);
    forall a ensures a in st.leases && !st.leases[a] <==> exists i, k :: HoldsAt(st.bindings, i, k, a) {
      LeasedIffHeldOrDeclined(st, a);
    }
    forall a, i, k, j, l | HoldsAt(st.bindings, i, k, a) && HoldsAt(st.bindings, j, l, a) ensures i == j && k == l {
      HeldOnce(st, a, i, k, j, l);
    }
  }

  lemma {:induction false} RunAppend(st: State, s: seq<Event>, t: seq<Event>)
    ensures Run(st, s + t) == Run(Run(st, s), t)
  {
    if t == [] {
      assert s + t == s;
    } else {
      RunAppend(st, s, t[..|t| - 1]);
      assert (s + t)[..|s + t| - 1] == s + t[..|t| - 1];
    }
  }

  /** An address declined at some point of a run stays in the lease table, is in
      no binding and is never usable for a pool again, whatever follows. */
  lemma {:induction false} DeclinedForever(before: seq<Event>, after: seq<Event>, a: Addr)
    requires EventsOk(before) && EventsOk(after)
    requires var st := Run(INIT, before); a in st.leases && st.leases[a]
    ensures var st := Run(INIT, before + after);
            && a in st.leases && st.leases[a] && !Usable(a, st.leases)
            && !(exists i, k :: HoldsAt(st.bindings, i, k, a))
  {
    RunSound(INIT, before);
    RunSound(Run(INIT, before), after);
    RunAppend(INIT, before, after);
    LeasedIffHeldOrDeclined(Run(INIT, before + after), a);
  }

  // Once a hint has been worked off, no value of that address is left.
  lemma {:induction false} CutTakes(vals: seq<Value>, hints: seq<Value>, h: int, a: Addr)
    requires 0 <= h < |hints| && hints[h].StatefulAddr? && hints[h].addr == a && Count(vals, a) <= 1
    ensures Count(Cut(vals, hints).0, a) == 0
  {
    var n := |hints| - 1;
    var left := Cut(vals, hints[..n]).0;
    if h < n {
      CutTakes(vals, hints[..n], h, a);
    } else {
      CutCounts(vals, hints[..n], a);
    }
    TakeOne(left, hints[n], a, h == n);
  }

  lemma {:induction false} TakeOne(left: seq<Value>, hint: Value, a: Addr, own: bool)
    requires Count(left, a) <= 1 && (!own ==> Count(left, a) == 0)
    requires own ==> hint.StatefulAddr? && hint.addr == a
    ensures Count(RemoveMatch(left, hint), a) == 0
  {
    var i := Find(left, hint);
    if i >= 0 {
      CountRemoveAt(left, i, a);
      CountPush([], left[i], a);
      assert [] + [left[i]] == [left[i]];
    } else if own && Count(left, a) > 0 {
      CountLocates(left, a);
      assert false;
    }
  }

}
