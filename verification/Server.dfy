/** The server's binding routines (dhcp6s.c), working in place on the binding
    list and the hashed lease table. */
module Server {
  import opened Bytes
  import opened ListVals
  import opened Lease
  import opened Pool
  import opened Bindings
  import opened BindingInvariants
  import opened ServerRuns
  import opened ServerReplies

  const NOADDRSAVAIL: uint16 := 2
  const NOBINDING: uint16 := 3
  const NOPREFIXAVAIL: uint16 := 6

  /** Ranges as create_pool admits them; a search in one that runs up to the all-ones
      address ends because some address is usable. */
  ghost predicate PoolsOk(pools: Pools, leases: map<Addr, bool>) {
    forall n :: n in pools ==>
      Num(pools[n].min) <= Num(pools[n].max) && (pools[n].max != ALL_ONES || exists a :: Usable(a, leases))
  }

  lemma {:induction false} PoolsOkBefore(pools: Pools, before: map<Addr, bool>, after: map<Addr, bool>)
    requires PoolsOk(pools, after) && before.Keys <= after.Keys
    ensures PoolsOk(pools, before)
  {
    forall n | n in pools && pools[n].max == ALL_ONES ensures exists a :: Usable(a, before) {
      var a :| Usable(a, after);
      assert Usable(a, before);
    }
  }

  // Answering IAs takes no lease away.
  lemma {:induction false} MakeIaLeases(st: State, conf: seq<Value>, ia: IaSpec, host: Host, pools: Pools,
                                        bind: bool, now: int)
    ensures st.leases.Keys <= MakeIa(st, conf, ia, host, pools, bind, now).st.leases.Keys
  {
    var vals := Offers(conf, ia, host, pools, st.leases).list;
    forall a | a in st.leases ensures a in LeaseAll(vals, st.leases).1 {
      LeaseAllKeys(vals, st.leases, a);
    }
  }

  lemma {:induction false} MakeIasLeases(st: State, conf: seq<Value>, ias: seq<IaSpec>, host: Host, pools: Pools,
                                         bind: bool, stop: bool, now: int, k: nat)
    requires k <= |ias|
    ensures MakeIas(st, conf, ias[..k], host, pools, bind, stop, now).st.leases.Keys
         <= MakeIas(st, conf, ias, host, pools, bind, stop, now).st.leases.Keys
    decreases |ias|
  {
    hide MakeIa;
    if k == |ias| {
      assert ias[..k] == ias;
    } else {
      var init := ias[..|ias| - 1];
      assert init[..k] == ias[..k];
      MakeIasLeases(st, conf, init, host, pools, bind, stop, now, k);
      var r := MakeIas(st, conf, init, host, pools, bind, stop, now);
      MakeIaLeases(r.st, r.conf, ias[|ias| - 1], host, pools, bind, now);
    }
  }

  /** calc_ia_timo, for a list that is not empty. */
  method CalcIaTimo(t: IaType, iaid: uint32, vals: seq<Value>) returns (ia: ListVal)
    requires vals != []
    ensures ia == IaOption(t, iaid, vals)
  {
    var base: uint32 := INFINITE;
    for k := 0 to |vals|
      invariant base == MinPltime(vals[..k])
    {
      assert vals[..k + 1][..k] == vals[..k];
      if base == INFINITE || Pltime(vals[k]) < base {
        base := Pltime(vals[k]);
      }
    }
    assert vals[..|vals|] == vals;
    if base == INFINITE {
      ia := ListVal(Ia(t, iaid, INFINITE, INFINITE), Flat(vals));
    } else {
      ia := ListVal(Ia(t, iaid, base / 2, base * 4 % TWO32 / 5), Flat(vals));
    }
  }

  /** update_binding_duration */
  method UpdateBindingDuration(vals: seq<Value>, updatetime: int, now: int) returns (d: uint32)
    ensures d == Duration(vals, Past(now, updatetime))
  {
    var min: uint32 := 0;
    for k := 0 to |vals|
      invariant min == MinLifetime(vals[..k])
    {
      assert vals[..k + 1][..k] == vals[..k];
      var l := Vltime(vals[k]);
      if min == 0 || (l != INFINITE && l < min) {
        min := l;
      }
    }
    assert vals[..|vals|] == vals;
    var past := Past(now, updatetime);
    d := if past < min then min - past else 0;
  }

  /** make_match_ia */
  method MakeMatchIa(hint: Value, conf: seq<Value>) returns (i: int)
    ensures i == MatchIndex(conf, hint)
  {
    i := FindListval(conf, hint);
    if i < 0 {
      match hint
      case Prefix(_, _, _, _) => i := FindListvalPlen(conf, hint);
      case _ =>
    } else if hint.Ia? || hint.StCode? {
      i := -1;
    }
  }

  /** The IA names at least one address (or prefix); without one, update_ia would
      hand calc_ia_timo an empty list. */
  predicate NamesOwnKind(ia: IaSpec) {
    exists k :: 0 <= k < |ia.hints| && if ia.iatype == NA then ia.hints[k].StatefulAddr? else ia.hints[k].Prefix?
  }

  lemma {:induction false} RenewValsNonEmpty(bound: seq<Value>, hints: seq<Value>, t: IaType)
    requires exists k :: 0 <= k < |hints| && if t == NA then hints[k].StatefulAddr? else hints[k].Prefix?
    ensures RenewVals(bound, hints, t) != []
  {
    var h := hints[|hints| - 1];
    if !(if t == NA then h.StatefulAddr? else h.Prefix?) {
      RenewValsNonEmpty(bound, hints[..|hints| - 1], t);
    }
  }

  // The loop of update_ia over the values asked for.
  method RenewList(bound: seq<Value>, hints: seq<Value>, t: IaType) returns (vals: seq<Value>)
    ensures vals == RenewVals(bound, hints, t)
  {
    vals := [];
    for k := 0 to |hints|
      invariant vals == RenewVals(bound, hints[..k], t)
    {
      assert hints[..k + 1][..k] == hints[..k];
      var h := hints[k];
      if if t == NA then h.StatefulAddr? else h.Prefix? {
        var j := FindListval(bound, h);
        vals := vals + [if j < 0 then h.(pltime := 0, vltime := 0)
                        else h.(pltime := Pltime(bound[j]), vltime := Vltime(bound[j]))];
      }
    }
    assert hints[..|hints|] == hints;
  }

  lemma {:induction false} CutStops(vals: seq<Value>, hints: seq<Value>, k: nat)
    requires k <= |hints| && Cut(vals, hints[..k]).0 == []
    ensures Cut(vals, hints) == Cut(vals, hints[..k])
  {
    if k < |hints| {
      assert hints[..|hints| - 1][..k] == hints[..k];
      CutStops(vals, hints[..|hints| - 1], k);
    } else {
      assert hints[..k] == hints;
    }
  }

  lemma {:induction false} GoneOneMore(m: map<Addr, bool>, s: set<Addr>, a: Addr)
    ensures Apply(m - s, OpRelease(a)) == m - (s + {a})
    ensures Apply(DeclineAll(m, s), OpDecline(a)) == DeclineAll(m, s + {a})
  {
  }

  lemma {:induction false} CutNone(vals: seq<Value>, hints: seq<Value>, m: map<Addr, bool>)
    ensures Cut(vals, hints[..0]) == (vals, [])
    ensures m - AddrSet([]) == m == DeclineAll(m, AddrSet([]))
  {
    assert hints[..0] == [];
  }

  lemma {:induction false} CutNext(vals: seq<Value>, hints: seq<Value>, k: nat, t: IaType)
    requires k < |hints| && Typed(Cut(vals, hints[..k]).0, t)
    ensures var (left, taken) := Cut(vals, hints[..k]);
            var j := Find(left, hints[k]);
            && Cut(vals, hints[..k + 1]) == (if j < 0 then (left, taken) else (RemoveAt(left, j), taken + [left[j]]))
            && (j >= 0 ==> Typed(RemoveAt(left, j), t))
            && (j >= 0 && t == NA ==>
                  left[j].StatefulAddr? && AddrSet(taken + [left[j]]) == AddrSet(taken) + {left[j].addr})
  {
    hide *;
    var (left, taken) := Cut(vals, hints[..k]);
    CutOne(vals, hints, k);
    var j := Find(left, hints[k]);
    if j >= 0 {
      TypedRemoved(left, j, t);
      AddrSetPush(taken, left[j]);
    }
  }

  lemma {:induction false} CutOne(vals: seq<Value>, hints: seq<Value>, k: nat)
    requires k < |hints|
    ensures var (left, taken) := Cut(vals, hints[..k]);
            var j := Find(left, hints[k]);
            Cut(vals, hints[..k + 1]) == (if j < 0 then (left, taken) else (RemoveAt(left, j), taken + [left[j]]))
  {
    hide Find, RemoveAt;
    assert hints[..k + 1][..k] == hints[..k];
  }

  lemma {:induction false} TypedRemoved(left: seq<Value>, j: nat, t: IaType)
    requires j < |left| && Typed(left, t)
    ensures Typed(RemoveAt(left, j), t) && (t == NA ==> left[j].StatefulAddr?)
  {
    var r := RemoveAt(left, j);
    assert forall i :: 0 <= i < |r| ==> r[i] == left[if i < j then i else i + 1];
  }

  /** The option for each IA: the one that was made, or its status code. */
  predicate Answers(opts: seq<ListVal>, ias: seq<IaSpec>, made: seq<Option<ListVal>>, code: uint16) {
    && |opts| == |ias| == |made|
    && forall k :: 0 <= k < |ias| ==>
         opts[k] == if made[k].Some? then made[k].value else StatusOption(ias[k].iatype, ias[k].iaid, code)
  }

  // There are IAs of the kind and none of them could be met.
  predicate NoneMet(made: seq<Option<ListVal>>) {
    made != [] && forall k :: 0 <= k < |made| ==> made[k].None?
  }

  datatype Link = On | Off | NoAddress

  /** The first IA that is not on the link decides. */
  function LinkCheck(ias: seq<IaSpec>, link: Addr): Link {
    if ias == [] then On
    else if ias[0].hints == [] then NoAddress
    else if !IaOnLink(ias[0], link) then Off
    else LinkCheck(ias[1..], link)
  }

  lemma {:induction false} OnLinkIs(ias: seq<IaSpec>, link: Addr)
    ensures LinkCheck(ias, link) == On <==> OnLink(ias, link)
  {
    if ias == [] {
    } else {
      hide IaOnLink;
      assert ias == [ias[0]] + ias[1..];
      NoHintsIsOff(ias[0], link);
      OnLinkIs(ias[1..], link);
    }
  }

  lemma {:induction false} NoHintsIsOff(ia: IaSpec, link: Addr)
    ensures ia.hints == [] ==> !IaOnLink(ia, link)
  {
  }

  /** What a Confirm is answered with: nothing, the status NotOnLink, or success with the
      options made. */
  datatype Confirmed = Dropped | NotOnLink | Answered(opts: seq<ListVal>)

  ghost function ConfirmAnswer(st: State, host: Host, pools: Pools, iana: seq<IaSpec>, link: Addr, now: int): Confirmed
  {
    if iana == [] then Dropped
    else match LinkCheck(iana, link)
      case NoAddress => Dropped
      case Off => NotOnLink
      case On =>
        var made := MakeIas(st, host.addrs, iana, host, pools, true, true, now).replies;
        if None in made then Dropped else Answered(Values(made))
  }

  function Values(made: seq<Option<ListVal>>): seq<ListVal>
    requires None !in made
  {
    if made == [] then []
    else
      assert made[0] in made;
      [made[0].value] + Values(made[1..])
  }

  lemma {:induction false} AllMade(made: seq<Option<ListVal>>, opts: seq<ListVal>)
    requires |opts| == |made| && forall j :: 0 <= j < |made| ==> made[j] == Some(opts[j])
    ensures None !in made && Values(made) == opts
  {
    if made == [] {
    } else {
      AllMade(made[1..], opts[1..]);
      assert made == [made[0]] + made[1..] && opts == [opts[0]] + opts[1..];
    }
  }

  lemma {:induction false} NoneToConfirm(st: State, host: Host, pools: Pools, now: int)
    ensures MakeIas(st, host.addrs, [], host, pools, true, true, now).st == st
  {
  }

  // What a Release or Decline reports for one IA.
  function NoBindingStatus(st: State, duid: Duid, ia: IaSpec): Option<ListVal> {
    if FindBinding(st.bindings, duid, ia.iatype, ia.iaid) >= 0 then None
    else Some(StatusOption(ia.iatype, ia.iaid, NOBINDING))
  }

  // What a Renew or Rebind is answered with for one IA.
  function UpdateAnswer(bs: seq<Binding>, duid: Duid, ia: IaSpec): ListVal {
    var i := FindBinding(bs, duid, ia.iatype, ia.iaid);
    if i < 0 then StatusOption(ia.iatype, ia.iaid, NOBINDING)
    else IaOption(ia.iatype, ia.iaid, RenewVals(bs[i].vals, ia.hints, ia.iatype))
  }

  /** Renewing changes no answer: it touches neither keys nor values. */
  lemma {:induction false} AnswerKept(st: State, duid: Duid, ias: seq<IaSpec>, stop: bool, now: int, ia: IaSpec)
    ensures var bs, bs' := st.bindings, UpdateIas(st, duid, ias, stop, now).0.bindings;
            && UpdateAnswer(bs', duid, ia) == UpdateAnswer(bs, duid, ia)
            && FindBinding(bs', duid, ia.iatype, ia.iaid) == FindBinding(bs, duid, ia.iatype, ia.iaid)
  {
    hide RenewVals, IaOption, FindBinding, Renewed;
    if ias == [] {
    } else {
      var n := |ias| - 1;
      AnswerKept(st, duid, ias[..n], stop, now, ia);
      var st1 := UpdateIas(st, duid, ias[..n], stop, now).0;
      var i := FindBinding(st1.bindings, duid, ias[n].iatype, ias[n].iaid);
      if i >= 0 {
        RenewedSame(st1.bindings[i], now);
        FindReplaced(st1.bindings, i, Renewed(st1.bindings[i], now), duid, ia.iatype, ia.iaid);
      }
    }
  }

  lemma {:induction false} RoomForPrefixes(st: State, ev: Event, bind: bool)
    requires (ev.Request? || ev.Solicit?) && PoolsOk(ev.pools, BindBoth(st, ev, bind).leases)
    ensures PoolsOk(ev.pools, MadePd(st, ev, bind).st.leases)
  {
    hide PoolsOk;
    var r := MadePd(st, ev, bind);
    MakeIasLeases(r.st, ev.host.addrs, ev.iana, ev.host, ev.pools, bind, false, ev.now, 0);
    MakeIasEmpty(r.st, ev.host.addrs, ev.iana, ev.host, ev.pools, bind, false, ev.now);
    PoolsOkBefore(ev.pools, r.st.leases, BindBoth(st, ev, bind).leases);
  }

  class BindingTable {
    var bindings: seq<Binding>
    const lt: LeaseTable

    ghost function Abs(): State
      reads this, lt
    {
      State(bindings, lt.leases)
    }

    ghost predicate Valid()
      reads this, lt, lt.table
    {
      lt.Valid() && Inv(Abs())
    }

    lemma {:induction false} ValidIsSound()
      requires Valid()
      ensures Inv(Abs())
    {
    }

    lemma {:induction false} AbsIs()
      ensures Abs().bindings == bindings && Abs().leases == lt.leases
    {
    }

    constructor ()
      ensures Valid() && fresh(lt) && fresh(lt.table) && Abs() == INIT
    {
      bindings := [];
      lt := new LeaseTable();
    }

    /** find_binding */
    method FindBindingIndex(duid: Duid, t: IaType, iaid: uint32) returns (i: int)
      ensures i == FindBinding(bindings, duid, t, iaid)
    {
      i := 0;
      while i < |bindings|
        invariant 0 <= i <= |bindings|
        invariant forall j :: 0 <= j < i ==> !HasKey(bindings[j], duid, t, iaid)
      {
        if HasKey(bindings[i], duid, t, iaid) {
          return;
        }
        i := i + 1;
      }
      i := -1;
    }

    /** add_binding */
    method Add(duid: Duid, t: IaType, iaid: uint32, vals: seq<Value>, now: int) returns (ok: bool)
      requires Valid() && vals != [] && Typed(vals, t) && FindBinding(bindings, duid, t, iaid) < 0
      modifies this, lt, lt.table
      ensures Valid() && lt.table == old(lt.table)
      ensures var r := AddBinding(old(Abs()), duid, t, iaid, vals, now);
              ok == r.Some? && Abs() == if ok then r.value else old(Abs())
    {
      AddKeepsInv(Abs(), duid, t, iaid, vals, now);
      var kept := vals;
      if t == NA {
        kept := LeaseList(vals);
        if kept == [] {
          assert lt.leases == old(lt.leases) by { NothingLeased(vals, old(lt.leases)); }
          return false;
        }
      }
      var d := UpdateBindingDuration(kept, now, now);
      var timer := if d == INFINITE then None else Some(now + INFINITE);
      bindings := bindings + [Binding(duid, t, iaid, kept, d, now, timer)];
      ok := true;
    }

    // The leasing loop of add_binding.
    method LeaseList(vals: seq<Value>) returns (kept: seq<Value>)
      requires lt.Valid()
      modifies lt, lt.table
      ensures lt.Valid() && lt.table == old(lt.table) && (kept, lt.leases) == LeaseAll(vals, old(lt.leases))
    {
      kept := [];
      for k := 0 to |vals|
        invariant lt.Valid() && lt.table == old(lt.table)
        invariant (kept, lt.leases) == LeaseAll(vals[..k], old(lt.leases))
      {
        assert vals[..k + 1][..k] == vals[..k];
        var ok := true;
        if vals[k].StatefulAddr? {
          ok := lt.LeaseAddress(vals[k].addr);
        }
        if ok {
          kept := kept + [vals[k]];
        }
      }
      assert vals[..|vals|] == vals;
    }

    /** update_binding */
    method Update(i: nat, now: int)
      requires Valid() && i < |bindings|
      modifies `bindings
      ensures Valid() && Abs() == RenewAt(old(Abs()), i, now)
    {
      RenewKeepsInv(Abs(), i, now);
      var b := bindings[i];
      var d := UpdateBindingDuration(b.vals, now, now);
      b := b.(updatetime := now, duration := d);
      if d != INFINITE {
        b := b.(timer := Some(now + d));
      }
      bindings := bindings[i := b];
    }

    // Give the addresses of a list back to the lease table.
    method ReleaseList(vals: seq<Value>)
      requires lt.Valid()
      modifies lt, lt.table
      ensures lt.Valid() && lt.table == old(lt.table) && lt.leases == old(lt.leases) - AddrSet(vals)
    {
      for k := 0 to |vals|
        invariant lt.Valid() && lt.table == old(lt.table)
        invariant lt.leases == old(lt.leases) - AddrSet(vals[..k])
      {
        assert vals[..k + 1] == vals[..k] + [vals[k]];
        if vals[k].StatefulAddr? {
          AddrSetPush(vals[..k], vals[k]);
          lt.ReleaseAddress(vals[k].addr);
        } else {
          assert AddrSet(vals[..k + 1]) == AddrSet(vals[..k]);
        }
      }
      assert vals[..|vals|] == vals;
    }

    /** remove_binding, with the release of its addresses in free_binding. */
    method RemoveAndFree(i: nat)
      requires Valid() && i < |bindings|
      modifies this, lt, lt.table
      ensures Valid() && lt.table == old(lt.table) && Abs() == RemoveBinding(old(Abs()), i)
    {
      RemoveKeepsInv(Abs(), i);
      var b := bindings[i];
      bindings := RemoveAt(bindings, i);
      if b.iatype == NA {
        ReleaseList(b.vals);
      } else {
        assert lt.leases - {} == lt.leases;
      }
    }

    /** The control command "remove": it fails when no binding has the IAID. */
    method ControlRemove(duid: Duid, iaid: uint32) returns (ok: bool)
      requires Valid()
      modifies this, lt, lt.table
      ensures Valid() && lt.table == old(lt.table)
      ensures ok <==> RemoveTarget(old(bindings), duid, iaid) >= 0
      ensures Abs() == Step(old(Abs()), Remove(duid, iaid))
    {
      hide FindBinding, RemoveBinding, Inv;
      var i := FindBindingIndex(duid, PD, iaid);
      if i < 0 {
        i := FindBindingIndex(duid, NA, iaid);
        if i < 0 {
          return false;
        }
      }
      RemoveAndFree(i);
      ok := true;
    }

    // The loop of release_binding_ia over the hints; it stops when nothing is left.
    method ReleaseHints(vals: seq<Value>, hints: seq<Value>, t: IaType) returns (left: seq<Value>)
      requires lt.Valid() && vals != [] && Typed(vals, t)
      modifies lt, lt.table
      ensures lt.Valid() && lt.table == old(lt.table) && left == Cut(vals, hints).0
      ensures lt.leases == if t == NA then old(lt.leases) - AddrSet(Cut(vals, hints).1) else old(lt.leases)
    {
      hide *;
      left := vals;
      ghost var taken: seq<Value> := [];
      CutNone(vals, hints, lt.leases);
      for k := 0 to |hints|
        invariant lt.Valid() && lt.table == old(lt.table)
        invariant (left, taken) == Cut(vals, hints[..k]) && left != [] && Typed(left, t)
        invariant lt.leases == if t == NA then old(lt.leases) - AddrSet(taken) else old(lt.leases)
      {
        CutNext(vals, hints, k, t);
        var j := FindListval(left, hints[k]);
        if j >= 0 {
          if t == NA {
            GoneOneMore(old(lt.leases), AddrSet(taken), left[j].addr);
            lt.ReleaseAddress(left[j].addr);
          }
          taken := taken + [left[j]];
          left := RemoveAt(left, j);
          if left == [] {
            CutStops(vals, hints, k + 1);
            return;
          }
        }
      }
      assert hints[..|hints|] == hints;
    }

    // The loop of decline_binding_ia over the hints.
    method DeclineHints(vals: seq<Value>, hints: seq<Value>) returns (left: seq<Value>)
      requires lt.Valid() && vals != [] && Typed(vals, NA)
      modifies lt, lt.table
      ensures lt.Valid() && lt.table == old(lt.table) && left == Cut(vals, hints).0
      ensures lt.leases == DeclineAll(old(lt.leases), AddrSet(Cut(vals, hints).1))
    {
      hide *;
      left := vals;
      ghost var taken: seq<Value> := [];
      CutNone(vals, hints, lt.leases);
      for k := 0 to |hints|
        invariant lt.Valid() && lt.table == old(lt.table)
        invariant (left, taken) == Cut(vals, hints[..k]) && left != [] && Typed(left, NA)
        invariant lt.leases == DeclineAll(old(lt.leases), AddrSet(taken))
      {
        CutNext(vals, hints, k, NA);
        var j := FindListval(left, hints[k]);
        if j >= 0 {
          GoneOneMore(old(lt.leases), AddrSet(taken), left[j].addr);
          lt.DeclineAddress(left[j].addr);
          taken := taken + [left[j]];
          left := RemoveAt(left, j);
          if left == [] {
            CutStops(vals, hints, k + 1);
            return;
          }
        }
      }
      assert hints[..|hints|] == hints;
    }

    // Put back what is left of a binding, or remove it when nothing is.
    method Put(i: nat, left: seq<Value>)
      requires i < |bindings|
      modifies `bindings
      ensures Abs() == PutVals(old(Abs()), i, left, lt.leases)
    {
      bindings := if left == [] then RemoveAt(bindings, i) else bindings[i := bindings[i].(vals := left)];
    }

    /** release_binding_ia: a status option when there is no binding. */
    method ReleaseBindingIa(duid: Duid, ia: IaSpec) returns (reply: Option<ListVal>)
      requires Valid()
      modifies this, lt, lt.table
      ensures Valid() && lt.table == old(lt.table) && Abs() == ReleaseIa(old(Abs()), duid, ia)
      ensures reply == NoBindingStatus(old(Abs()), duid, ia)
    {
      ReleaseKeepsInv(Abs(), duid, ia);
      var i := FindBindingIndex(duid, ia.iatype, ia.iaid);
      if i < 0 {
        return Some(StatusOption(ia.iatype, ia.iaid, NOBINDING));
      }
      var left := ReleaseHints(bindings[i].vals, ia.hints, ia.iatype);
      Put(i, left);
      reply := None;
    }

    /** decline_binding_ia */
    method DeclineBindingIa(duid: Duid, ia: IaSpec) returns (reply: Option<ListVal>)
      requires Valid() && ia.iatype == NA
      modifies this, lt, lt.table
      ensures Valid() && lt.table == old(lt.table) && Abs() == DeclineIa(old(Abs()), duid, ia)
      ensures reply == NoBindingStatus(old(Abs()), duid, ia)
    {
      DeclineKeepsInv(Abs(), duid, ia);
      var i := FindBindingIndex(duid, NA, ia.iaid);
      if i < 0 {
        return Some(StatusOption(NA, ia.iaid, NOBINDING));
      }
      var left := DeclineHints(bindings[i].vals, ia.hints);
      Put(i, left);
      reply := None;
    }

    // The loop of binding_timo: release what has expired, keep the rest.
    method Expire(vals: seq<Value>, past: uint32, t: IaType) returns (left: seq<Value>)
      requires lt.Valid() && Typed(vals, t)
      modifies lt, lt.table
      ensures lt.Valid() && lt.table == old(lt.table) && left == Live(vals, past)
      ensures lt.leases == if t == NA then old(lt.leases) - ExpiredAddrs(vals, past) else old(lt.leases)
    {
      left := [];
      for k := 0 to |vals|
        invariant lt.Valid() && lt.table == old(lt.table)
        invariant left == Live(vals[..k], past)
        invariant lt.leases == if t == NA then old(lt.leases) - ExpiredAddrs(vals[..k], past) else old(lt.leases)
      {
        assert vals[..k + 1][..k] == vals[..k];
        var v := vals[k];
        assert forall a :: a in ExpiredAddrs(vals[..k + 1], past) <==>
          a in ExpiredAddrs(vals[..k], past) || (v.StatefulAddr? && Expired(v, past) && v.addr == a) by {
          forall a {
            ExpiredPush(vals[..k + 1], past, a);
          }
        }
        if Expired(v, past) {
          if t == NA {
            lt.ReleaseAddress(v.addr);
          }
        } else {
          left := left + [v];
        }
      }
      assert vals[..|vals|] == vals;
    }

    /** binding_timo */
    method BindingTimo(i: nat, now: int)
      requires Valid() && i < |bindings|
      modifies this, lt, lt.table
      ensures Valid() && lt.table == old(lt.table) && Abs() == Timeout(old(Abs()), i, now)
    {
      TimeoutKeepsInv(Abs(), i, now);
      var b := bindings[i];
      var left := Expire(b.vals, Past(now, b.updatetime), b.iatype);
      if left == [] {
        bindings := RemoveAt(bindings, i);
        return;
      }
      var d := UpdateBindingDuration(left, b.updatetime, now);
      b := b.(vals := left, duration := d);
      if d != INFINITE {
        b := b.(timer := Some(now + d));
      }
      bindings := bindings[i := b];
    }

    // ---- make_ia -----------------------------------------------------------

    /** make_iana_from_pool, for a hint or for any free address. */
    method MakeIanaFromPool(p: PoolSpec, pools: Pools, hint: Option<Value>) returns (v: Option<Value>)
      requires lt.Valid() && PoolsOk(pools, lt.leases)
      ensures var a := PoolAddr(p, pools, hint, lt.leases);
              v == if a.Some? then Some(StatefulAddr(p.pltime, p.vltime, a.value)) else None
    {
      if p.name !in pools {
        return None;
      }
      var found: Option<Addr> := None;
      if hint.Some? {
        var a := HintAddr(hint.value);
        var ok := IsAvailable(pools[p.name], a, lt);
        found := if ok then Some(a) else None;
      } else {
        found := GetFreeAddress(pools[p.name], lt);
      }
      v := if found.Some? then Some(StatefulAddr(p.pltime, p.vltime, found.value)) else None;
    }

    // The first loop of make_ia: meet the client's hints one after the other.
    method MeetHints(conf: seq<Value>, ia: IaSpec, host: Host, pools: Pools) returns (o: Offer)
      requires lt.Valid() && PoolsOk(pools, lt.leases)
      ensures o == OfferHints(conf, ia.hints, host, ia.iatype, pools, lt.leases)
    {
      o := Offer(conf, []);
      for k := 0 to |ia.hints|
        invariant o == OfferHints(conf, ia.hints[..k], host, ia.iatype, pools, lt.leases)
      {
        assert ia.hints[..k + 1][..k] == ia.hints[..k];
        if o.conf != [] {
          var i := MakeMatchIa(ia.hints[k], o.conf);
          if i >= 0 {
            o := Offer(RemoveAt(o.conf, i), o.list + [o.conf[i]]);
          }
        } else if ia.iatype == NA && host.pool.Some? {
          var v := MakeIanaFromPool(host.pool.value, pools, Some(ia.hints[k]));
          if v.Some? {
            o := o.(list := o.list + [v.value]);
          }
        }
      }
      assert ia.hints[..|ia.hints|] == ia.hints;
    }

    // The fallback of make_ia when no hint was met.
    method MeetAny(o: Offer, t: IaType, host: Host, pools: Pools) returns (o': Offer)
      requires lt.Valid() && PoolsOk(pools, lt.leases)
      ensures o' == OfferAny(o, host, t, pools, lt.leases)
    {
      o' := o;
      if o.conf != [] {
        var i := FindFirstFree(o.conf, t);
        if i >= 0 {
          o' := Offer(RemoveAt(o.conf, i), o.list + [o.conf[i]]);
        }
      } else if t == NA && host.pool.Some? {
        var v := MakeIanaFromPool(host.pool.value, pools, None);
        if v.Some? {
          o' := o.(list := o.list + [v.value]);
        }
      }
    }

    method FindFirstFree(conf: seq<Value>, t: IaType) returns (i: int)
      requires lt.Valid()
      ensures i == FirstFree(conf, t, lt.leases)
    {
      i := 0;
      while i < |conf|
        invariant 0 <= i <= |conf|
        invariant FirstFree(conf, t, lt.leases) ==
                    var r := FirstFree(conf[i..], t, lt.leases); if r < 0 then -1 else i + r
      {
        assert conf[i..][1..] == conf[i + 1..];
        if t != NA {
          return;
        }
        var leased := lt.IsLeased(HintAddr(conf[i]));
        if !leased {
          return;
        }
        i := i + 1;
      }
      i := -1;
    }

    /** make_ia, for a client whose configuration is known. */
    method MakeIaOption(conf: seq<Value>, ia: IaSpec, host: Host, pools: Pools, bind: bool, now: int)
      returns (conf': seq<Value>, reply: Option<ListVal>)
      requires Valid() && PoolsOk(pools, lt.leases) && Typed(conf, ia.iatype)
      modifies this, lt, lt.table
      ensures Valid() && lt.table == old(lt.table)
      ensures Made(Abs(), conf', reply) == MakeIa(old(Abs()), conf, ia, host, pools, bind, now)
    {
      MakeIaKeepsInv(Abs(), conf, ia, host, pools, bind, now);
      var i := FindBindingIndex(host.duid, ia.iatype, ia.iaid);
      if i >= 0 {
        var vals := bindings[i].vals;
        Update(i, now);
        var opt := CalcIaTimo(ia.iatype, ia.iaid, vals);
        conf' := RemoveBound(conf, vals);
        return conf', Some(opt);
      }
      if conf == [] && !(ia.iatype == NA && host.pool.Some?) {
        return conf, None;
      }
      OffersTyped(conf, ia, host, pools, lt.leases);
      var o := MeetHints(conf, ia, host, pools);
      if o.list == [] {
        o := MeetAny(o, ia.iatype, host, pools);
      }
      conf' := o.conf;
      if o.list == [] {
        return conf', None;
      }
      var opt := CalcIaTimo(ia.iatype, ia.iaid, o.list);
      if bind {
        var ok := Add(host.duid, ia.iatype, ia.iaid, o.list, now);
        if !ok {
          return conf', None;
        }
      }
      reply := Some(opt);
    }

    // Take the values already bound out of the configured list.
    method RemoveBound(conf: seq<Value>, vals: seq<Value>) returns (conf': seq<Value>)
      ensures conf' == RemoveMatches(conf, vals)
    {
      conf' := conf;
      for k := 0 to |vals|
        invariant conf' == RemoveMatches(conf, vals[..k])
      {
        assert vals[..k + 1][..k] == vals[..k];
        var j := FindListval(conf', vals[k]);
        if j >= 0 {
          conf' := RemoveAt(conf', j);
        }
      }
      assert vals[..|vals|] == vals;
    }

    // ---- messages ----------------------------------------------------------

    // The IA loop of react_request, react_solicit and react_confirm.
    method MakeOptions(conf: seq<Value>, ias: seq<IaSpec>, host: Host, pools: Pools,
                       bind: bool, stop: bool, now: int, ghost t: IaType)
      returns (replies: seq<Option<ListVal>>)
      requires Valid() && Typed(conf, t) && AllOf(ias, t)
      requires PoolsOk(pools, MakeIas(Abs(), conf, ias, host, pools, bind, stop, now).st.leases)
      modifies this, lt, lt.table
      ensures Valid() && lt.table == old(lt.table)
      ensures var r := MakeIas(old(Abs()), conf, ias, host, pools, bind, stop, now);
              Abs() == r.st && replies == r.replies
    {
      hide *;
      var left := conf;
      replies := [];
      MakeIasEmpty(Abs(), conf, ias, host, pools, bind, stop, now);
      for k := 0 to |ias|
        invariant Valid() && lt.table == old(lt.table) && Typed(left, t) && !(stop && None in replies)
        invariant MadeAll(Abs(), left, replies) == MakeIas(old(Abs()), conf, ias[..k], host, pools, bind, stop, now)
      {
        MakeIasNext(old(Abs()), conf, ias, host, pools, bind, stop, now, k);
        ValidIsSound();
        MakeIaTyped(Abs(), left, ias, k, host, pools, bind, now, t);
        MakeIasLeases(old(Abs()), conf, ias, host, pools, bind, stop, now, k);
        AbsIs();
        PoolsOkBefore(pools, lt.leases, MakeIas(old(Abs()), conf, ias, host, pools, bind, stop, now).st.leases);
        var reply;
        left, reply := MakeIaOption(left, ias[k], host, pools, bind, now);
        ghost var was := replies;
        replies := replies + [reply];
        if stop && reply.None? {
          assert replies[|was|] == None;
          Stopped(old(Abs()), conf, ias, host, pools, bind, now, k + 1);
          return;
        }
        assert forall x :: x in was + [reply] ==> x in was || x == reply;
      }
      assert ias[..|ias|] == ias;
    }

    // Replace each IA that could not be met by one with a status code.
    method WithStatus(ias: seq<IaSpec>, made: seq<Option<ListVal>>, code: uint16) returns (opts: seq<ListVal>)
      requires |made| == |ias|
      ensures Answers(opts, ias, made, code)
    {
      opts := [];
      for k := 0 to |ias|
        invariant |opts| == k
        invariant forall j :: 0 <= j < k ==>
                    opts[j] == if made[j].Some? then made[j].value else StatusOption(ias[j].iatype, ias[j].iaid, code)
      {
        opts := opts + [if made[k].Some? then made[k].value else StatusOption(ias[k].iatype, ias[k].iaid, code)];
      }
    }

    /** react_request: one option in the Reply for every IA asked for. */
    method ReactRequest(host: Host, pools: Pools, iapd: seq<IaSpec>, iana: seq<IaSpec>, now: int)
      returns (pd: seq<ListVal>, na: seq<ListVal>)
      requires Valid() && EventOk(Request(host, pools, iapd, iana, now))
      requires PoolsOk(pools, Step(Abs(), Request(host, pools, iapd, iana, now)).leases)
      modifies this, lt, lt.table
      ensures Valid() && lt.table == old(lt.table)
      ensures Abs() == Step(old(Abs()), Request(host, pools, iapd, iana, now))
      ensures var ev := Request(host, pools, iapd, iana, now);
              && Answers(pd, iapd, MadePd(old(Abs()), ev, true).replies, NOPREFIXAVAIL)
              && Answers(na, iana, MadeNa(old(Abs()), ev, true).replies, NOADDRSAVAIL)
    {
      hide MakeIas, PoolsOk, Answers, Inv;
      RoomForPrefixes(Abs(), Request(host, pools, iapd, iana, now), true);
      var r := MakeOptions(host.prefixes, iapd, host, pools, true, false, now, PD);
      AllAnswered(old(Abs()), host.prefixes, iapd, host, pools, true, now);
      pd := WithStatus(iapd, r, NOPREFIXAVAIL);
      ghost var st1 := Abs();
      r := MakeOptions(host.addrs, iana, host, pools, true, false, now, NA);
      AllAnswered(st1, host.addrs, iana, host, pools, true, now);
      na := WithStatus(iana, r, NOADDRSAVAIL);
    }

    /** react_solicit: bindings are made only for rapid commit, but those the client
        has are renewed; a status code tells that no IA of a kind could be met. */
    method ReactSolicit(host: Host, pools: Pools, iapd: seq<IaSpec>, iana: seq<IaSpec>, commit: bool, now: int)
      returns (pd: seq<Option<ListVal>>, na: seq<Option<ListVal>>, status: seq<uint16>)
      requires Valid() && EventOk(Solicit(host, pools, iapd, iana, commit, now))
      requires PoolsOk(pools, Step(Abs(), Solicit(host, pools, iapd, iana, commit, now)).leases)
      modifies this, lt, lt.table
      ensures Valid() && lt.table == old(lt.table)
      ensures Abs() == Step(old(Abs()), Solicit(host, pools, iapd, iana, commit, now))
      ensures var ev := Solicit(host, pools, iapd, iana, commit, now);
              pd == MadePd(old(Abs()), ev, commit).replies && na == MadeNa(old(Abs()), ev, commit).replies
      ensures |pd| == |iapd| && |na| == |iana|
      ensures status == (if NoneMet(pd) then [NOPREFIXAVAIL] else []) + (if NoneMet(na) then [NOADDRSAVAIL] else [])
    {
      hide MakeIas, PoolsOk, Inv;
      RoomForPrefixes(Abs(), Solicit(host, pools, iapd, iana, commit, now), commit);
      pd := MakeOptions(host.prefixes, iapd, host, pools, commit, false, now, PD);
      AllAnswered(old(Abs()), host.prefixes, iapd, host, pools, commit, now);
      ghost var st1 := Abs();
      na := MakeOptions(host.addrs, iana, host, pools, commit, false, now, NA);
      AllAnswered(st1, host.addrs, iana, host, pools, commit, now);
      var noPrefix := Unmet(pd);
      var noAddr := Unmet(na);
      status := (if noPrefix then [NOPREFIXAVAIL] else []) + (if noAddr then [NOADDRSAVAIL] else []);
    }

    // Whether the loop over the IAs of a kind found nothing.
    static method Unmet(made: seq<Option<ListVal>>) returns (none: bool)
      ensures none == NoneMet(made)
    {
      none := made != [];
      for k := 0 to |made|
        invariant none == (made != [] && forall j :: 0 <= j < k ==> made[j].None?)
      {
        if made[k].Some? {
          none := false;
        }
      }
    }

    /** react_confirm: the IAs are checked against the client's link in turn, then made
        in turn; the message is dropped at an IA without an address or one that cannot be
        met, and answered with NotOnLink at an address of another link. */
    method ReactConfirm(host: Host, pools: Pools, iana: seq<IaSpec>, link: Addr, now: int) returns (r: Confirmed)
      requires Valid() && EventOk(Confirm(host, pools, iana, link, now))
      requires PoolsOk(pools, Step(Abs(), Confirm(host, pools, iana, link, now)).leases)
      modifies this, lt, lt.table
      ensures Valid() && lt.table == old(lt.table)
      ensures Abs() == Step(old(Abs()), Confirm(host, pools, iana, link, now))
      ensures r == ConfirmAnswer(old(Abs()), host, pools, iana, link, now)
    {
      hide MakeIas, PoolsOk, Inv, IaOnLink;
      OnLinkIs(iana, link);
      if |iana| == 0 {
        NoneToConfirm(Abs(), host, pools, now);
        return Dropped;
      }
      assert iana[0..] == iana;
      for i := 0 to |iana|
        invariant Valid() && Abs() == old(Abs()) && lt.table == old(lt.table)
        invariant LinkCheck(iana[i..], link) == LinkCheck(iana, link)
      {
        assert iana[i..][1..] == iana[i + 1..];
        if iana[i].hints == [] {
          return Dropped;
        }
        if !IaOnLink(iana[i], link) {
          return NotOnLink;
        }
      }
      var made := MakeOptions(host.addrs, iana, host, pools, true, true, now, NA);
      var opts: seq<ListVal> := [];
      for i := 0 to |made|
        invariant Valid() && lt.table == old(lt.table)
        invariant Abs() == Step(old(Abs()), Confirm(host, pools, iana, link, now))
        invariant |opts| == i && forall j :: 0 <= j < i ==> made[j] == Some(opts[j])
      {
        if made[i].None? {
          return Dropped;
        }
        opts := opts + [made[i].value];
      }
      AllMade(made, opts);
      r := Answered(opts);
    }

    /** update_ia for one IA of a Renew or Rebind; if there is a binding, the IA must
        name a value of its kind. */
    method UpdateBindingIa(duid: Duid, ia: IaSpec, rebind: bool, now: int) returns (ok: bool, reply: ListVal)
      requires Valid()
      requires FindBinding(bindings, duid, ia.iatype, ia.iaid) >= 0 ==> NamesOwnKind(ia)
      modifies `bindings
      ensures Valid() && Abs() == UpdateIa(old(Abs()), duid, ia, now)
      ensures ok == (FindBinding(old(bindings), duid, ia.iatype, ia.iaid) >= 0 || !rebind)
      ensures ok ==> reply == UpdateAnswer(old(bindings), duid, ia)
    {
      var i := FindBindingIndex(duid, ia.iatype, ia.iaid);
      if i < 0 {
        return !rebind, StatusOption(ia.iatype, ia.iaid, NOBINDING);
      }
      var vals := RenewList(bindings[i].vals, ia.hints, ia.iatype);
      Update(i, now);
      RenewValsNonEmpty(bindings[i].vals, ia.hints, ia.iatype);
      reply := CalcIaTimo(ia.iatype, ia.iaid, vals);
      ok := true;
    }

    /** react_renew and react_rebind */
    method ReactUpdate(duid: Duid, ias: seq<IaSpec>, rebind: bool, now: int) returns (ok: bool, replies: seq<ListVal>)
      requires Valid()
      requires forall i :: 0 <= i < |ias| ==>
                 FindBinding(bindings, duid, ias[i].iatype, ias[i].iaid) >= 0 ==> NamesOwnKind(ias[i])
      modifies `bindings
      ensures Valid() && (Abs(), ok) == UpdateIas(old(Abs()), duid, ias, rebind, now)
      ensures ok ==> |replies| == |ias| && forall k :: 0 <= k < |ias| ==>
                                             replies[k] == UpdateAnswer(old(bindings), duid, ias[k])
    {
      hide *;
      ghost var was := Abs();
      AbsIs();
      replies := [];
      UpdateIasNone(Abs(), duid, ias, rebind, now);
      for k := 0 to |ias|
        invariant Valid() && (Abs(), true) == UpdateIas(was, duid, ias[..k], rebind, now)
        invariant |replies| == k && forall j :: 0 <= j < k ==> replies[j] == UpdateAnswer(old(bindings), duid, ias[j])
      {
        UpdateIasNext(was, duid, ias, rebind, now, k);
        AnswerKept(was, duid, ias[..k], rebind, now, ias[k]);
        AbsIs();
        assert was.bindings == old(bindings);
        UpdateMissing(Abs(), duid, ias[k], now);
        var reply;
        ok, reply := UpdateBindingIa(duid, ias[k], rebind, now);
        if !ok {
          UpdateStopped(was, duid, ias, rebind, now, k + 1);
          return;
        }
        replies := replies + [reply];
      }
      assert ias[..|ias|] == ias;
      ok := true;
    }

    /** react_release: the status options for IAs without a binding. */
    method ReactRelease(duid: Duid, ias: seq<IaSpec>) returns (status: seq<Option<ListVal>>)
      requires Valid()
      modifies this, lt, lt.table
      ensures Valid() && lt.table == old(lt.table) && Abs() == Step(old(Abs()), Release(duid, ias))
      ensures |status| == |ias| && forall k :: 0 <= k < |ias| ==>
                status[k] == NoBindingStatus(ReleaseIas(old(Abs()), duid, ias[..k]), duid, ias[k])
    {
      hide *;
      status := [];
      CutIasNone(Abs(), duid, ias);
      for k := 0 to |ias|
        invariant Valid() && lt.table == old(lt.table) && |status| == k
        invariant forall j :: 0 <= j < k ==>
                    status[j] == NoBindingStatus(ReleaseIas(old(Abs()), duid, ias[..j]), duid, ias[j])
        invariant Abs() == ReleaseIas(old(Abs()), duid, ias[..k])
      {
        CutIasNext(old(Abs()), duid, ias, k);
        var s := ReleaseBindingIa(duid, ias[k]);
        status := status + [s];
      }
      assert ias[..|ias|] == ias;
      CutIasAre(old(Abs()), duid, ias);
    }

    /** react_decline */
    method ReactDecline(duid: Duid, ias: seq<IaSpec>) returns (status: seq<Option<ListVal>>)
      requires Valid() && AllOf(ias, NA)
      modifies this, lt, lt.table
      ensures Valid() && lt.table == old(lt.table) && Abs() == Step(old(Abs()), Decline(duid, ias))
      ensures |status| == |ias| && forall k :: 0 <= k < |ias| ==>
                status[k] == NoBindingStatus(DeclineIas(old(Abs()), duid, ias[..k]), duid, ias[k])
    {
      hide *;
      status := [];
      CutIasNone(Abs(), duid, ias);
      for k := 0 to |ias|
        invariant Valid() && lt.table == old(lt.table) && |status| == k
        invariant forall j :: 0 <= j < k ==>
                    status[j] == NoBindingStatus(DeclineIas(old(Abs()), duid, ias[..j]), duid, ias[j])
        invariant Abs() == DeclineIas(old(Abs()), duid, ias[..k])
      {
        CutIasNext(old(Abs()), duid, ias, k);
        AllOfAt(ias, NA, k);
        var s := DeclineBindingIa(duid, ias[k]);
        status := status + [s];
      }
      assert ias[..|ias|] == ias;
      CutIasAre(old(Abs()), duid, ias);
    }
  }

  lemma {:induction false} CutIasNone(st: State, duid: Duid, ias: seq<IaSpec>)
    ensures ReleaseIas(st, duid, ias[..0]) == st == DeclineIas(st, duid, ias[..0])
  {
    assert ias[..0] == [];
  }

  lemma {:induction false} CutIasNext(st: State, duid: Duid, ias: seq<IaSpec>, k: nat)
    requires k < |ias|
    ensures ReleaseIas(st, duid, ias[..k + 1]) == ReleaseIa(ReleaseIas(st, duid, ias[..k]), duid, ias[k])
    ensures DeclineIas(st, duid, ias[..k + 1]) == DeclineIa(DeclineIas(st, duid, ias[..k]), duid, ias[k])
  {
    hide ReleaseIa, DeclineIa;
    assert ias[..k + 1][..k] == ias[..k];
  }

  lemma {:induction false} CutIasAre(st: State, duid: Duid, ias: seq<IaSpec>)
    ensures Step(st, Release(duid, ias)) == ReleaseIas(st, duid, ias)
    ensures Step(st, Decline(duid, ias)) == DeclineIas(st, duid, ias)
  {
  }

  lemma {:induction false} AllOfAt(ias: seq<IaSpec>, t: IaType, k: nat)
    requires AllOf(ias, t) && k < |ias|
    ensures ias[k].iatype == t
  {
  }

  lemma {:induction false} UpdateIasNone(st: State, duid: Duid, ias: seq<IaSpec>, stop: bool, now: int)
    ensures UpdateIas(st, duid, ias[..0], stop, now) == (st, true)
  {
    assert ias[..0] == [];
  }

  lemma {:induction false} UpdateIasNext(st: State, duid: Duid, ias: seq<IaSpec>, stop: bool, now: int, k: nat)
    requires k < |ias| && UpdateIas(st, duid, ias[..k], stop, now).1
    ensures var st1 := UpdateIas(st, duid, ias[..k], stop, now).0;
            UpdateIas(st, duid, ias[..k + 1], stop, now) ==
            if stop && FindBinding(st1.bindings, duid, ias[k].iatype, ias[k].iaid) < 0 then (st1, false)
            else (UpdateIa(st1, duid, ias[k], now), true)
  {
    hide UpdateIa, FindBinding;
    assert ias[..k + 1][..k] == ias[..k];
  }

  lemma {:induction false} UpdateMissing(st: State, duid: Duid, ia: IaSpec, now: int)
    ensures FindBinding(st.bindings, duid, ia.iatype, ia.iaid) < 0 ==> UpdateIa(st, duid, ia, now) == st
  {
  }

  lemma {:induction false} MakeIasEmpty(st: State, conf: seq<Value>, ias: seq<IaSpec>, host: Host, pools: Pools,
                                        bind: bool, stop: bool, now: int)
    ensures MakeIas(st, conf, ias[..0], host, pools, bind, stop, now) == MadeAll(st, conf, [])
  {
    assert ias[..0] == [];
  }

  lemma {:induction false} MakeIasNext(st: State, conf: seq<Value>, ias: seq<IaSpec>, host: Host, pools: Pools,
                                       bind: bool, stop: bool, now: int, k: nat)
    requires k < |ias|
    requires !(stop && None in MakeIas(st, conf, ias[..k], host, pools, bind, stop, now).replies)
    ensures var r := MakeIas(st, conf, ias[..k], host, pools, bind, stop, now);
            var m := MakeIa(r.st, r.conf, ias[k], host, pools, bind, now);
            MakeIas(st, conf, ias[..k + 1], host, pools, bind, stop, now)
            == MadeAll(m.st, m.conf, r.replies + [m.reply])
  {
    assert ias[..k + 1][..k] == ias[..k];
  }

  lemma {:induction false} MakeIaTyped(st: State, conf: seq<Value>, ias: seq<IaSpec>, k: nat, host: Host,
                                       pools: Pools, bind: bool, now: int, t: IaType)
    requires Inv(st) && k < |ias| && AllOf(ias, t) && Typed(conf, t)
    ensures Typed(conf, ias[k].iatype) && Typed(MakeIa(st, conf, ias[k], host, pools, bind, now).conf, t)
  {
    MakeIaKeepsInv(st, conf, ias[k], host, pools, bind, now);
  }

  lemma {:induction false} Stopped(st: State, conf: seq<Value>, ias: seq<IaSpec>, host: Host, pools: Pools,
                                   bind: bool, now: int, k: nat)
    requires k <= |ias| && None in MakeIas(st, conf, ias[..k], host, pools, bind, true, now).replies
    ensures MakeIas(st, conf, ias, host, pools, bind, true, now)
            == MakeIas(st, conf, ias[..k], host, pools, bind, true, now)
  {
    if k < |ias| {
      assert ias[..|ias| - 1][..k] == ias[..k];
      Stopped(st, conf, ias[..|ias| - 1], host, pools, bind, now, k);
    } else {
      assert ias[..k] == ias;
    }
  }

  lemma {:induction false} AllAnswered(st: State, conf: seq<Value>, ias: seq<IaSpec>, host: Host, pools: Pools,
                                       bind: bool, now: int)
    ensures |MakeIas(st, conf, ias, host, pools, bind, false, now).replies| == |ias|
  {
    if ias == [] {
    } else {
      AllAnswered(st, conf, ias[..|ias| - 1], host, pools, bind, now);
    }
  }

  lemma {:induction false} UpdateStopped(st: State, duid: Duid, ias: seq<IaSpec>, stop: bool, now: int, k: nat)
    requires k <= |ias| && !UpdateIas(st, duid, ias[..k], stop, now).1
    ensures UpdateIas(st, duid, ias, stop, now) == UpdateIas(st, duid, ias[..k], stop, now)
  {
    if k < |ias| {
      assert ias[..|ias| - 1][..k] == ias[..k];
      UpdateStopped(st, duid, ias[..|ias| - 1], stop, now, k);
    } else {
      assert ias[..k] == ias;
    }
  }

  lemma {:induction false} NothingLeased(vals: seq<Value>, m: map<Addr, bool>)
    requires LeaseAll(vals, m).0 == []
    ensures LeaseAll(vals, m).1 == m
  {
    if vals == [] {
    } else {
      NothingLeased(vals[..|vals| - 1], m);
    }
  }
}
