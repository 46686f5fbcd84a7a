/** The server's bindings (dhcp6s.c) as a state machine: what each message,
    timer and control command does to the bindings and the lease table. */
module Bindings {
  import opened Bytes
  import opened ListVals
  import opened Pool

  /** One binding, identified by client DUID, IA type and IAID. */
  datatype Binding = Binding(
    duid: Duid, iatype: IaType, iaid: uint32,
    vals: seq<Value>, duration: uint32, updatetime: int, timer: Option<int>)

  datatype State = State(bindings: seq<Binding>, leases: map<Addr, bool>)

  const INIT: State := State([], map[])

  /** What a client asks for in one IA option: its identity and its hints. */
  datatype IaSpec = IaSpec(iatype: IaType, iaid: uint32, hints: seq<Value>)

  datatype PoolSpec = PoolSpec(name: string, pltime: uint32, vltime: uint32)

  datatype Host = Host(duid: Duid, prefixes: seq<Value>, addrs: seq<Value>, pool: Option<PoolSpec>)

  type Pools = map<string, Range>

  // ---- lifetimes ---------------------------------------------------------

  function Vltime(v: Value): uint32 {
    if v.Prefix? || v.StatefulAddr? then v.vltime else 0
  }

  function Pltime(v: Value): uint32 {
    if v.Prefix? || v.StatefulAddr? then v.pltime else 0
  }

  /** Seconds since the binding was last updated, as a 32-bit count. */
  function Past(now: int, updatetime: int): uint32 {
    if now >= updatetime then (now - updatetime) % TWO32 else 0
  }

  // The running minimum of the valid lifetimes; zero counts as "none yet".
  function MinLifetime(vals: seq<Value>): uint32 {
    if vals == [] then 0
    else
      var m := MinLifetime(vals[..|vals| - 1]);
      var l := Vltime(vals[|vals| - 1]);
      if m == 0 || (l != INFINITE && l < m) then l else m
  }

  function Duration(vals: seq<Value>, past: uint32): uint32 {
    var m := MinLifetime(vals);
    if past < m then m - past else 0
  }

  /** update_binding: restart the lifetimes and rearm the timer, if there is one to arm. */
  function Renewed(b: Binding, now: int): Binding {
    var d := Duration(b.vals, 0);
    b.(updatetime := now, duration := d, timer := if d == INFINITE then b.timer else Some(now + d))
  }

  // The least preferred lifetime; INFINITE is the largest 32-bit value.
  function MinPltime(vals: seq<Value>): (base: uint32)
    ensures forall k :: 0 <= k < |vals| ==> base <= Pltime(vals[k])
  {
    if vals == [] then INFINITE
    else
      var m := MinPltime(vals[..|vals| - 1]);
      var p := Pltime(vals[|vals| - 1]);
      if p < m then p else m
  }

  /** The IA option offered for a list of values, with T1 and T2 of calc_ia_timo;
      the product behind T2 wraps at 32 bits. */
  function IaOption(iatype: IaType, iaid: uint32, vals: seq<Value>): ListVal {
    var base := MinPltime(vals);
    if base == INFINITE then ListVal(Ia(iatype, iaid, INFINITE, INFINITE), Flat(vals))
    else ListVal(Ia(iatype, iaid, base / 2, base * 4 % TWO32 / 5), Flat(vals))
  }

  function StatusOption(iatype: IaType, iaid: uint32, code: uint16): ListVal {
    ListVal(Ia(iatype, iaid, 0, 0), [ListVal(StCode(code), [])])
  }

  // ---- finding, adding and removing bindings -----------------------------

  predicate HasKey(b: Binding, duid: Duid, t: IaType, iaid: uint32) {
    b.duid == duid && b.iatype == t && b.iaid == iaid
  }

  function FindBinding(bs: seq<Binding>, duid: Duid, t: IaType, iaid: uint32): (i: int)
    ensures -1 <= i < |bs|
    ensures i >= 0 ==> HasKey(bs[i], duid, t, iaid)
    ensures forall j :: 0 <= j < (if i < 0 then |bs| else i) ==> !HasKey(bs[j], duid, t, iaid)
  {
    if bs == [] then -1
    else if HasKey(bs[0], duid, t, iaid) then 0
    else
      var i := FindBinding(bs[1..], duid, t, iaid);
      assert forall j :: 1 <= j < |bs| ==> bs[j] == bs[1..][j - 1];
      if i < 0 then -1 else i + 1
  }

  /** Lease every address of a list, dropping those already leased. */
  function LeaseAll(vals: seq<Value>, leases: map<Addr, bool>): (r: (seq<Value>, map<Addr, bool>)) {
    if vals == [] then ([], leases)
    else
      var (kept, m) := LeaseAll(vals[..|vals| - 1], leases);
      var v := vals[|vals| - 1];
      if !v.StatefulAddr? then (kept + [v], m)
      else if v.addr in m then (kept, m)
      else (kept + [v], m[v.addr := false])
  }

  function NewBinding(duid: Duid, t: IaType, iaid: uint32, vals: seq<Value>, now: int): Binding {
    var d := Duration(vals, 0);
    Binding(duid, t, iaid, vals, d, now, if d == INFINITE then None else Some(now + INFINITE))
  }

  /** add_binding; None when no address of an IA_NA could be leased. */
  function AddBinding(st: State, duid: Duid, t: IaType, iaid: uint32, vals: seq<Value>, now: int): (r: Option<State>) {
    if t == PD then Some(State(st.bindings + [NewBinding(duid, t, iaid, vals, now)], st.leases))
    else
      var (kept, m) := LeaseAll(vals, st.leases);
      if kept == [] then None else Some(State(st.bindings + [NewBinding(duid, t, iaid, kept, now)], m))
  }

  function AddrSet(vals: seq<Value>): (s: set<Addr>) {
    set v | v in vals && v.StatefulAddr? :: v.addr
  }

  function Freed(b: Binding): set<Addr> {
    if b.iatype == NA then AddrSet(b.vals) else {}
  }

  /** remove_binding: an IA_NA binding gives its addresses back. */
  function RemoveBinding(st: State, i: nat): State
    requires i < |st.bindings|
  {
    State(RemoveAt(st.bindings, i), st.leases - Freed(st.bindings[i]))
  }

  // Put back a binding whose values were cut down, or drop it when none is left.
  function PutVals(st: State, i: nat, vals: seq<Value>, leases: map<Addr, bool>): State
    requires i < |st.bindings|
  {
    if vals == [] then State(RemoveAt(st.bindings, i), leases)
    else State(st.bindings[i := st.bindings[i].(vals := vals)], leases)
  }

  // ---- Release and Decline -----------------------------------------------

  /** The values left and taken when the hints of a Release or Decline are
      removed from a binding one after the other. */
  function Cut(vals: seq<Value>, hints: seq<Value>): (r: (seq<Value>, seq<Value>)) {
    if hints == [] then (vals, [])
    else
      var (left, taken) := Cut(vals, hints[..|hints| - 1]);
      var i := Find(left, hints[|hints| - 1]);
      if i < 0 then (left, taken) else (RemoveAt(left, i), taken + [left[i]])
  }

  function ReleaseIa(st: State, duid: Duid, ia: IaSpec): State {
    var i := FindBinding(st.bindings, duid, ia.iatype, ia.iaid);
    if i < 0 then st
    else
      var (left, taken) := Cut(st.bindings[i].vals, ia.hints);
      PutVals(st, i, left, if ia.iatype == NA then st.leases - AddrSet(taken) else st.leases)
  }

  function DeclineAll(leases: map<Addr, bool>, s: set<Addr>): map<Addr, bool> {
    map a | a in leases :: if a in s then true else leases[a]
  }

  function DeclineIa(st: State, duid: Duid, ia: IaSpec): State {
    var i := FindBinding(st.bindings, duid, ia.iatype, ia.iaid);
    if i < 0 || ia.iatype != NA then st
    else
      var (left, taken) := Cut(st.bindings[i].vals, ia.hints);
      PutVals(st, i, left, DeclineAll(st.leases, AddrSet(taken)))
  }

  // ---- Renew and Rebind --------------------------------------------------

  function RenewAt(st: State, i: nat, now: int): State
    requires i < |st.bindings|
  {
    st.(bindings := st.bindings[i := Renewed(st.bindings[i], now)])
  }

  function UpdateIa(st: State, duid: Duid, ia: IaSpec, now: int): State {
    var i := FindBinding(st.bindings, duid, ia.iatype, ia.iaid);
    if i < 0 then st else RenewAt(st, i, now)
  }

  /** The values a Renew or Rebind is answered with: each one asked for, with the
      lifetimes of the binding, or zero lifetimes if the binding does not have it. */
  function RenewVals(bound: seq<Value>, hints: seq<Value>, t: IaType): seq<Value> {
    if hints == [] then []
    else
      var r := RenewVals(bound, hints[..|hints| - 1], t);
      var h := hints[|hints| - 1];
      if !(if t == NA then h.StatefulAddr? else h.Prefix?) then r
      else
        var i := Find(bound, h);
        r + [if i < 0 then h.(pltime := 0, vltime := 0) else h.(pltime := Pltime(bound[i]), vltime := Vltime(bound[i]))]
  }

  // ---- expiry ------------------------------------------------------------

  predicate Expired(v: Value, past: uint32) {
    Vltime(v) != INFINITE && Vltime(v) <= past
  }

  function Live(vals: seq<Value>, past: uint32): seq<Value> {
    if vals == [] then []
    else
      var r := Live(vals[..|vals| - 1], past);
      if Expired(vals[|vals| - 1], past) then r else r + [vals[|vals| - 1]]
  }

  function ExpiredAddrs(vals: seq<Value>, past: uint32): set<Addr> {
    set v | v in vals && v.StatefulAddr? && Expired(v, past) :: v.addr
  }

  /** binding_timo */
  function Timeout(st: State, i: nat, now: int): State
    requires i < |st.bindings|
  {
    var b := st.bindings[i];
    var past := Past(now, b.updatetime);
    var left := Live(b.vals, past);
    var leases := if b.iatype == NA then st.leases - ExpiredAddrs(b.vals, past) else st.leases;
    if left == [] then State(RemoveAt(st.bindings, i), leases)
    else
      var d := Duration(left, past);
      var timer := if d == INFINITE then b.timer else Some(now + d);
      State(st.bindings[i := b.(vals := left, duration := d, timer := timer)], leases)
  }

  // ---- Request, Solicit and Confirm --------------------------------------

  // The address bytes of a hint; a status code leaves them zero.
  function HintAddr(v: Value): Addr {
    if v.Prefix? || v.StatefulAddr? then v.addr else UNSPECIFIED
  }

  /** make_match_ia: the position of the configured value offered for a hint, or -1. */
  function MatchIndex(conf: seq<Value>, hint: Value): (i: int)
    ensures -1 <= i < |conf|
  {
    var i := Find(conf, hint);
    if i < 0 && hint.Prefix? then FindPlen(conf, hint) else if hint.Ia? || hint.StCode? then -1 else i
  }

  ghost function PoolAddr(p: PoolSpec, pools: Pools, hint: Option<Value>, leases: map<Addr, bool>): (a: Option<Addr>)
    ensures a.Some? ==> Usable(a.value, leases)
  {
    if p.name !in pools then None
    else if hint.None? then Search(pools[p.name], leases)
    else if InRange(pools[p.name], HintAddr(hint.value)) && Usable(HintAddr(hint.value), leases)
    then Some(HintAddr(hint.value))
    else None
  }

  // Configured values not yet offered, and the list offered so far.
  datatype Offer = Offer(conf: seq<Value>, list: seq<Value>)

  ghost function OfferPool(o: Offer, p: PoolSpec, pools: Pools, hint: Option<Value>, leases: map<Addr, bool>): Offer {
    var a := PoolAddr(p, pools, hint, leases);
    if a.None? then o else o.(list := o.list + [StatefulAddr(p.pltime, p.vltime, a.value)])
  }

  ghost function OfferHint(o: Offer, hint: Value, host: Host, t: IaType, pools: Pools, leases: map<Addr, bool>): Offer {
    if o.conf != [] then
      var i := MatchIndex(o.conf, hint);
      if i < 0 then o else Offer(RemoveAt(o.conf, i), o.list + [o.conf[i]])
    else if t == NA && host.pool.Some? then OfferPool(o, host.pool.value, pools, Some(hint), leases)
    else o
  }

  ghost function OfferHints(conf: seq<Value>, hints: seq<Value>, host: Host, t: IaType, pools: Pools,
                            leases: map<Addr, bool>): Offer
  {
    if hints == [] then Offer(conf, [])
    else
      var o := OfferHints(conf, hints[..|hints| - 1], host, t, pools, leases);
      OfferHint(o, hints[|hints| - 1], host, t, pools, leases)
  }

  /** The first configured value to fall back on: for addresses, one not leased. */
  function FirstFree(conf: seq<Value>, t: IaType, leases: map<Addr, bool>): (i: int)
    ensures -1 <= i < |conf|
  {
    if conf == [] then -1
    else if t != NA || HintAddr(conf[0]) !in leases then 0
    else var i := FirstFree(conf[1..], t, leases); if i < 0 then -1 else i + 1
  }

  // With no hint met, offer one configured value or one pool address.
  ghost function OfferAny(o: Offer, host: Host, t: IaType, pools: Pools, leases: map<Addr, bool>): Offer {
    if o.conf != [] then
      var i := FirstFree(o.conf, t, leases);
      if i < 0 then o else Offer(RemoveAt(o.conf, i), o.list + [o.conf[i]])
    else if t == NA && host.pool.Some? then OfferPool(o, host.pool.value, pools, None, leases)
    else o
  }

  ghost function Offers(conf: seq<Value>, ia: IaSpec, host: Host, pools: Pools, leases: map<Addr, bool>): Offer {
    var o := OfferHints(conf, ia.hints, host, ia.iatype, pools, leases);
    if o.list == [] then OfferAny(o, host, ia.iatype, pools, leases) else o
  }

  function RemoveMatches(conf: seq<Value>, keys: seq<Value>): seq<Value> {
    if keys == [] then conf
    else RemoveMatch(RemoveMatches(conf, keys[..|keys| - 1]), keys[|keys| - 1])
  }

  datatype Made = Made(st: State, conf: seq<Value>, reply: Option<ListVal>)

  /** make_ia: answer one IA from an existing binding or from what is configured
      for the host, binding it when asked to. */
  ghost function MakeIa(st: State, conf: seq<Value>, ia: IaSpec, host: Host, pools: Pools, bind: bool, now: int): Made {
    var i := FindBinding(st.bindings, host.duid, ia.iatype, ia.iaid);
    if i >= 0 then
      var vals := st.bindings[i].vals;
      Made(RenewAt(st, i, now), RemoveMatches(conf, vals), Some(IaOption(ia.iatype, ia.iaid, vals)))
    else if conf == [] && !(ia.iatype == NA && host.pool.Some?) then Made(st, conf, None)
    else
      var o := Offers(conf, ia, host, pools, st.leases);
      if o.list == [] then Made(st, o.conf, None)
      else if !bind then Made(st, o.conf, Some(IaOption(ia.iatype, ia.iaid, o.list)))
      else
        var r := AddBinding(st, host.duid, ia.iatype, ia.iaid, o.list, now);
        if r.None? then Made(st, o.conf, None)
        else Made(r.value, o.conf, Some(IaOption(ia.iatype, ia.iaid, o.list)))
  }
}
