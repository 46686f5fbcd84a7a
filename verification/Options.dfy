/** Whole option sets (common.c): what a message carries, the writer and the
    parser, and the place of the message authentication code. */
module Options {
  import opened Bytes
  import opened ListVals
  import opened Wire
  import opened Names

  // Authentication information of the delayed protocol; `offset` is where the
  // MAC stands, counted from the first option.
  datatype AuthInfo = AuthInfo(realm: seq<byte>, keyid: uint32, offset: nat)

  datatype Auth = Auth(proto: byte, alg: byte, rdm: byte, rd: seq<byte>, info: Option<AuthInfo>)

  /** `struct dhcp6_optinfo`.  `addrs` holds the six lists of server addresses
      and `names` the five lists of domain names, in order of option code. */
  datatype OptInfo = OptInfo(
    clientID: Duid, serverID: Duid,
    rapid: bool, pref: Option<byte>, elapsed: Option<uint16>, refresh: Option<uint32>,
    iana: seq<ListVal>, iapd: seq<ListVal>,
    reqopts: seq<uint16>, stcodes: seq<uint16>,
    addrs: seq<seq<Addr>>, names: seq<seq<seq<byte>>>,
    relayMsg: Option<seq<byte>>, ifid: Option<seq<byte>>,
    auth: Option<Auth>)

  const EMPTY: OptInfo :=
    OptInfo([], [], false, None, None, None, [], [], [], [],
            [[], [], [], [], [], []], [[], [], [], [], []], None, None, None)

  // sizeof(struct dhcp6): message type and transaction identifier.
  const HEADER: nat := 4

  const CLIENTID: uint16 := 1
  const SERVERID: uint16 := 2
  const ORO: uint16 := 6
  const PREFERENCE: uint16 := 7
  const ELAPSED_TIME: uint16 := 8
  const RELAY_MSG: uint16 := 9
  const AUTH: uint16 := 11
  const RAPID_COMMIT: uint16 := 14
  const INTERFACE_ID: uint16 := 18
  const REFRESHTIME: uint16 := 32
  const IRT_MINIMUM: uint32 := 600
  const DELAYED: byte := 2

  // SIP, DNS, NIS, NIS+, NTP and BCMCS servers.
  function AddrCode(i: nat): uint16
    requires i < 6
  {
    match i case 0 => 22 case 1 => 23 case 2 => 27 case 3 => 28 case 4 => 31 case _ => 34
  }

  function AddrIndex(code: uint16): (i: int)
    ensures -1 <= i < 6 && (i >= 0 ==> AddrCode(i) == code)
  {
    match code case 22 => 0 case 23 => 1 case 27 => 2 case 28 => 3 case 31 => 4 case 34 => 5 case _ => -1
  }

  // SIP, DNS search, NIS, NIS+ and BCMCS domains.
  function NameCode(i: nat): uint16
    requires i < 5
  {
    match i case 0 => 21 case 1 => 24 case 2 => 29 case 3 => 30 case _ => 33
  }

  function NameIndex(code: uint16): (i: int)
    ensures -1 <= i < 5 && (i >= 0 ==> NameCode(i) == code)
  {
    match code case 21 => 0 case 24 => 1 case 29 => 2 case 30 => 3 case 33 => 4 case _ => -1
  }

  // ---- parsing -----------------------------------------------------------

  // Append the numbers of an Option Request option that are not there yet.
  function AddNums(have: seq<uint16>, d: seq<byte>): seq<uint16>
    decreases |d|
  {
    if |d| < 2 then have
    else AddNums(if Rd16(d) in have then have else have + [Rd16(d)], d[2..])
  }

  // The same for a list of addresses.
  function AddAddrs(have: seq<Addr>, d: seq<byte>): seq<Addr>
    decreases |d|
  {
    if |d| < 16 then have
    else AddAddrs(if d[..16] in have then have else have + [d[..16]], d[16..])
  }

  function Ias(o: OptInfo, t: IaType): seq<ListVal> {
    if t == NA then o.iana else o.iapd
  }

  function ApplyIa(t: IaType, d: seq<byte>, o: OptInfo): Option<OptInfo> {
    if |d| < 12 then None
    else
      var ia := Ia(t, Rd32(d), Rd32(d[4..]), Rd32(d[8..]));
      var list := Ias(o, t);
      if HasMatch(list, ia) then Some(o)
      else
        var sub := CopyIn(CodeOf(ia), d[12..], []);
        if sub.None? then None
        else if t == NA then Some(o.(iana := list + [ListVal(ia, sub.value)]))
        else Some(o.(iapd := list + [ListVal(ia, sub.value)]))
  }

  function ApplyAuth(d: seq<byte>, o: OptInfo, pos: nat): Option<OptInfo> {
    if |d| < 11 || o.auth.Some? || d[0] != DELAYED then None
    else
      var n := |d| - 11;
      var head := Auth(d[0], d[1], d[2], d[3..11], None);
      if n == 0 then Some(o.(auth := Some(head)))
      else if n < 20 then None
      else
        var info := AuthInfo(d[11..n - 9], Rd32(d[n - 9..]), pos + 4 + n - 5);
        Some(o.(auth := Some(head.(info := Some(info)))))
  }

  function ApplyName(i: nat, d: seq<byte>, o: OptInfo): Option<OptInfo>
    requires i < 5
  {
    var l := DecodeAll(d);
    if l.None? || |o.names| != 5 then None else Some(o.(names := o.names[i := o.names[i] + l.value]))
  }

  function ApplyAddr(i: nat, d: seq<byte>, o: OptInfo): Option<OptInfo>
    requires i < 6
  {
    if |d| % 16 != 0 || d == [] || |o.addrs| != 6 then None
    else Some(o.(addrs := o.addrs[i := AddAddrs(o.addrs[i], d)]))
  }

  /** What one option does to the set read so far; `pos` is where it starts. */
  function Apply(code: uint16, d: seq<byte>, o: OptInfo, pos: nat): Option<OptInfo> {
    if code == CLIENTID then (if d == [] then None else Some(o.(clientID := d)))
    else if code == SERVERID then (if d == [] then None else Some(o.(serverID := d)))
    else if code == STATUS_CODE then (if |d| < 2 then None else Some(o.(stcodes := o.stcodes + [Rd16(d)])))
    else if code == ORO then (if |d| % 2 != 0 || d == [] then None else Some(o.(reqopts := AddNums(o.reqopts, d))))
    else if code == PREFERENCE then
      (if |d| != 1 then None else if o.pref.Some? then Some(o) else Some(o.(pref := Some(d[0]))))
    else if code == ELAPSED_TIME then
      (if |d| != 2 then None else if o.elapsed.Some? then Some(o) else Some(o.(elapsed := Some(Rd16(d)))))
    else if code == RELAY_MSG then Some(o.(relayMsg := Some(d)))
    else if code == AUTH then ApplyAuth(d, o, pos)
    else if code == RAPID_COMMIT then (if d != [] then None else Some(o.(rapid := true)))
    else if code == INTERFACE_ID then Some(o.(ifid := Some(d)))
    else if NameIndex(code) >= 0 then ApplyName(NameIndex(code), d, o)
    else if AddrIndex(code) >= 0 then ApplyAddr(AddrIndex(code), d, o)
    else if code == IA_PD then ApplyIa(PD, d, o)
    else if code == IA_NA then ApplyIa(NA, d, o)
    else if code == REFRESHTIME then
      (if |d| != 4 then None
       else if o.refresh.Some? then Some(o)
       else Some(o.(refresh := Some(if Rd32(d) < IRT_MINIMUM then IRT_MINIMUM else Rd32(d)))))
    else Some(o)
  }

  /** dhcp6_get_options: fewer than four bytes at the end are ignored. */
  function Parse(b: seq<byte>, o: OptInfo, pos: nat): Option<OptInfo>
    decreases |b|
  {
    if |b| < 4 then Some(o)
    else if Len(b) > |b| - 4 then None
    else
      var r := Apply(Code(b), b[4..4 + Len(b)], o, pos);
      if r.None? then None else Parse(b[4 + Len(b)..], r.value, pos + 4 + Len(b))
  }

  // ---- writing -----------------------------------------------------------

  /** The parts of an option set, each written by one piece of dhcp6_set_options. */
  datatype Slot = Client | Server | IaList(t: IaType) | Rapid | Pref | Elapsed | Status | Oro
    | NameList(i: nat) | AddrList(i: nat) | Relay | IfId | Refresh

  /** The order of dhcp6_set_options; the authentication option comes last. */
  const PLAIN: seq<Slot> :=
    [Client, Server, IaList(NA), Rapid, Pref, Elapsed, Status, Oro,
     NameList(0), AddrList(0), AddrList(1), NameList(1), AddrList(2), AddrList(3),
     NameList(2), NameList(3), AddrList(4), NameList(4), AddrList(5),
     IaList(PD), Relay, IfId, Refresh]

  function Nums(l: seq<uint16>): seq<byte> {
    if l == [] then [] else U16(l[0]) + Nums(l[1..])
  }

  function AddrBytes(l: seq<Addr>): seq<byte> {
    if l == [] then [] else l[0] + AddrBytes(l[1..])
  }

  function StatusBytes(l: seq<uint16>): seq<byte> {
    if l == [] then [] else Opt(STATUS_CODE, U16(l[0])) + StatusBytes(l[1..])
  }

  // The contents of an authentication option up to the MAC.
  function AuthHead(a: Auth): seq<byte> {
    [a.proto, a.alg, a.rdm] + a.rd + if a.info.Some? then a.info.value.realm + U32(a.info.value.keyid) else []
  }

  function WriteSlot(o: OptInfo, s: Slot): seq<byte> {
    match s
    case Client => if o.clientID == [] then [] else Opt(CLIENTID, o.clientID)
    case Server => if o.serverID == [] then [] else Opt(SERVERID, o.serverID)
    case IaList(t) => OutAll(Ias(o, t))
    case Rapid => if o.rapid then Opt(RAPID_COMMIT, []) else []
    case Pref => if o.pref.Some? then Opt(PREFERENCE, [o.pref.value]) else []
    case Elapsed => if o.elapsed.Some? then Opt(ELAPSED_TIME, U16(o.elapsed.value)) else []
    case Status => StatusBytes(o.stcodes)
    case Oro => if o.reqopts == [] then [] else Opt(ORO, Nums(o.reqopts))
    case NameList(i) =>
      if i >= 5 || i >= |o.names| || o.names[i] == [] || EncodeAll(o.names[i]).None? then []
      else Opt(NameCode(i), EncodeAll(o.names[i]).value)
    case AddrList(i) =>
      if i >= 6 || i >= |o.addrs| || o.addrs[i] == [] then [] else Opt(AddrCode(i), AddrBytes(o.addrs[i]))
    case Relay => if o.relayMsg.Some? && o.relayMsg.value != [] then Opt(RELAY_MSG, o.relayMsg.value) else []
    case IfId => if o.ifid.Some? then Opt(INTERFACE_ID, o.ifid.value) else []
    case Refresh => if o.refresh.Some? then Opt(REFRESHTIME, U32(o.refresh.value)) else []
  }

  function WriteSlots(o: OptInfo, ss: seq<Slot>): seq<byte> {
    if ss == [] then [] else WriteSlot(o, ss[0]) + WriteSlots(o, ss[1..])
  }

  function WriteAuth(a: Option<Auth>, mac: seq<byte>): seq<byte> {
    if a.None? then []
    else Opt(AUTH, AuthHead(a.value) + if a.value.info.Some? then mac else [])
  }

  /** dhcp6_set_options, with any bytes in place of the MAC. */
  function WriteWith(o: OptInfo, mac: seq<byte>): seq<byte> {
    WriteSlots(o, PLAIN) + WriteAuth(o.auth, mac)
  }

  function Write(o: OptInfo): seq<byte> {
    WriteWith(o, Zeros(16))
  }

  // ---- what the reader of a written set sees -----------------------------

  // `l` behind `have` without repetitions: the first of equal values stays.
  function Merge<T(==)>(have: seq<T>, l: seq<T>): seq<T>
    decreases |l|
  {
    if l == [] then have
    else Merge(if l[0] in have then have else have + [l[0]], l[1..])
  }

  // The same for IAs, which are equal when their identifiers are.
  function MergeIas(have: seq<ListVal>, l: seq<ListVal>): seq<ListVal>
    decreases |l|
  {
    if l == [] then have
    else MergeIas(if HasMatch(have, l[0].val) then have else have + [l[0]], l[1..])
  }

  function Raised(t: Option<uint32>): Option<uint32> {
    if t.Some? && t.value < IRT_MINIMUM then Some(IRT_MINIMUM) else t
  }

  // Where the MAC of an authentication option starting at `pos` stands.
  function MacOffset(a: Auth, pos: nat): nat {
    pos + 4 + |AuthHead(a)|
  }

  function Placed(a: Option<Auth>, pos: nat): Option<Auth> {
    if a.Some? && a.value.info.Some?
    then Some(a.value.(info := Some(a.value.info.value.(offset := MacOffset(a.value, pos)))))
    else a
  }

  /** The set as its reader sees it: repetitions gone, names in canonical form, a
      small refresh time raised, an empty relayed message dropped, the MAC located. */
  function Seen(o: OptInfo): (r: OptInfo)
    requires Shaped(o)
    ensures Shaped(r)
  {
    o.(iana := MergeIas([], o.iana), iapd := MergeIas([], o.iapd),
       reqopts := Merge([], o.reqopts),
       addrs := seq(6, i requires 0 <= i < 6 => Merge([], o.addrs[i])),
       names := seq(5, i requires 0 <= i < 5 => CanonAll(o.names[i])),
       refresh := Raised(o.refresh),
       relayMsg := if o.relayMsg == Some([]) then None else o.relayMsg,
       auth := Placed(o.auth, |WriteSlots(o, PLAIN)|))
  }

  predicate Shaped(st: OptInfo) {
    |st.addrs| == 6 && |st.names| == 5
  }

  ghost predicate WfIa(lv: ListVal, t: IaType) {
    && lv.val.Ia? && lv.val.iatype == t && |Out(lv)| - 4 < 0x1_0000
    && WfSubs(CodeOf(lv.val), lv.sub)
  }

  ghost predicate WfIas(lvs: seq<ListVal>, t: IaType) {
    forall k :: 0 <= k < |lvs| ==> WfIa(lvs[k], t)
  }

  ghost predicate WfNames(l: seq<seq<byte>>) {
    EncodeAll(l).Some? && |EncodeAll(l).value| < 0x1_0000
  }

  ghost predicate WfAuth(a: Auth) {
    && a.proto == DELAYED && |a.rd| == 8
    && (a.info.Some? ==> 11 + |a.info.value.realm| + 20 < 0x1_0000)
  }

  /** What the writer can express: every length fits 16 bits, the names can be
      encoded, sub-options stand where they may and prefixes are masked, and the
      authentication protocol is the one that is implemented. */
  ghost predicate Wf(o: OptInfo) {
    && Shaped(o)
    && |o.clientID| < 0x1_0000 && |o.serverID| < 0x1_0000
    && WfIas(o.iana, NA) && WfIas(o.iapd, PD)
    && 2 * |o.reqopts| < 0x1_0000
    && (forall i :: 0 <= i < 6 ==> 16 * |o.addrs[i]| < 0x1_0000)
    && (forall i :: 0 <= i < 5 ==> WfNames(o.names[i]))
    && (o.relayMsg.Some? ==> |o.relayMsg.value| < 0x1_0000)
    && (o.ifid.Some? ==> |o.ifid.value| < 0x1_0000)
    && (o.auth.Some? ==> WfAuth(o.auth.value))
  }

  // ---- one slot at a time ------------------------------------------------

  predicate IsSlot(s: Slot) {
    (s.NameList? ==> s.i < 5) && (s.AddrList? ==> s.i < 6)
  }

  /** Two sets hold the same in one slot. */
  predicate Same(a: OptInfo, b: OptInfo, s: Slot)
    requires IsSlot(s) && Shaped(a) && Shaped(b)
  {
    match s
    case Client => a.clientID == b.clientID
    case Server => a.serverID == b.serverID
    case IaList(t) => if t == NA then a.iana == b.iana else a.iapd == b.iapd
    case Rapid => a.rapid == b.rapid
    case Pref => a.pref == b.pref
    case Elapsed => a.elapsed == b.elapsed
    case Status => a.stcodes == b.stcodes
    case Oro => a.reqopts == b.reqopts
    case NameList(i) => a.names[i] == b.names[i]
    case AddrList(i) => a.addrs[i] == b.addrs[i]
    case Relay => a.relayMsg == b.relayMsg
    case IfId => a.ifid == b.ifid
    case Refresh => a.refresh == b.refresh
  }

  // `st` with one slot taken over from `o`.
  function Fill(o: OptInfo, st: OptInfo, s: Slot): (r: OptInfo)
    requires IsSlot(s) && Shaped(st) && Shaped(o)
    ensures Shaped(r) && Same(r, o, s) && r.auth == st.auth
    ensures forall u :: IsSlot(u) && u != s ==> Same(r, st, u)
  {
    match s
    case Client => st.(clientID := o.clientID)
    case Server => st.(serverID := o.serverID)
    case IaList(t) => if t == NA then st.(iana := o.iana) else st.(iapd := o.iapd)
    case Rapid => st.(rapid := o.rapid)
    case Pref => st.(pref := o.pref)
    case Elapsed => st.(elapsed := o.elapsed)
    case Status => st.(stcodes := o.stcodes)
    case Oro => st.(reqopts := o.reqopts)
    case NameList(i) => st.(names := st.names[i := o.names[i]])
    case AddrList(i) => st.(addrs := st.addrs[i := o.addrs[i]])
    case Relay => st.(relayMsg := o.relayMsg)
    case IfId => st.(ifid := o.ifid)
    case Refresh => st.(refresh := o.refresh)
  }

  /** The parser on a written option. */
  lemma {:induction false} ParseOpt(code: uint16, val: seq<byte>, rest: seq<byte>, st: OptInfo, pos: nat)
    requires |val| < 0x1_0000
    ensures var r := Apply(code, val, st, pos);
            Parse(Opt(code, val) + rest, st, pos) == if r.None? then None else Parse(rest, r.value, pos + 4 + |val|)
  {
    hide Apply, Opt, Code, Len;
    OptReads(code, val, rest);
  }

  lemma {:induction false} NumsMerge(have: seq<uint16>, l: seq<uint16>)
    ensures |Nums(l)| == 2 * |l| && AddNums(have, Nums(l)) == Merge(have, l)
    decreases |l|
  {
    if l == [] {
    } else {
      hide Merge;
      var b := Nums(l);
      Rd16U16(l[0], Nums(l[1..]));
      assert b[2..] == Nums(l[1..]);
      var h := if l[0] in have then have else have + [l[0]];
      NumsMerge(h, l[1..]);
      MergeFirst(have, l);
    }
  }

  lemma {:induction false} MergeFirst<T>(have: seq<T>, l: seq<T>)
    requires l != []
    ensures Merge(have, l) == Merge(if l[0] in have then have else have + [l[0]], l[1..])
  {
  }

  lemma {:induction false} AddrsMerge(have: seq<Addr>, l: seq<Addr>)
    ensures |AddrBytes(l)| == 16 * |l| && AddAddrs(have, AddrBytes(l)) == Merge(have, l)
    decreases |l|
  {
    if l == [] {
    } else {
      hide Merge;
      var b := AddrBytes(l);
      assert b[..16] == l[0] && b[16..] == AddrBytes(l[1..]);
      var h := if l[0] in have then have else have + [l[0]];
      AddrsMerge(h, l[1..]);
      MergeFirst(have, l);
    }
  }

  /** Merging neither loses nor repeats anything. */
  lemma {:induction false} MergeKeepsAll<T(!new)>(have: seq<T>, l: seq<T>)
    requires Distinct(have)
    ensures Distinct(Merge(have, l)) && forall x :: x in Merge(have, l) <==> x in have || x in l
    decreases |l|
  {
    if l == [] {
    } else {
      MergeKeepsAll(if l[0] in have then have else have + [l[0]], l[1..]);
      assert l == [l[0]] + l[1..];
    }
  }

  lemma {:induction false} MergeDistinct<T>(have: seq<T>, l: seq<T>)
    requires Distinct(have + l)
    ensures Merge(have, l) == have + l
    decreases |l|
  {
    if l == [] {
      assert have + l == have;
    } else {
      forall k | 0 <= k < |have| ensures have[k] != l[0] {
        assert (have + l)[k] != (have + l)[|have|];
      }
      assert have + l == have + [l[0]] + l[1..];
      MergeDistinct(have + [l[0]], l[1..]);
    }
  }

  // ---- the parser on one slot --------------------------------------------

  function WithIas(o: OptInfo, t: IaType, l: seq<ListVal>): OptInfo {
    if t == NA then o.(iana := l) else o.(iapd := l)
  }

  function MergeIa(have: seq<ListVal>, lv: ListVal): seq<ListVal> {
    if HasMatch(have, lv.val) then have else have + [lv]
  }

  lemma {:induction false} IaReads(t: IaType, lv: ListVal, st: OptInfo)
    requires WfIa(lv, t)
    ensures ApplyIa(t, Head(lv.val) + OutAll(lv.sub), st) == Some(WithIas(st, t, MergeIa(Ias(st, t), lv)))
  {
    hide OutAll, CopyIn, HasMatch, WfSubs, Out;
    var v := lv.val;
    var d := Head(v) + OutAll(lv.sub);
    Rd32U32(v.iaid, U32(v.t1) + U32(v.t2) + OutAll(lv.sub));
    Rd32U32(v.t1, U32(v.t2) + OutAll(lv.sub));
    Rd32U32(v.t2, OutAll(lv.sub));
    assert d == U32(v.iaid) + (U32(v.t1) + U32(v.t2) + OutAll(lv.sub));
    assert d[4..] == U32(v.t1) + (U32(v.t2) + OutAll(lv.sub));
    assert d[8..] == U32(v.t2) + OutAll(lv.sub);
    assert d[12..] == OutAll(lv.sub);
    IaSubsRead(t, lv);
    assert lv == ListVal(v, lv.sub);
  }

  lemma {:induction false} IaSubsRead(t: IaType, lv: ListVal)
    requires WfIa(lv, t)
    ensures CopyIn(CodeOf(lv.val), OutAll(lv.sub), []) == Some(lv.sub)
  {
    hide CopyIn, OutAll, CodeOf, Out;
    assert [] + lv.sub == lv.sub;
    SubsRoundTrip(CodeOf(lv.val), lv.sub, []);
  }

  lemma {:induction false} IaApplies(t: IaType, d: seq<byte>, st: OptInfo, pos: nat)
    ensures Apply(if t == NA then IA_NA else IA_PD, d, st, pos) == ApplyIa(t, d, st)
  {
  }

  lemma {:induction false} IaParses(t: IaType, lv: ListVal, rest: seq<byte>, st: OptInfo, pos: nat)
    requires WfIa(lv, t)
    ensures Parse(Out(lv) + rest, st, pos) == Parse(rest, WithIas(st, t, MergeIa(Ias(st, t), lv)), pos + |Out(lv)|)
  {
    hide Apply, ApplyIa, Head, OutAll, WithIas, MergeIa, Ias, WfSubs;
    OutReads(lv, rest);
    IaApplies(t, Head(lv.val) + OutAll(lv.sub), st, pos);
    IaReads(t, lv, st);
  }

  lemma {:induction false} IasParse(t: IaType, l: seq<ListVal>, rest: seq<byte>, st: OptInfo, pos: nat)
    requires WfIas(l, t)
    ensures Parse(OutAll(l) + rest, st, pos)
         == Parse(rest, WithIas(st, t, MergeIas(Ias(st, t), l)), pos + |OutAll(l)|)
    decreases |l|
  {
    hide Parse, HasMatch, Out, WfIa;
    if l == [] {
      assert OutAll(l) + rest == rest;
    } else {
      var tail := OutAll(l[1..]) + rest;
      assert OutAll(l) + rest == Out(l[0]) + tail;
      IaParses(t, l[0], tail, st, pos);
      var st1 := WithIas(st, t, MergeIa(Ias(st, t), l[0]));
      IasParse(t, l[1..], rest, st1, pos + |Out(l[0])|);
    }
  }

  lemma {:induction false} StatusParses(l: seq<uint16>, rest: seq<byte>, st: OptInfo, pos: nat)
    ensures Parse(StatusBytes(l) + rest, st, pos)
         == Parse(rest, st.(stcodes := st.stcodes + l), pos + |StatusBytes(l)|)
    decreases |l|
  {
    hide Parse, Opt, U16;
    if l == [] {
      assert StatusBytes(l) + rest == rest && st.stcodes + l == st.stcodes;
    } else {
      var tail := StatusBytes(l[1..]) + rest;
      assert StatusBytes(l) + rest == Opt(STATUS_CODE, U16(l[0])) + tail;
      ParseOpt(STATUS_CODE, U16(l[0]), tail, st, pos);
      assert U16(l[0]) + [] == U16(l[0]);
      Rd16U16(l[0], []);
      var st1 := st.(stcodes := st.stcodes + [l[0]]);
      StatusParses(l[1..], rest, st1, pos + 6);
      assert st.stcodes + l == st1.stcodes + l[1..];
    }
  }

  lemma {:induction false} ListApplies(i: nat, d: seq<byte>, st: OptInfo, pos: nat)
    ensures i < 5 ==> Apply(NameCode(i), d, st, pos) == ApplyName(i, d, st)
    ensures i < 6 ==> Apply(AddrCode(i), d, st, pos) == ApplyAddr(i, d, st)
  {
  }

  lemma {:induction false} NameParses(i: nat, o: OptInfo, rest: seq<byte>, st: OptInfo, pos: nat)
    requires i < 5 && Wf(o) && Shaped(st) && Same(st, EMPTY, NameList(i))
    ensures Parse(WriteSlot(o, NameList(i)) + rest, st, pos)
         == Parse(rest, Fill(Seen(o), st, NameList(i)), pos + |WriteSlot(o, NameList(i))|)
  {
    hide Parse, Opt, EncodeAll, DecodeAll, Apply, WriteSlots, MergeIas;
    var l := o.names[i];
    if l == [] {
      assert WriteSlot(o, NameList(i)) + rest == rest;
      assert st.names[i := []] == st.names;
    } else {
      assert WfNames(l);
      var e := EncodeAll(l).value;
      ParseOpt(NameCode(i), e, rest, st, pos);
      ListApplies(i, e, st, pos);
      ListRoundTrip(l);
      assert [] + CanonAll(l) == CanonAll(l);
    }
  }

  lemma {:induction false} AddrParses(i: nat, o: OptInfo, rest: seq<byte>, st: OptInfo, pos: nat)
    requires i < 6 && Wf(o) && Shaped(st) && Same(st, EMPTY, AddrList(i))
    ensures Parse(WriteSlot(o, AddrList(i)) + rest, st, pos)
         == Parse(rest, Fill(Seen(o), st, AddrList(i)), pos + |WriteSlot(o, AddrList(i))|)
  {
    hide Parse, Opt, AddAddrs, AddrBytes, Apply, CanonAll, WriteSlots, MergeIas;
    var l := o.addrs[i];
    if l == [] {
      assert WriteSlot(o, AddrList(i)) + rest == rest;
      assert st.addrs[i := []] == st.addrs;
    } else {
      AddrsMerge([], l);
      ParseOpt(AddrCode(i), AddrBytes(l), rest, st, pos);
      ListApplies(i, AddrBytes(l), st, pos);
    }
  }

  lemma {:induction false} OroParses(o: OptInfo, rest: seq<byte>, st: OptInfo, pos: nat)
    requires Wf(o) && Shaped(st) && Same(st, EMPTY, Oro)
    ensures Parse(WriteSlot(o, Oro) + rest, st, pos)
         == Parse(rest, Fill(Seen(o), st, Oro), pos + |WriteSlot(o, Oro)|)
  {
    hide Parse, Opt, AddNums, Nums, WriteSlots, MergeIas, CanonAll, WfIas, WfNames;
    if o.reqopts == [] {
      assert WriteSlot(o, Oro) + rest == rest;
    } else {
      NumsMerge([], o.reqopts);
      ParseOpt(ORO, Nums(o.reqopts), rest, st, pos);
    }
  }

  lemma {:induction false} IaListParses(t: IaType, o: OptInfo, rest: seq<byte>, st: OptInfo, pos: nat)
    requires Wf(o) && Shaped(st) && Same(st, EMPTY, IaList(t))
    ensures Parse(WriteSlot(o, IaList(t)) + rest, st, pos)
         == Parse(rest, Fill(Seen(o), st, IaList(t)), pos + |WriteSlot(o, IaList(t))|)
  {
    hide Parse, WriteSlots, MergeIas, CanonAll, WfIas, WfNames, OutAll;
    IasParse(t, Ias(o, t), rest, st, pos);
  }

  lemma {:induction false} StatusListParses(o: OptInfo, rest: seq<byte>, st: OptInfo, pos: nat)
    requires Wf(o) && Shaped(st) && Same(st, EMPTY, Status)
    ensures Parse(WriteSlot(o, Status) + rest, st, pos)
         == Parse(rest, Fill(Seen(o), st, Status), pos + |WriteSlot(o, Status)|)
  {
    hide Parse, WriteSlots, MergeIas, CanonAll, WfIas, WfNames, StatusBytes;
    StatusParses(o.stcodes, rest, st, pos);
    assert [] + o.stcodes == o.stcodes;
  }

  predicate IsBytes(s: Slot) {
    s.Client? || s.Server? || s.Rapid? || s.Relay? || s.IfId?
  }

  lemma {:induction false} BytesParse(o: OptInfo, s: Slot, rest: seq<byte>, st: OptInfo, pos: nat)
    requires Wf(o) && Shaped(st) && IsBytes(s) && Same(st, EMPTY, s)
    ensures Parse(WriteSlot(o, s) + rest, st, pos)
         == Parse(rest, Fill(Seen(o), st, s), pos + |WriteSlot(o, s)|)
  {
    hide Parse, Opt, WriteSlots, Merge, MergeIas, CanonAll, WfIas, WfNames;
    assert [] + rest == rest;
    match s
    case Client => if o.clientID != [] { ParseOpt(CLIENTID, o.clientID, rest, st, pos); }
    case Server => if o.serverID != [] { ParseOpt(SERVERID, o.serverID, rest, st, pos); }
    case Rapid => if o.rapid { ParseOpt(RAPID_COMMIT, [], rest, st, pos); }
    case Relay =>
      if o.relayMsg.Some? && o.relayMsg.value != [] { ParseOpt(RELAY_MSG, o.relayMsg.value, rest, st, pos); }
    case IfId => if o.ifid.Some? { ParseOpt(INTERFACE_ID, o.ifid.value, rest, st, pos); }
    case _ =>
  }

  lemma {:induction false} PrefParses(o: OptInfo, rest: seq<byte>, st: OptInfo, pos: nat)
    requires Wf(o) && Shaped(st) && Same(st, EMPTY, Pref)
    ensures Parse(WriteSlot(o, Pref) + rest, st, pos)
         == Parse(rest, Fill(Seen(o), st, Pref), pos + |WriteSlot(o, Pref)|)
  {
    hide Parse, Opt, WriteSlots, Merge, MergeIas, CanonAll, WfIas, WfNames, U16, U32;
    assert [] + rest == rest;
    if o.pref.Some? {
      ParseOpt(PREFERENCE, [o.pref.value], rest, st, pos);
    }
  }

  lemma {:induction false} ElapsedParses(o: OptInfo, rest: seq<byte>, st: OptInfo, pos: nat)
    requires Wf(o) && Shaped(st) && Same(st, EMPTY, Elapsed)
    ensures Parse(WriteSlot(o, Elapsed) + rest, st, pos)
         == Parse(rest, Fill(Seen(o), st, Elapsed), pos + |WriteSlot(o, Elapsed)|)
  {
    hide Parse, Opt, WriteSlots, Merge, MergeIas, CanonAll, WfIas, WfNames, U16, U32;
    assert [] + rest == rest;
    if o.elapsed.Some? {
      var b := U16(o.elapsed.value);
      ParseOpt(ELAPSED_TIME, b, rest, st, pos);
      assert b + [] == b;
      Rd16U16(o.elapsed.value, []);
    }
  }

  lemma {:induction false} RefreshParses(o: OptInfo, rest: seq<byte>, st: OptInfo, pos: nat)
    requires Wf(o) && Shaped(st) && Same(st, EMPTY, Refresh)
    ensures Parse(WriteSlot(o, Refresh) + rest, st, pos)
         == Parse(rest, Fill(Seen(o), st, Refresh), pos + |WriteSlot(o, Refresh)|)
  {
    hide Parse, Opt, WriteSlots, Merge, MergeIas, CanonAll, WfIas, WfNames, U16, U32;
    assert [] + rest == rest;
    if o.refresh.Some? {
      var b := U32(o.refresh.value);
      ParseOpt(REFRESHTIME, b, rest, st, pos);
      assert b + [] == b;
      Rd32U32(o.refresh.value, []);
    }
  }

  /** The parser, on what the writer produced for one part of a set, takes over
      exactly that part and goes on behind it. */
  lemma {:induction false} SlotParses(o: OptInfo, s: Slot, rest: seq<byte>, st: OptInfo, pos: nat)
    requires Wf(o) && Shaped(st) && IsSlot(s) && Same(st, EMPTY, s)
    ensures Parse(WriteSlot(o, s) + rest, st, pos)
         == Parse(rest, Fill(Seen(o), st, s), pos + |WriteSlot(o, s)|)
  {
    hide Parse, WriteSlot, Fill, Seen, Same, Wf;
    match s
    case IaList(t) => IaListParses(t, o, rest, st, pos);
    case Status => StatusListParses(o, rest, st, pos);
    case Oro => OroParses(o, rest, st, pos);
    case NameList(i) => NameParses(i, o, rest, st, pos);
    case AddrList(i) => AddrParses(i, o, rest, st, pos);
    case Pref => PrefParses(o, rest, st, pos);
    case Elapsed => ElapsedParses(o, rest, st, pos);
    case Refresh => RefreshParses(o, rest, st, pos);
    case _ => BytesParse(o, s, rest, st, pos);
  }

  // ---- whole sets --------------------------------------------------------

  function FillAll(o: OptInfo, st: OptInfo, ss: seq<Slot>): (r: OptInfo)
    requires Shaped(o) && Shaped(st) && forall k :: 0 <= k < |ss| ==> IsSlot(ss[k])
    ensures Shaped(r)
    decreases |ss|
  {
    if ss == [] then st else FillAll(o, Fill(o, st, ss[0]), ss[1..])
  }

  /** The slots of any duplicate-free list, in any order, are read back. */
  lemma {:induction false} SlotsParse(o: OptInfo, ss: seq<Slot>, rest: seq<byte>, st: OptInfo, pos: nat)
    requires Wf(o) && Shaped(o) && Shaped(st) && Distinct(ss)
    requires forall k :: 0 <= k < |ss| ==> IsSlot(ss[k]) && Same(st, EMPTY, ss[k])
    ensures Parse(WriteSlots(o, ss) + rest, st, pos)
         == Parse(rest, FillAll(Seen(o), st, ss), pos + |WriteSlots(o, ss)|)
    decreases |ss|
  {
    hide Parse, WriteSlot, Fill, Seen, Same, Wf;
    if ss == [] {
      assert WriteSlots(o, ss) + rest == rest;
    } else {
      var tail := WriteSlots(o, ss[1..]) + rest;
      assert WriteSlots(o, ss) + rest == WriteSlot(o, ss[0]) + tail;
      SlotParses(o, ss[0], tail, st, pos);
      var st1 := Fill(Seen(o), st, ss[0]);
      FillLeaves(Seen(o), st, ss);
      SlotsParse(o, ss[1..], rest, st1, pos + |WriteSlot(o, ss[0])|);
    }
  }

  lemma {:induction false} FillLeaves(o: OptInfo, st: OptInfo, ss: seq<Slot>)
    requires Shaped(o) && Shaped(st) && Distinct(ss) && ss != []
    requires forall k :: 0 <= k < |ss| ==> IsSlot(ss[k]) && Same(st, EMPTY, ss[k])
    ensures forall k :: 0 <= k < |ss[1..]| ==> Same(Fill(o, st, ss[0]), EMPTY, ss[1..][k])
  {
    hide Fill;
    var r := Fill(o, st, ss[0]);
    forall k | 0 <= k < |ss[1..]| ensures Same(r, EMPTY, ss[1..][k]) {
      assert ss[0] != ss[k + 1] && ss[1..][k] == ss[k + 1];
      assert Same(st, EMPTY, ss[k + 1]) && Same(r, st, ss[k + 1]);
    }
  }

  lemma {:induction false} SameTrans(a: OptInfo, b: OptInfo, c: OptInfo, u: Slot)
    requires IsSlot(u) && Shaped(a) && Shaped(b) && Shaped(c) && Same(a, b, u) && Same(b, c, u)
    ensures Same(a, c, u)
  {
  }

  /** Filling changes the listed slots and nothing else. */
  lemma {:induction false} FilledSlot(o: OptInfo, st: OptInfo, ss: seq<Slot>, u: Slot)
    requires Shaped(o) && Shaped(st) && forall k :: 0 <= k < |ss| ==> IsSlot(ss[k])
    requires IsSlot(u)
    ensures Same(FillAll(o, st, ss), if u in ss then o else st, u) && FillAll(o, st, ss).auth == st.auth
    decreases |ss|
  {
    if ss == [] {
    } else {
      hide Fill, Same;
      var st1, r := Fill(o, st, ss[0]), FillAll(o, st, ss);
      FilledSlot(o, st1, ss[1..], u);
      if u !in ss[1..] {
        SameTrans(r, st1, if u == ss[0] then o else st, u);
      }
    }
  }

  lemma {:induction false} IsPlain(u: Slot)
    requires IsSlot(u)
    ensures u in PLAIN
  {
    var k := match u
      case Client => 0 case Server => 1 case IaList(t) => if t == NA then 2 else 19
      case Rapid => 3 case Pref => 4 case Elapsed => 5 case Status => 6 case Oro => 7
      case NameList(i) => if i == 0 then 8 else if i == 1 then 11 else if i == 2 then 14 else if i == 3 then 15 else 17
      case AddrList(i) =>
        if i < 2 then 9 + i else if i < 4 then 10 + i else if i == 4 then 16 else 18
      case Relay => 20 case IfId => 21 case Refresh => 22;
    assert PLAIN[k] == u;
  }

  lemma {:induction false} PlainSlots()
    ensures Distinct(PLAIN) && forall k :: 0 <= k < |PLAIN| ==> IsSlot(PLAIN[k]) && Same(EMPTY, EMPTY, PLAIN[k])
  {
  }

  lemma {:induction false} SameLists(a: OptInfo, b: OptInfo)
    requires Shaped(a) && Shaped(b)
    requires forall u :: IsSlot(u) ==> Same(a, b, u)
    ensures a.addrs == b.addrs && a.names == b.names
  {
    forall i | 0 <= i < 6 ensures a.addrs[i] == b.addrs[i] {
      assert Same(a, b, AddrList(i));
    }
    forall i | 0 <= i < 5 ensures a.names[i] == b.names[i] {
      assert Same(a, b, NameList(i));
    }
  }

  lemma {:induction false} SameFields(a: OptInfo, b: OptInfo)
    requires Shaped(a) && Shaped(b)
    requires forall u :: IsSlot(u) ==> Same(a, b, u)
    ensures a.clientID == b.clientID && a.serverID == b.serverID && a.iana == b.iana && a.iapd == b.iapd
    ensures a.rapid == b.rapid && a.pref == b.pref && a.elapsed == b.elapsed && a.stcodes == b.stcodes
    ensures a.reqopts == b.reqopts && a.relayMsg == b.relayMsg && a.ifid == b.ifid && a.refresh == b.refresh
  {
    assert Same(a, b, Client) && Same(a, b, Server) && Same(a, b, IaList(NA)) && Same(a, b, IaList(PD));
    assert Same(a, b, Rapid) && Same(a, b, Pref) && Same(a, b, Elapsed) && Same(a, b, Status);
    assert Same(a, b, Oro) && Same(a, b, Relay) && Same(a, b, IfId) && Same(a, b, Refresh);
  }

  lemma {:induction false} SameEverywhere(a: OptInfo, b: OptInfo)
    requires Shaped(a) && Shaped(b) && a.auth == b.auth
    requires forall u :: IsSlot(u) ==> Same(a, b, u)
    ensures a == b
  {
    hide *;
    SameLists(a, b);
    SameFields(a, b);
  }

  lemma {:induction false} FilledWhole(o: OptInfo)
    requires Shaped(o)
    ensures (forall k :: 0 <= k < |PLAIN| ==> IsSlot(PLAIN[k])) && FillAll(o, EMPTY, PLAIN) == o.(auth := None)
  {
    PlainSlots();
    hide FillAll, Same;
    var r, w := FillAll(o, EMPTY, PLAIN), o.(auth := None);
    forall u | IsSlot(u) ensures Same(r, w, u) {
      IsPlain(u);
      FilledSlot(o, EMPTY, PLAIN, u);
      SameButAuth(o, u);
      SameTrans(r, o, w, u);
    }
    FilledSlot(o, EMPTY, PLAIN, Client);
    SameEverywhere(r, w);
  }

  lemma {:induction false} SameButAuth(o: OptInfo, u: Slot)
    requires Shaped(o) && IsSlot(u)
    ensures Same(o, o.(auth := None), u)
  {
  }

  lemma {:induction false} AuthReads(a: Auth, mac: seq<byte>, st: OptInfo, pos: nat)
    requires WfAuth(a) && |mac| == 16 && st.auth.None?
    ensures var d := AuthHead(a) + if a.info.Some? then mac else [];
            |d| < 0x1_0000 && ApplyAuth(d, st, pos) == Some(st.(auth := Placed(Some(a), pos)))
  {
    var d := AuthHead(a) + if a.info.Some? then mac else [];
    assert d[3..11] == a.rd;
    if a.info.Some? {
      var realm, key := a.info.value.realm, U32(a.info.value.keyid);
      var n := |d| - 11;
      assert n == |realm| + 20;
      assert d[11..n - 9] == realm;
      Rd32U32(a.info.value.keyid, mac);
      assert d[n - 9..] == key + mac;
    }
  }

  lemma {:induction false} AuthParses(a: Option<Auth>, mac: seq<byte>, st: OptInfo, pos: nat)
    requires (a.Some? ==> WfAuth(a.value)) && |mac| == 16 && st.auth.None?
    ensures Parse(WriteAuth(a, mac), st, pos) == Some(st.(auth := Placed(a, pos)))
  {
    if a.None? {
      assert st == st.(auth := None);
    } else {
      hide Opt, AuthHead, ApplyAuth, Placed, WfAuth;
      var d := AuthHead(a.value) + if a.value.info.Some? then mac else [];
      AuthReads(a.value, mac, st, pos);
      assert Opt(AUTH, d) + [] == Opt(AUTH, d);
      ParseOpt(AUTH, d, [], st, pos);
    }
  }

  /** Parsing a written set gives the set as its reader sees it, whatever the
      sixteen MAC bytes are. */
  lemma {:induction false} OptionsRoundTrip(o: OptInfo, mac: seq<byte>)
    requires Wf(o) && |mac| == 16
    ensures Parse(WriteWith(o, mac), EMPTY, 0) == Some(Seen(o))
  {
    hide Parse, WriteSlots, WriteAuth, FillAll, Same, Fill, WfIas, WfNames, WfAuth, Placed, Distinct;
    hide Merge, MergeIas, CanonAll;
    PlainSlots();
    FilledWhole(Seen(o));
    SlotsParse(o, PLAIN, WriteAuth(o.auth, mac), EMPTY, 0);
    AuthParses(o.auth, mac, Seen(o).(auth := None), |WriteSlots(o, PLAIN)|);
  }

  ghost predicate Canonical(o: OptInfo) {
    && Shaped(o) && Unmatched(o.iana) && Unmatched(o.iapd) && Distinct(o.reqopts)
    && (forall i :: 0 <= i < 6 ==> Distinct(o.addrs[i]))
    && (forall i :: 0 <= i < 5 ==> CanonAll(o.names[i]) == o.names[i])
    && (o.refresh.Some? ==> o.refresh.value >= IRT_MINIMUM) && o.relayMsg != Some([])
  }

  lemma {:induction false} IasUnmatched(have: seq<ListVal>, l: seq<ListVal>)
    requires Unmatched(have + l)
    ensures MergeIas(have, l) == have + l
    decreases |l|
  {
    if l == [] {
      assert have + l == have;
    } else {
      NoMatchYet(have, l);
      Shift(have, l);
      IasUnmatched(have + [l[0]], l[1..]);
    }
  }

  /** A set without repetitions, with canonical names, is read back unchanged but
      for the MAC offset. */
  lemma {:induction false} SeenUnchanged(o: OptInfo)
    requires Canonical(o)
    ensures Seen(o) == o.(auth := Placed(o.auth, |WriteSlots(o, PLAIN)|))
  {
    hide Unmatched, WriteSlots, Placed;
    assert [] + o.iana == o.iana && [] + o.iapd == o.iapd && [] + o.reqopts == o.reqopts;
    IasUnmatched([], o.iana);
    IasUnmatched([], o.iapd);
    MergeDistinct([], o.reqopts);
    forall i | 0 <= i < 6 ensures Seen(o).addrs[i] == o.addrs[i] {
      assert [] + o.addrs[i] == o.addrs[i];
      MergeDistinct([], o.addrs[i]);
    }
    assert Seen(o).addrs == o.addrs && Seen(o).names == o.names;
  }

  // What dhcp6_set_options leaves in delayedauth_offset.
  function Offset(o: OptInfo): nat
    requires o.auth.Some?
  {
    MacOffset(o.auth.value, |WriteSlots(o, PLAIN)|)
  }

  /** The offset the writer and the parser compute is where the MAC stands: the
      last sixteen bytes, the only ones that depend on it. */
  lemma {:induction false} MacStandsLast(o: OptInfo, mac: seq<byte>, other: seq<byte>)
    requires Wf(o) && |mac| == |other| == 16 && o.auth.Some? && o.auth.value.info.Some?
    ensures var off := Offset(o);
            var b := WriteWith(o, mac);
            && Seen(o).auth == Some(o.auth.value.(info := Some(o.auth.value.info.value.(offset := off))))
            && off + 16 == |b| && b[off..] == mac && b[..off] == WriteWith(o, other)[..off]
  {
    hide WriteSlots, Merge, MergeIas, CanonAll, WfIas, WfNames, U16;
    var a := o.auth.value;
    var n := |AuthHead(a)|;
    assert n + 16 < 0x1_0000;
    var p := WriteSlots(o, PLAIN) + (U16(AUTH) + U16(n + 16) + AuthHead(a));
    AuthEnds(AuthHead(a), mac);
    AuthEnds(AuthHead(a), other);
    assert WriteWith(o, mac) == p + mac && WriteWith(o, other) == p + other;
  }

  lemma {:induction false} AuthEnds(h: seq<byte>, mac: seq<byte>)
    requires |mac| == 16 && |h| + 16 < 0x1_0000
    ensures Opt(AUTH, h + mac) == U16(AUTH) + U16(|h| + 16) + h + mac
  {
    hide U16;
    assert (h + mac)[..|h| + 16] == h + mac;
  }
}
