/** What the option parser accepts and what a repeated option does (common.c). */
module OptionRules {
  import opened Bytes
  import opened ListVals
  import opened Wire
  import opened Names
  import opened Options

  // ---- lengths -----------------------------------------------------------

  /** Options of one exact length. */
  function ExactLength(code: uint16): Option<nat> {
    if code == RAPID_COMMIT then Some(0)
    else if code == PREFERENCE then Some(1)
    else if code == ELAPSED_TIME then Some(2)
    else if code == REFRESHTIME then Some(4)
    else None
  }

  /** Lists of items of one size. */
  function ItemSize(code: uint16): (n: nat)
    ensures n > 0
  {
    if code in {22, 23, 27, 28, 31, 34} then 16 else if code == ORO then 2 else 1
  }

  predicate IsList(code: uint16) {
    code in {CLIENTID, SERVERID, ORO, 22, 23, 27, 28, 31, 34}
  }

  /** Codes with a meaning of their own. */
  predicate IsKnown(code: uint16) {
    || ExactLength(code).Some? || IsList(code)
    || code in {STATUS_CODE, RELAY_MSG, AUTH, INTERFACE_ID, 21, 24, 29, 30, 33, IA_NA, IA_PD}
  }

  /** Whatever was read before, an option of one length is accepted if and only if it has
      it, a list if and only if it is not empty and a whole number of items, a status
      code if and only if it has two bytes; unknown options are passed over. */
  lemma {:induction false} LengthDecides(code: uint16, d: seq<byte>, o: OptInfo, pos: nat)
    requires Shaped(o)
    ensures var r := Apply(code, d, o, pos);
            && (ExactLength(code).Some? ==> (r.Some? <==> |d| == ExactLength(code).value))
            && (IsList(code) ==> (r.Some? <==> d != [] && |d| % ItemSize(code) == 0))
            && (code == STATUS_CODE ==> (r.Some? <==> |d| >= 2))
            && (code == RELAY_MSG || code == INTERFACE_ID ==> r.Some?)
            && (!IsKnown(code) ==> r == Some(o))
  {
    hide AddNums, AddAddrs, CopyIn, DecodeAll, Rd16, Rd32, HasMatch;
  }

  /** An IA is accepted if and only if it has its three numbers and, unless there is one
      of that identity already, its sub-options can be read. */
  lemma {:induction false} IaDecides(t: IaType, d: seq<byte>, o: OptInfo, pos: nat)
    ensures var code := if t == NA then IA_NA else IA_PD;
            var r := Apply(code, d, o, pos);
            && (r.Some? <==>
                  |d| >= 12 && (HasMatch(Ias(o, t), Ia(t, Rd32(d), 0, 0)) || CopyIn(code, d[12..], []).Some?))
            && (r.Some? && HasMatch(Ias(o, t), Ia(t, Rd32(d), 0, 0)) ==> r.value == o)
  {
    hide CopyIn, Rd32, NameIndex, AddrIndex;
    if |d| >= 12 {
      SameIdentity(Ias(o, t), t, Rd32(d), Rd32(d[4..]), Rd32(d[8..]));
    }
    NotAList(if t == NA then IA_NA else IA_PD);
  }

  lemma {:induction false} SameIdentity(list: seq<ListVal>, t: IaType, iaid: uint32, t1: uint32, t2: uint32)
    ensures HasMatch(list, Ia(t, iaid, t1, t2)) <==> HasMatch(list, Ia(t, iaid, 0, 0))
  {
    forall k | 0 <= k < |list|
      ensures Matches(list[k].val, Ia(t, iaid, t1, t2)) <==> Matches(list[k].val, Ia(t, iaid, 0, 0))
    {
    }
  }

  lemma {:induction false} NotAList(code: uint16)
    requires code == IA_NA || code == IA_PD
    ensures NameIndex(code) < 0 && AddrIndex(code) < 0
  {
  }

  // ---- repetition --------------------------------------------------------

  // One option, then another of the same code.
  function Twice(code: uint16, d: seq<byte>, d': seq<byte>, o: OptInfo, pos: nat, pos': nat): Option<OptInfo> {
    var r := Apply(code, d, o, pos);
    if r.None? then None else Apply(code, d', r.value, pos')
  }

  /** Of a preference, elapsed time or refresh time that is repeated the first counts. */
  lemma {:induction false} FirstCounts(code: uint16, d: seq<byte>, d': seq<byte>, o: OptInfo, pos: nat, pos': nat)
    requires code in {PREFERENCE, ELAPSED_TIME, REFRESHTIME} && |d'| == |d|
    ensures Twice(code, d, d', o, pos, pos') == Apply(code, d, o, pos)
  {
    hide Rd16, Rd32;
  }

  /** Of an identifier, relayed message or interface the last counts. */
  lemma {:induction false} LastCounts(code: uint16, d: seq<byte>, d': seq<byte>, o: OptInfo, pos: nat, pos': nat)
    requires code in {CLIENTID, SERVERID, RELAY_MSG, INTERFACE_ID} && Apply(code, d, o, pos).Some?
    ensures Twice(code, d, d', o, pos, pos') == Apply(code, d', o, pos')
  {
  }

  /** A second authentication option, whatever it holds, makes the message malformed. */
  lemma {:induction false} OneAuth(d: seq<byte>, d': seq<byte>, o: OptInfo, pos: nat, pos': nat)
    ensures Twice(AUTH, d, d', o, pos, pos') == None
  {
    hide Rd32;
  }

  lemma {:induction false} NumsThenNums(have: seq<uint16>, d: seq<byte>, d': seq<byte>)
    requires |d| % 2 == 0
    ensures AddNums(AddNums(have, d), d') == AddNums(have, d + d')
    decreases |d|
  {
    hide Rd16;
    if d == [] {
      assert d + d' == d';
    } else {
      var h := if Rd16(d) in have then have else have + [Rd16(d)];
      NumsThenNums(h, d[2..], d');
      assert (d + d')[2..] == d[2..] + d';
      SameNumber(d, d');
    }
  }

  lemma {:induction false} SameNumber(d: seq<byte>, d': seq<byte>)
    requires |d| >= 2
    ensures Rd16(d + d') == Rd16(d)
  {
  }

  lemma {:induction false} AddrsThenAddrs(have: seq<Addr>, d: seq<byte>, d': seq<byte>)
    requires |d| % 16 == 0
    ensures AddAddrs(AddAddrs(have, d), d') == AddAddrs(have, d + d')
    decreases |d|
  {
    if d == [] {
      assert d + d' == d';
    } else {
      var h := if d[..16] in have then have else have + [d[..16]];
      assert (d + d')[..16] == d[..16] && (d + d')[16..] == d[16..] + d';
      AddrsThenAddrs(h, d[16..], d');
    }
  }

  /** Requested options and server addresses in two options count as in one. */
  lemma {:induction false} ListsJoin(code: uint16, d: seq<byte>, d': seq<byte>, o: OptInfo, pos: nat, pos': nat)
    requires Shaped(o) && (code == ORO || AddrIndex(code) >= 0)
    requires Apply(code, d, o, pos).Some? && Apply(code, d', o, pos').Some?
    ensures Twice(code, d, d', o, pos, pos') == Apply(code, d + d', o, pos)
  {
    hide AddNums, AddAddrs;
    if code == ORO {
      NumsThenNums(o.reqopts, d, d');
    } else {
      var i := AddrIndex(code);
      AddrsThenAddrs(o.addrs[i], d, d');
      assert o.addrs[i := AddAddrs(o.addrs[i], d)][i := AddAddrs(o.addrs[i], d + d')]
          == o.addrs[i := AddAddrs(o.addrs[i], d + d')];
    }
  }
}
