/** The option parser on arbitrary bytes (common.c): whatever a peer sends, the set
    read is one the writer can express, so that it can be passed on and read again. */
module OptionsSound {
  import opened Bytes
  import opened ListVals
  import opened Wire
  import opened Names
  import opened Options
  import opened WireSound

  // ---- what a set read from `n` bytes looks like -------------------------

  ghost predicate SaneIas(l: seq<ListVal>, t: IaType) {
    WfIas(l, t) && Unmatched(l)
  }

  ghost predicate SaneNums(l: seq<uint16>, n: nat) {
    Distinct(l) && 2 * |l| <= n
  }

  ghost predicate SaneAddrs(ls: seq<seq<Addr>>, n: nat) {
    |ls| == 6 && forall i :: 0 <= i < 6 ==> Distinct(ls[i]) && 16 * |ls[i]| <= n
  }

  ghost predicate SaneBytes(o: OptInfo) {
    && |o.clientID| < 0x1_0000 && |o.serverID| < 0x1_0000
    && (o.relayMsg.Some? ==> |o.relayMsg.value| < 0x1_0000)
    && (o.ifid.Some? ==> |o.ifid.value| < 0x1_0000)
  }

  ghost predicate SaneRest(o: OptInfo) {
    && |o.names| == 5
    && (o.refresh.Some? ==> o.refresh.value >= IRT_MINIMUM)
    && (o.auth.Some? ==> WfAuth(o.auth.value))
  }

  /** A set as the parser builds it from `n` bytes. */
  ghost predicate Sane(o: OptInfo, n: nat) {
    && SaneIas(o.iana, NA) && SaneIas(o.iapd, PD)
    && SaneNums(o.reqopts, n) && SaneAddrs(o.addrs, n) && SaneBytes(o) && SaneRest(o)
  }

  // ---- one option --------------------------------------------------------

  lemma {:induction false} NumsSound(have: seq<uint16>, d: seq<byte>, n: nat)
    requires SaneNums(have, n)
    ensures SaneNums(AddNums(have, d), n + |d|)
    decreases |d|
  {
    hide Rd16;
    if |d| < 2 {
    } else {
      var h := if Rd16(d) in have then have else have + [Rd16(d)];
      NumsSound(h, d[2..], n + 2);
    }
  }

  lemma {:induction false} AddrsSound(have: seq<Addr>, d: seq<byte>, n: nat)
    requires Distinct(have) && 16 * |have| <= n
    ensures var r := AddAddrs(have, d); Distinct(r) && 16 * |r| <= n + |d|
    decreases |d|
  {
    if |d| < 16 {
    } else {
      var h := if d[..16] in have then have else have + [d[..16]];
      AddrsSound(h, d[16..], n + 16);
    }
  }

  lemma {:induction false} IaSubsSound(t: IaType, d: seq<byte>)
    requires 12 <= |d| < 0x1_0000
    ensures var ia := Ia(t, Rd32(d), Rd32(d[4..]), Rd32(d[8..]));
            var sub := CopyIn(CodeOf(ia), d[12..], []);
            sub.Some? ==> WfIa(ListVal(ia, sub.value), t)
  {
    hide WfSubs, CopyIn, Rd32, OutAll, Out;
    var ia := Ia(t, Rd32(d), Rd32(d[4..]), Rd32(d[8..]));
    NothingRead(CodeOf(ia));
    CopyInSound(CodeOf(ia), d[12..], []);
    var sub := CopyIn(CodeOf(ia), d[12..], []);
    if sub.Some? {
      OutLength(ia, sub.value);
    }
  }

  lemma {:induction false} IasPush(l: seq<ListVal>, lv: ListVal, t: IaType)
    requires SaneIas(l, t) && WfIa(lv, t) && !HasMatch(l, lv.val)
    ensures SaneIas(l + [lv], t)
  {
    hide WfIa, Matches;
  }

  // Everything but the IAs is untouched by an IA option.
  lemma {:induction false} IaSound(t: IaType, d: seq<byte>, o: OptInfo)
    requires SaneIas(Ias(o, t), t) && |d| < 0x1_0000
    ensures var r := ApplyIa(t, d, o);
            r.Some? ==> SaneIas(Ias(r.value, t), t) && r.value == WithIas(o, t, Ias(r.value, t))
  {
    hide SaneIas, HasMatch, WfIa, CopyIn, Rd32;
    if |d| >= 12 {
      var ia := Ia(t, Rd32(d), Rd32(d[4..]), Rd32(d[8..]));
      IaSubsSound(t, d);
      var sub := CopyIn(CodeOf(ia), d[12..], []);
      if !HasMatch(Ias(o, t), ia) && sub.Some? {
        IasPush(Ias(o, t), ListVal(ia, sub.value), t);
      }
    }
  }

  lemma {:induction false} AuthSound(d: seq<byte>, o: OptInfo, pos: nat)
    requires |d| < 0x1_0000
    ensures var r := ApplyAuth(d, o, pos);
            r.Some? ==> r.value == o.(auth := r.value.auth) && r.value.auth.Some? && WfAuth(r.value.auth.value)
  {
    hide Rd32;
  }

  lemma {:induction false} AddrSound(i: nat, d: seq<byte>, o: OptInfo, n: nat)
    requires i < 6 && SaneAddrs(o.addrs, n)
    ensures var r := ApplyAddr(i, d, o);
            r.Some? ==> SaneAddrs(r.value.addrs, n + |d|) && r.value == o.(addrs := r.value.addrs)
  {
    hide AddAddrs, Distinct;
    AddrsSound(o.addrs[i], d, n);
  }

  // What one option does to each piece of the set.

  lemma {:induction false} ApplyIasSound(code: uint16, d: seq<byte>, o: OptInfo, pos: nat)
    requires SaneIas(o.iana, NA) && SaneIas(o.iapd, PD) && |d| < 0x1_0000
    ensures var r := Apply(code, d, o, pos);
            r.Some? ==> SaneIas(r.value.iana, NA) && SaneIas(r.value.iapd, PD)
  {
    hide SaneIas, ApplyIa, AddNums, AddAddrs, DecodeAll, Rd16, Rd32, NameIndex, AddrIndex;
    IaSound(NA, d, o);
    IaSound(PD, d, o);
  }

  lemma {:induction false} ApplyListsSound(code: uint16, d: seq<byte>, o: OptInfo, pos: nat, n: nat)
    requires SaneNums(o.reqopts, n) && SaneAddrs(o.addrs, n)
    ensures var r := Apply(code, d, o, pos);
            r.Some? ==> SaneNums(r.value.reqopts, n + |d|) && SaneAddrs(r.value.addrs, n + |d|)
  {
    hide SaneNums, SaneAddrs, ApplyAddr, AddNums, DecodeAll, CopyIn, Rd16, Rd32, NameIndex, AddrIndex, HasMatch;
    NumsSound(o.reqopts, d, n);
    WiderLists(o, n, n + |d|);
    if AddrIndex(code) >= 0 {
      AddrSound(AddrIndex(code), d, o, n);
    }
  }

  lemma {:induction false} WiderLists(o: OptInfo, n: nat, m: nat)
    requires SaneNums(o.reqopts, n) && SaneAddrs(o.addrs, n) && n <= m
    ensures SaneNums(o.reqopts, m) && SaneAddrs(o.addrs, m)
  {
    hide Distinct;
  }

  lemma {:induction false} ApplyBytesSound(code: uint16, d: seq<byte>, o: OptInfo, pos: nat)
    requires SaneBytes(o) && |d| < 0x1_0000
    ensures var r := Apply(code, d, o, pos); r.Some? ==> SaneBytes(r.value)
  {
    hide AddNums, AddAddrs, DecodeAll, CopyIn, Rd16, Rd32, NameIndex, AddrIndex, HasMatch;
  }

  lemma {:induction false} ApplyRestSound(code: uint16, d: seq<byte>, o: OptInfo, pos: nat)
    requires SaneRest(o) && |d| < 0x1_0000
    ensures var r := Apply(code, d, o, pos); r.Some? ==> SaneRest(r.value)
  {
    hide AddNums, AddAddrs, DecodeAll, CopyIn, Rd16, Rd32, NameIndex, AddrIndex, HasMatch, ApplyAuth, WfAuth;
    AuthSound(d, o, pos);
  }

  lemma {:induction false} ApplySound(code: uint16, d: seq<byte>, o: OptInfo, pos: nat, n: nat)
    requires Sane(o, n) && |d| < 0x1_0000
    ensures var r := Apply(code, d, o, pos); r.Some? ==> Sane(r.value, n + |d|)
  {
    hide SaneIas, SaneNums, SaneAddrs, SaneBytes, SaneRest, Apply;
    ApplyIasSound(code, d, o, pos);
    ApplyListsSound(code, d, o, pos, n);
    ApplyBytesSound(code, d, o, pos);
    ApplyRestSound(code, d, o, pos);
  }

  lemma {:induction false} Wider(o: OptInfo, n: nat, m: nat)
    requires Sane(o, n) && n <= m
    ensures Sane(o, m)
  {
    hide SaneIas, SaneNums, SaneAddrs, SaneBytes, SaneRest;
    WiderLists(o, n, m);
  }

  /** dhcp6_get_options on any bytes: whatever it returns holds well-formed IAs, no two
      with one identifier, no value twice in a list of numbers or addresses, a refresh
      time of at least ten minutes and at most one complete authentication option. */
  lemma {:induction false} ParseSound(b: seq<byte>, o: OptInfo, pos: nat, n: nat)
    requires Sane(o, n)
    ensures var r := Parse(b, o, pos); r.Some? ==> Sane(r.value, n + |b|)
    decreases |b|
  {
    hide Sane, Apply, Code, Len;
    if |b| < 4 {
      Wider(o, n, n + |b|);
    } else if Len(b) > |b| - 4 {
    } else {
      var d, rest := b[4..4 + Len(b)], b[4 + Len(b)..];
      ApplySound(Code(b), d, o, pos, n);
      var r := Apply(Code(b), d, o, pos);
      if r.Some? {
        ParseSound(rest, r.value, pos + 4 + Len(b), n + |d|);
        var p := Parse(rest, r.value, pos + 4 + Len(b));
        if p.Some? {
          Wider(p.value, n + |d| + |rest|, n + |b|);
        }
      }
    }
  }

  lemma {:induction false} EmptyIsSane()
    ensures Sane(EMPTY, 0)
  {
  }

  // ---- the place of the MAC ----------------------------------------------

  // Whatever MAC was located lies within the first `n` bytes of the options.
  predicate MacWithin(o: OptInfo, n: nat) {
    o.auth.Some? && o.auth.value.info.Some? ==> o.auth.value.info.value.offset + 16 <= n
  }

  lemma {:induction false} ApplyMacWithin(code: uint16, d: seq<byte>, o: OptInfo, pos: nat)
    requires MacWithin(o, pos)
    ensures var r := Apply(code, d, o, pos); r.Some? ==> MacWithin(r.value, pos + 4 + |d|)
  {
    hide AddNums, AddAddrs, DecodeAll, CopyIn, Rd16, Rd32, NameIndex, AddrIndex, HasMatch;
  }

  /** In any bytes the parser accepts, the MAC it locates lies inside them. */
  lemma {:induction false} MacInside(b: seq<byte>, o: OptInfo, pos: nat)
    requires MacWithin(o, pos)
    ensures var r := Parse(b, o, pos); r.Some? ==> MacWithin(r.value, pos + |b|)
    decreases |b|
  {
    hide Apply, Code, Len;
    if |b| < 4 || Len(b) > |b| - 4 {
    } else {
      var d, rest := b[4..4 + Len(b)], b[4 + Len(b)..];
      ApplyMacWithin(Code(b), d, o, pos);
      var r := Apply(Code(b), d, o, pos);
      if r.Some? {
        MacInside(rest, r.value, pos + 4 + Len(b));
      }
    }
  }

  // ---- written again -----------------------------------------------------

  lemma {:induction false} SaneIsWf(o: OptInfo, n: nat)
    requires Sane(o, n) && n < 0x1_0000
    ensures Wf(o) <==> forall i :: 0 <= i < 5 ==> WfNames(o.names[i])
  {
    hide WfIas, Unmatched, Distinct, WfNames, WfAuth;
  }

  /** A message parsed, written and parsed again: provided its domain names are host
      names the encoder accepts, everything comes back.  Only the names may change,
      to their canonical form, and an empty relayed message is lost. */
  lemma {:induction false} ReadWrittenRead(b: seq<byte>, mac: seq<byte>)
    requires |b| < 0x1_0000 && |mac| == 16
    ensures var r := Parse(b, EMPTY, 0);
            r.Some? && (forall i :: 0 <= i < |r.value.names| ==> WfNames(r.value.names[i])) ==>
              var o := r.value;
              && |o.names| == 5
              && Parse(WriteWith(o, mac), EMPTY, 0) ==
                 Some(o.(names := seq(5, i requires 0 <= i < 5 => CanonAll(o.names[i])),
                         relayMsg := if o.relayMsg == Some([]) then None else o.relayMsg,
                         auth := Placed(o.auth, |WriteSlots(o, PLAIN)|)))
  {
    hide Parse, WriteWith, WriteSlots, WfNames, CanonAll, Placed, WfIas, Unmatched, WfAuth, Merge, MergeIas;
    EmptyIsSane();
    ParseSound(b, EMPTY, 0, 0);
    var r := Parse(b, EMPTY, 0);
    if r.Some? && forall i :: 0 <= i < |r.value.names| ==> WfNames(r.value.names[i]) {
      SaneIsWf(r.value, |b|);
      OptionsRoundTrip(r.value, mac);
      SaneSeen(r.value, |b|);
    }
  }

  lemma {:induction false} SaneSeen(o: OptInfo, n: nat)
    requires Sane(o, n)
    ensures Shaped(o)
    ensures Seen(o) == o.(names := seq(5, i requires 0 <= i < 5 => CanonAll(o.names[i])),
                          relayMsg := if o.relayMsg == Some([]) then None else o.relayMsg,
                          auth := Placed(o.auth, |WriteSlots(o, PLAIN)|))
  {
    hide Unmatched, WfIas, WfAuth, WriteSlots, Placed, CanonAll;
    assert [] + o.iana == o.iana && [] + o.iapd == o.iapd && [] + o.reqopts == o.reqopts;
    IasUnmatched([], o.iana);
    IasUnmatched([], o.iapd);
    MergeDistinct([], o.reqopts);
    forall i | 0 <= i < 6 ensures Seen(o).addrs[i] == o.addrs[i] {
      assert [] + o.addrs[i] == o.addrs[i];
      MergeDistinct([], o.addrs[i]);
    }
    assert Seen(o).addrs == o.addrs;
  }
}
