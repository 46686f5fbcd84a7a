/** Relay agents and the server's relay chain (dhcp6relay.c, dhcp6s.c): messages
    wrapped by every relay on the way to the server, and replies that retrace it. */
module Relay {
  import opened Bytes
  import opened Wire
  import opened Names
  import opened Options
  import opened Codec

  const RELAY_FORW: byte := 12
  const RELAY_REPLY: byte := 13
  const HOP_COUNT_LIMIT: byte := 32
  // sizeof(struct dhcp6_relay)
  const RELAY_HEADER: nat := 34

  datatype RelayInfo = RelayInfo(hcnt: byte, link: Addr, peer: Addr, ifid: Option<seq<byte>>)

  function RelayHeader(t: byte, i: RelayInfo): (h: seq<byte>)
    ensures |h| == RELAY_HEADER
  {
    [t, i.hcnt] + i.link + i.peer
  }

  function RelayOptions(i: RelayInfo, msg: seq<byte>): OptInfo {
    EMPTY.(relayMsg := Some(msg), ifid := i.ifid)
  }

  /** A message inside a relay message. */
  function Wrap(t: byte, i: RelayInfo, msg: seq<byte>): (b: seq<byte>)
    ensures |b| >= RELAY_HEADER && b[0] == t && b[1] == i.hcnt
  {
    RelayHeader(t, i) + Write(RelayOptions(i, msg))
  }

  // What the header and the options of a relay message say.
  function InfoOf(b: seq<byte>, o: OptInfo): RelayInfo
    requires |b| >= RELAY_HEADER
  {
    RelayInfo(b[1], b[2..18], b[18..34], o.ifid)
  }

  /** The outermost layer taken off: its information and the message inside. */
  function Peel(b: seq<byte>): (r: Option<(RelayInfo, seq<byte>)>)
    ensures r.Some? ==> HEADER <= |r.value.1| && |r.value.1| + RELAY_HEADER + 4 <= |b|
  {
    if |b| < RELAY_HEADER then None
    else
      var o := Parse(b[RELAY_HEADER..], EMPTY, 0);
      if o.None? || o.value.relayMsg.None? || |o.value.relayMsg.value| < HEADER then None
      else
        RelayedIsInside(b[RELAY_HEADER..], EMPTY, 0);
        Some((InfoOf(b, o.value), o.value.relayMsg.value))
  }

  lemma {:induction false} ApplyRelay(code: uint16, d: seq<byte>, o: OptInfo, pos: nat)
    ensures var r := Apply(code, d, o, pos);
            r.Some? ==> r.value.relayMsg == o.relayMsg || r.value.relayMsg == Some(d)
  {
    hide AddNums, AddAddrs, CopyIn, HasMatch;
  }

  /** A relayed message is a proper part of the message that carries it. */
  lemma {:induction false} RelayedIsInside(b: seq<byte>, o: OptInfo, pos: nat)
    ensures var r := Parse(b, o, pos);
            r.Some? && r.value.relayMsg.Some? ==>
              r.value.relayMsg == o.relayMsg || |r.value.relayMsg.value| + 4 <= |b|
    decreases |b|
  {
    hide Apply, Code, Len;
    if |b| >= 4 && Len(b) <= |b| - 4 {
      var d := b[4..4 + Len(b)];
      var r := Apply(Code(b), d, o, pos);
      if r.Some? {
        ApplyRelay(Code(b), d, o, pos);
        RelayedIsInside(b[4 + Len(b)..], r.value, pos + 4 + Len(b));
      }
    }
  }

  // ---- the server --------------------------------------------------------

  /** process_relayforw: the layers go to the head of the list, so the relay next
      to the client comes first. */
  function Unwrap(b: seq<byte>, have: seq<RelayInfo>): Option<(seq<RelayInfo>, seq<byte>)>
    decreases |b|
  {
    var p := Peel(b);
    if p.None? then None
    else
      var list := [p.value.0] + have;
      if p.value.1[0] != RELAY_FORW then Some((list, p.value.1)) else Unwrap(p.value.1, list)
  }

  /** A message wrapped layer by layer from the list's head on, as in the relay
      loop of server6_send. */
  function WrapAll(t: byte, list: seq<RelayInfo>, msg: seq<byte>): seq<byte>
    decreases |list|
  {
    if list == [] then msg else WrapAll(t, list[1..], Wrap(t, list[0], msg))
  }

  /** The layers of a chain of relay messages, outermost first, and what is inside. */
  function Layers(t: byte, b: seq<byte>): Option<(seq<RelayInfo>, seq<byte>)>
    decreases |b|
  {
    var p := Peel(b);
    if p.None? then None
    else if p.value.1[0] != t then Some(([p.value.0], p.value.1))
    else
      var r := Layers(t, p.value.1);
      if r.None? then None else Some(([p.value.0] + r.value.0, r.value.1))
  }

  function Reversed<T>(s: seq<T>): (r: seq<T>)
    ensures |r| == |s|
  {
    if s == [] then [] else Reversed(s[1..]) + [s[0]]
  }

  /** What the server collects is the chain from the inside out. */
  lemma {:induction false} UnwrapIsLayers(b: seq<byte>, have: seq<RelayInfo>)
    ensures var l := Layers(RELAY_FORW, b);
            Unwrap(b, have) == if l.None? then None else Some((Reversed(l.value.0) + have, l.value.1))
    decreases |b|
  {
    hide Peel;
    var p := Peel(b);
    if p.Some? {
      var i := p.value.0;
      if p.value.1[0] != RELAY_FORW {
        assert Reversed([i]) == [] + [i];
        assert Reversed([i]) + have == [i] + have;
      } else {
        UnwrapIsLayers(p.value.1, [i] + have);
        var r := Layers(RELAY_FORW, p.value.1);
        if r.Some? {
          var rest := r.value.0;
          assert ([i] + rest)[1..] == rest;
          assert Reversed([i] + rest) + have == Reversed(rest) + ([i] + have);
        }
      }
    }
  }

  // Every message of the chain fits the 16-bit length of the option it goes into.
  ghost predicate Fits(t: byte, list: seq<RelayInfo>, msg: seq<byte>)
    decreases |list|
  {
    list != [] ==>
      && HEADER <= |msg| < 0x1_0000 && (list[0].ifid.Some? ==> |list[0].ifid.value| < 0x1_0000)
      && Fits(t, list[1..], Wrap(t, list[0], msg))
  }

  lemma {:induction false} RelayOptionsRead(i: RelayInfo, msg: seq<byte>)
    requires 0 < |msg| < 0x1_0000 && (i.ifid.Some? ==> |i.ifid.value| < 0x1_0000)
    ensures Parse(Write(RelayOptions(i, msg)), EMPTY, 0) == Some(RelayOptions(i, msg))
  {
    hide Parse, WriteWith, WriteSlots;
    var o := RelayOptions(i, msg);
    EmptyLists(o);
    OptionsRoundTrip(o, Zeros(16));
    SeenUnchanged(o);
  }

  lemma {:induction false} EmptyLists(o: OptInfo)
    requires o == EMPTY.(relayMsg := o.relayMsg, ifid := o.ifid)
    requires (o.relayMsg.Some? ==> 0 < |o.relayMsg.value| < 0x1_0000) && (o.ifid.Some? ==> |o.ifid.value| < 0x1_0000)
    ensures Wf(o) && Canonical(o)
  {
    hide WfNames, CanonAll;
    NoNames();
    forall i | 0 <= i < 5 ensures o.names[i] == [] {
    }
    forall i | 0 <= i < 6 ensures o.addrs[i] == [] {
    }
  }

  lemma {:induction false} NoNames()
    ensures WfNames([]) && CanonAll([]) == []
  {
  }

  /** Wrapping and taking the layer off again gives back the layer and the message. */
  lemma {:induction false} PeelWrap(t: byte, i: RelayInfo, msg: seq<byte>)
    requires HEADER <= |msg| < 0x1_0000 && (i.ifid.Some? ==> |i.ifid.value| < 0x1_0000)
    ensures Peel(Wrap(t, i, msg)) == Some((i, msg))
  {
    hide Parse, WriteWith;
    var b := Wrap(t, i, msg);
    assert b[RELAY_HEADER..] == Write(RelayOptions(i, msg));
    RelayOptionsRead(i, msg);
    assert b[2..18] == i.link && b[18..34] == i.peer;
  }

  /** A wrapped message comes apart into the layers it was wrapped in. */
  lemma {:induction false} LayersOfWrapped(t: byte, list: seq<RelayInfo>, msg: seq<byte>)
    requires list != [] && Fits(t, list, msg)
    requires msg[0] != t || Layers(t, msg).Some?
    ensures var inside := if msg[0] != t then ([], msg) else Layers(t, msg).value;
            Layers(t, WrapAll(t, list, msg)) == Some((Reversed(list) + inside.0, inside.1))
    decreases |list|
  {
    hide Peel, Wrap;
    var inside := if msg[0] != t then ([], msg) else Layers(t, msg).value;
    var w := Wrap(t, list[0], msg);
    PeelWrap(t, list[0], msg);
    assert [list[0]] + [] == [list[0]];
    assert Layers(t, w) == Some(([list[0]] + inside.0, inside.1));
    if |list| == 1 {
      assert list[1..] == [] && Reversed(list) == [list[0]];
    } else {
      LayersOfWrapped(t, list[1..], w);
      assert Reversed(list) + inside.0 == Reversed(list[1..]) + ([list[0]] + inside.0);
    }
  }

  lemma {:induction false} ReversedTwice<T>(s: seq<T>)
    ensures Reversed(Reversed(s)) == s
  {
    if s == [] {
    } else {
      ReversedTwice(s[1..]);
      ReversedPush(Reversed(s[1..]), s[0]);
    }
  }

  lemma {:induction false} ReversedPush<T>(s: seq<T>, x: T)
    ensures Reversed(s + [x]) == [x] + Reversed(s)
  {
    if s == [] {
      assert s + [x] == [x];
    } else {
      ReversedPush(s[1..], x);
      assert (s + [x])[1..] == s[1..] + [x];
    }
  }

  /** The server's reply carries, outermost first, the very layers of the message
      it answers, around the reply: for chains of any depth. */
  lemma {:induction false} ReplyRetraces(b: seq<byte>, reply: seq<byte>)
    requires Unwrap(b, []).Some? && Fits(RELAY_REPLY, Unwrap(b, []).value.0, reply)
    requires HEADER <= |reply| && reply[0] != RELAY_REPLY
    ensures Layers(RELAY_FORW, b).Some?
    ensures Layers(RELAY_REPLY, WrapAll(RELAY_REPLY, Unwrap(b, []).value.0, reply))
         == Some((Layers(RELAY_FORW, b).value.0, reply))
  {
    hide Fits, WrapAll;
    UnwrapIsLayers(b, []);
    var l := Layers(RELAY_FORW, b).value.0;
    LayersNonempty(RELAY_FORW, b);
    assert Reversed(l) + [] == Reversed(l);
    LayersOfWrapped(RELAY_REPLY, Reversed(l), reply);
    ReversedTwice(l);
    assert l + [] == l;
  }

  lemma {:induction false} LayersNonempty(t: byte, b: seq<byte>)
    ensures Layers(t, b).Some? ==> Layers(t, b).value.0 != []
  {
  }

  // The chain seen from its outermost layer.
  lemma {:induction false} WrapAllLast(t: byte, list: seq<RelayInfo>, msg: seq<byte>)
    requires list != [] && Fits(t, list, msg)
    ensures var n := |list| - 1;
            var inner := WrapAll(t, list[..n], msg);
            && WrapAll(t, list, msg) == Wrap(t, list[n], inner)
            && HEADER <= |inner| < 0x1_0000 && Fits(t, list[..n], msg)
            && (list[n].ifid.Some? ==> |list[n].ifid.value| < 0x1_0000)
    decreases |list|
  {
    hide Wrap;
    var n := |list| - 1;
    if n == 0 {
      assert list[1..] == [] && list[..0] == [];
    } else {
      WrapAllLast(t, list[1..], Wrap(t, list[0], msg));
      assert list[1..][..n - 1] == list[..n][1..];
    }
  }

  lemma {:induction false} NoNamesToWrite(o: OptInfo)
    requires o == EMPTY.(relayMsg := o.relayMsg, ifid := o.ifid)
    ensures CanWrite(o)
  {
    EncodeNone();
    forall k | 0 <= k < |PLAIN| ensures Encodable(o, PLAIN[k]) {
    }
  }

  method PeelOuter(b: seq<byte>) returns (r: Option<(RelayInfo, seq<byte>)>)
    ensures r == Peel(b)
  {
    hide Parse;
    if |b| < RELAY_HEADER {
      return None;
    }
    var o := GetOptions(b[RELAY_HEADER..]);
    if o.None? || o.value.relayMsg.None? || |o.value.relayMsg.value| < HEADER {
      return None;
    }
    r := Some((InfoOf(b, o.value), o.value.relayMsg.value));
  }

  /** process_relayforw */
  method ProcessRelayForw(b: seq<byte>) returns (r: Option<(seq<RelayInfo>, seq<byte>)>)
    ensures r == Unwrap(b, [])
  {
    hide Peel;
    var list, at := [], b;
    while true
      invariant Unwrap(at, list) == Unwrap(b, [])
      decreases |at|
    {
      var p := PeelOuter(at);
      if p.None? {
        return None;
      }
      list := [p.value.0] + list;
      if p.value.1[0] != RELAY_FORW {
        return Some((list, p.value.1));
      }
      at := p.value.1;
    }
  }

  /** The relay loop of server6_send. */
  method BuildChain(list: seq<RelayInfo>, msg: seq<byte>) returns (b: seq<byte>)
    ensures b == WrapAll(RELAY_REPLY, list, msg)
  {
    hide Wrap, Write;
    b := msg;
    for k := 0 to |list|
      invariant WrapAll(RELAY_REPLY, list[k..], b) == WrapAll(RELAY_REPLY, list, msg)
    {
      var o := RelayOptions(list[k], b);
      NoNamesToWrite(o);
      var opts := SetOptions(o);
      WrapIs(RELAY_REPLY, list[k], b);
      assert list[k..][1..] == list[k + 1..];
      b := RelayHeader(RELAY_REPLY, list[k]) + opts.value.0;
    }
  }

  lemma {:induction false} WrapIs(t: byte, i: RelayInfo, msg: seq<byte>)
    ensures Wrap(t, i, msg) == RelayHeader(t, i) + Write(RelayOptions(i, msg))
  {
  }
}
