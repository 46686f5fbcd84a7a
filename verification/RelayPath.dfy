/** A message through any number of relay agents to the server, and the reply back
    (dhcp6relay.c). */
module RelayPath {
  import opened Bytes
  import opened Wire
  import opened Options
  import opened Codec
  import opened Relay
  import Pool

  /** One relay agent on the path: the index of the interface the message came in
      on, a global address of that interface if there is one, and the sender. */
  datatype Hop = Hop(ifindex: uint32, link: Option<Addr>, from: Addr)

  // Message types a relay takes from the client side.
  predicate IsUpstream(t: byte) {
    t in {1, 3, 4, 5, 6, 8, 9, 11, RELAY_FORW}
  }

  function HopInfo(h: Hop, msg: seq<byte>): RelayInfo
    requires |msg| >= HEADER
  {
    if msg[0] == RELAY_FORW then RelayInfo((msg[1] as int + 1) % 0x100, UNSPECIFIED, h.from, Some(U32(h.ifindex)))
    else RelayInfo(0, if h.link.Some? then h.link.value else UNSPECIFIED, h.from, Some(U32(h.ifindex)))
  }

  /** relay_to_server */
  function Forward(h: Hop, msg: seq<byte>): (r: Option<seq<byte>>)
    requires |msg| >= HEADER
    ensures r.Some? ==> |r.value| >= HEADER && r.value[0] == RELAY_FORW && r.value[1] <= HOP_COUNT_LIMIT
  {
    if !IsUpstream(msg[0]) then None
    else if msg[0] == RELAY_FORW && msg[1] >= HOP_COUNT_LIMIT then None
    else if msg[0] != RELAY_FORW && h.link.None? then None
    else Some(Wrap(RELAY_FORW, HopInfo(h, msg), msg))
  }

  /** The whole way up: `hops[0]` is next to the client. */
  function ForwardAll(hops: seq<Hop>, msg: seq<byte>): Option<seq<byte>>
    requires |msg| >= HEADER
    decreases |hops|
  {
    if hops == [] then Some(msg)
    else
      var r := Forward(hops[0], msg);
      if r.None? then None else ForwardAll(hops[1..], r.value)
  }

  datatype Delivery = Delivery(ifindex: uint32, peer: Addr, msg: seq<byte>)

  /** relay_to_client: `known` tells which interface indices exist and `byAddr`
      gives the interface of a global address, 0 if there is none. */
  function Back(h: Hop, known: (Hop, uint32) -> bool, byAddr: (Hop, Addr) -> uint32, b: seq<byte>): Option<Delivery> {
    var p := Peel(b);
    if p.None? then None
    else
      var i, msg := p.value.0, p.value.1;
      if i.ifid.Some? && (|i.ifid.value| != 4 || !known(h, Rd32(i.ifid.value))) then None
      else
        var given := if i.ifid.Some? then Rd32(i.ifid.value) else 0;
        var id := if given == 0 && i.link != UNSPECIFIED && !Pool.IsLinkLocal(i.link) then byAddr(h, i.link) else given;
        if id == 0 then None else Some(Delivery(id, i.peer, msg))
  }

  /** The whole way back: the relay next to the server is the first to take a layer
      off.  Gives the interface and the address each relay sends to. */
  function BackAll(hops: seq<Hop>, known: (Hop, uint32) -> bool, byAddr: (Hop, Addr) -> uint32, b: seq<byte>)
    : Option<(seq<(uint32, Addr)>, seq<byte>)>
    decreases |hops|
  {
    if hops == [] then Some(([], b))
    else
      var n := |hops| - 1;
      var d := Back(hops[n], known, byAddr, b);
      if d.None? then None
      else
        var r := BackAll(hops[..n], known, byAddr, d.value.msg);
        if r.None? then None else Some(([(d.value.ifindex, d.value.peer)] + r.value.0, r.value.1))
  }

  /** A relay takes exactly the messages a client or another relay sends, not those a
      server does, the first relay only with a global address and the others only within
      the hop limit. */
  lemma {:induction false} ForwardedExactly(h: Hop, msg: seq<byte>)
    requires |msg| >= HEADER
    ensures Forward(h, msg).Some? <==>
            && 1 <= msg[0] <= RELAY_FORW && msg[0] !in {2, 7, 10}
            && if msg[0] == RELAY_FORW then msg[1] < HOP_COUNT_LIMIT else h.link.Some?
  {
    hide Wrap;
  }

  // The interface the link address of a layer gives, 0 if none.
  function ByLink(h: Hop, byAddr: (Hop, Addr) -> uint32, link: Addr): uint32 {
    if link == UNSPECIFIED || Pool.IsLinkLocal(link) then 0 else byAddr(h, link)
  }

  /** What a relay does with a layer of a reply, whoever built it: an interface identifier
      that is not four bytes long or unknown stops it; a known one other than zero says
      where it goes; otherwise the link address does, if it can. */
  lemma {:induction false} BackDecided(h: Hop, known: (Hop, uint32) -> bool, byAddr: (Hop, Addr) -> uint32, t: byte,
                                       i: RelayInfo, msg: seq<byte>)
    requires HEADER <= |msg| < 0x1_0000 && (i.ifid.Some? ==> |i.ifid.value| < 0x1_0000)
    ensures var r, n := Back(h, known, byAddr, Wrap(t, i, msg)), ByLink(h, byAddr, i.link);
            && (i.ifid.Some? && |i.ifid.value| != 4 ==> r == None)
            && (forall x: uint32 :: i.ifid == Some(U32(x)) ==>
                  && (!known(h, x) ==> r == None)
                  && (known(h, x) && x != 0 ==> r == Some(Delivery(x, i.peer, msg)))
                  && (known(h, x) && x == 0 ==> r == if n == 0 then None else Some(Delivery(n, i.peer, msg))))
            && (i.ifid == None ==> r == if n == 0 then None else Some(Delivery(n, i.peer, msg)))
  {
    hide Wrap, Rd32, U32, Peel;
    PeelWrap(t, i, msg);
    forall x: uint32 | i.ifid == Some(U32(x)) ensures Rd32(U32(x)) == x {
      Rd32U32(x, []);
      assert U32(x) + [] == U32(x);
    }
  }

  // What each relay adds, the one next to the client first.
  function PathInfos(hops: seq<Hop>, msg: seq<byte>): (l: seq<RelayInfo>)
    requires |msg| >= HEADER
    ensures |l| == |hops|
    decreases |hops|
  {
    if hops == [] then []
    else [HopInfo(hops[0], msg)] + PathInfos(hops[1..], Wrap(RELAY_FORW, HopInfo(hops[0], msg), msg))
  }

  lemma {:induction false} PathIsWrapped(hops: seq<Hop>, msg: seq<byte>)
    requires |msg| >= HEADER && ForwardAll(hops, msg).Some?
    ensures ForwardAll(hops, msg).value == WrapAll(RELAY_FORW, PathInfos(hops, msg), msg)
    decreases |hops|
  {
    hide Wrap;
    if hops == [] {
    } else {
      var w := Wrap(RELAY_FORW, HopInfo(hops[0], msg), msg);
      PathIsWrapped(hops[1..], w);
      assert PathInfos(hops, msg)[1..] == PathInfos(hops[1..], w);
    }
  }

  /** Each relay notes where the message came from and on which interface; only the
      one next to the client gives a link address. */
  lemma {:induction false} PathInfoAt(hops: seq<Hop>, msg: seq<byte>, k: nat)
    requires |msg| >= HEADER && k < |hops|
    ensures var i := PathInfos(hops, msg)[k];
            && i.peer == hops[k].from && i.ifid == Some(U32(hops[k].ifindex))
            && i.link == if k == 0 && msg[0] != RELAY_FORW && hops[0].link.Some? then hops[0].link.value
                         else UNSPECIFIED
    decreases |hops|
  {
    hide Wrap;
    if k > 0 {
      PathInfoAt(hops[1..], Wrap(RELAY_FORW, HopInfo(hops[0], msg), msg), k - 1);
    }
  }

  /** A relayed message goes on exactly while its hop count stays below the limit. */
  lemma {:induction false} HopsFrom(hops: seq<Hop>, msg: seq<byte>)
    requires |msg| >= HEADER && msg[0] == RELAY_FORW
    ensures ForwardAll(hops, msg).Some? <==> hops == [] || msg[1] as int + |hops| <= HOP_COUNT_LIMIT
    ensures forall k :: 0 <= k < |hops| && ForwardAll(hops, msg).Some? ==>
              PathInfos(hops, msg)[k].hcnt == msg[1] as int + 1 + k
    decreases |hops|
  {
    hide Wrap;
    if hops != [] && msg[1] < HOP_COUNT_LIMIT {
      HopsFrom(hops[1..], Wrap(RELAY_FORW, HopInfo(hops[0], msg), msg));
    }
  }

  /** A client's message reaches the server exactly when its type may be relayed,
      the first relay has a global address, and there are at most 33 relays; the
      hop counts are then the positions on the path. */
  lemma {:induction false} HopLimit(hops: seq<Hop>, msg: seq<byte>)
    requires |msg| >= HEADER && msg[0] != RELAY_FORW
    ensures ForwardAll(hops, msg).Some? <==>
              hops == [] || (IsUpstream(msg[0]) && hops[0].link.Some? && |hops| <= HOP_COUNT_LIMIT + 1)
    ensures forall k :: 0 <= k < |hops| && ForwardAll(hops, msg).Some? ==> PathInfos(hops, msg)[k].hcnt == k
  {
    hide Wrap;
    if hops != [] && IsUpstream(msg[0]) && hops[0].link.Some? {
      HopsFrom(hops[1..], Wrap(RELAY_FORW, HopInfo(hops[0], msg), msg));
    }
  }

  // Where the relays send the reply, the one next to the server first.
  function Stations(hops: seq<Hop>): seq<(uint32, Addr)> {
    if hops == [] then []
    else [(hops[|hops| - 1].ifindex, hops[|hops| - 1].from)] + Stations(hops[..|hops| - 1])
  }

  lemma {:induction false} BackThrough(hops: seq<Hop>, known: (Hop, uint32) -> bool, byAddr: (Hop, Addr) -> uint32,
                                       list: seq<RelayInfo>, reply: seq<byte>)
    requires |list| == |hops| && Fits(RELAY_REPLY, list, reply)
    requires forall k :: 0 <= k < |hops| ==> hops[k].ifindex != 0 && known(hops[k], hops[k].ifindex)
    requires forall k :: 0 <= k < |hops| ==> list[k].peer == hops[k].from && list[k].ifid == Some(U32(hops[k].ifindex))
    ensures BackAll(hops, known, byAddr, WrapAll(RELAY_REPLY, list, reply)) == Some((Stations(hops), reply))
    decreases |hops|
  {
    if hops == [] {
    } else {
      hide Wrap, Fits, Back, U32;
      var n := |hops| - 1;
      WrapAllLast(RELAY_REPLY, list, reply);
      var inner := WrapAll(RELAY_REPLY, list[..n], reply);
      BackDecided(hops[n], known, byAddr, RELAY_REPLY, list[n], inner);
      BackThrough(hops[..n], known, byAddr, list[..n], reply);
    }
  }

  /** End to end, through any number of relays: the server gets the client's
      message, and its reply leaves every relay on the interface the message came
      in on, for the address it came from, until the client gets the reply. */
  lemma {:induction false} ReplyReachesClient(hops: seq<Hop>, known: (Hop, uint32) -> bool,
                                              byAddr: (Hop, Addr) -> uint32, msg: seq<byte>, reply: seq<byte>)
    requires hops != [] && |msg| >= HEADER && msg[0] != RELAY_FORW && ForwardAll(hops, msg).Some?
    requires forall k :: 0 <= k < |hops| ==> hops[k].ifindex != 0 && known(hops[k], hops[k].ifindex)
    requires Fits(RELAY_FORW, PathInfos(hops, msg), msg) && Fits(RELAY_REPLY, PathInfos(hops, msg), reply)
    ensures var b := ForwardAll(hops, msg).value;
            && Unwrap(b, []) == Some((PathInfos(hops, msg), msg))
            && BackAll(hops, known, byAddr, WrapAll(RELAY_REPLY, PathInfos(hops, msg), reply))
            == Some((Stations(hops), reply))
  {
    hide Fits, WrapAll, PathInfos, Layers, Unwrap;
    var list := PathInfos(hops, msg);
    PathIsWrapped(hops, msg);
    LayersOfWrapped(RELAY_FORW, list, msg);
    UnwrapIsLayers(ForwardAll(hops, msg).value, []);
    assert Reversed(list) + [] == Reversed(list);
    ReversedTwice(list);
    assert list + [] == list;
    forall k | 0 <= k < |hops| ensures list[k].peer == hops[k].from && list[k].ifid == Some(U32(hops[k].ifindex)) {
      PathInfoAt(hops, msg, k);
    }
    BackThrough(hops, known, byAddr, list, reply);
  }

  /** relay_to_server, filling the header of the relay message field by field. */
  method RelayToServer(h: Hop, msg: seq<byte>) returns (r: Option<seq<byte>>)
    requires |msg| >= HEADER
    ensures r == Forward(h, msg)
  {
    hide Wrap, Write, RelayHeader, CanWrite, WriteSlots, U32, IsUpstream;
    if !IsUpstream(msg[0]) {
      return None;
    }
    var o := EMPTY.(relayMsg := Some(msg), ifid := Some(U32(h.ifindex)));
    var hdr := new byte[RELAY_HEADER](_ => 0);
    hdr[0] := RELAY_FORW;
    Fill16(hdr, 18, h.from);
    if h.link.None? && msg[0] != RELAY_FORW {
      return None;
    }
    if msg[0] == RELAY_FORW {
      if msg[1] >= HOP_COUNT_LIMIT {
        return None;
      }
      hdr[1] := msg[1] + 1;
    } else {
      Fill16(hdr, 2, h.link.value);
      hdr[1] := 0;
    }
    var i := HopInfo(h, msg);
    HeaderIs(hdr[..], RELAY_FORW, i);
    NoNamesToWrite(o);
    var opts := SetOptions(o);
    WrapIs(RELAY_FORW, i, msg);
    r := Some(hdr[..] + opts.value.0);
  }

  lemma {:induction false} HeaderIs(b: seq<byte>, t: byte, i: RelayInfo)
    requires |b| == RELAY_HEADER && b[0] == t && b[1] == i.hcnt && b[2..18] == i.link && b[18..34] == i.peer
    ensures b == RelayHeader(t, i)
  {
    assert b == [b[0], b[1]] + b[2..18] + b[18..34];
  }

  method Fill16(buf: array<byte>, at: nat, a: Addr)
    requires at + 16 <= buf.Length
    modifies buf
    ensures buf[at..at + 16] == a
    ensures forall i :: 0 <= i < buf.Length && (i < at || at + 16 <= i) ==> buf[i] == old(buf[i])
  {
    forall k | 0 <= k < 16 {
      buf[at + k] := a[k];
    }
  }
}
