/** A signed message from end to end: the four-byte header, the options, and the
    MAC over both (dhcp6c.c, dhcp6s.c). */
module Messages {
  import opened Bytes
  import opened Options
  import opened OptionsSound
  import opened Codec
  import Hmac
  import Md5
  import Replay

  /** The message as client6_send and server6_send build it, before signing. */
  function Unsigned(hdr: seq<byte>, o: OptInfo): seq<byte> {
    hdr + Write(o)
  }

  // The offset handed to dhcp6_calc_mac.
  function MacAt(o: OptInfo): nat
    requires o.auth.Some?
  {
    Offset(o) + HEADER
  }

  lemma {:induction false} MacFits(hdr: seq<byte>, o: OptInfo)
    requires |hdr| == HEADER && Wf(o) && o.auth.Some? && o.auth.value.info.Some?
    ensures var m := Unsigned(hdr, o);
            MacAt(o) + 16 == |m| && m[MacAt(o)..] == Zeros(16)
  {
    hide WriteWith, WfIas, WfNames, WfAuth, Seen, Offset;
    MacStandsLast(o, Zeros(16), Zeros(16));
    assert Unsigned(hdr, o)[MacAt(o)..] == Write(o)[Offset(o)..];
  }

  /** What a receiver makes of a message: its options, if they carry a MAC of the known
      algorithm, inside the message, that is right. */
  function Accepted(f: Md5.Transform, m: seq<byte>, secret: seq<byte>): Option<OptInfo>
    requires |m| >= HEADER
  {
    var o := Parse(m[HEADER..], EMPTY, 0);
    if o.None? || o.value.auth.None? || o.value.auth.value.info.None? then None
    else
      var a := o.value.auth.value;
      var off := a.info.value.offset + HEADER;
      if a.alg == Hmac.HMACMD5 && off + 16 <= |m| && Hmac.Authentic(f, m, off, secret) then o else None
  }

  /** For any bytes at all: they are accepted if and only if their options can be read and
      carry an authenticator of the known algorithm whose sixteen bytes are the HMAC of the
      message with these bytes cleared.  Wherever the options say the MAC is, it lies
      inside the message. */
  lemma {:induction false} ReceivedExactly(f: Md5.Transform, m: seq<byte>, secret: seq<byte>, o: OptInfo)
    requires |m| >= HEADER
    ensures Parse(m[HEADER..], EMPTY, 0) == Some(o) && o.auth.Some? && o.auth.value.info.Some? ==>
              o.auth.value.info.value.offset + HEADER + 16 <= |m|
    ensures Accepted(f, m, secret) == Some(o) <==>
            && Parse(m[HEADER..], EMPTY, 0) == Some(o) && o.auth.Some? && o.auth.value.info.Some?
            && o.auth.value.alg == 1
            && var off := o.auth.value.info.value.offset + HEADER;
               m[off..off + 16] == Hmac.Hmac(f, secret, m[..off] + Zeros(16) + m[off + 16..])
  {
    hide Parse, Hmac.Hmac;
    MacInside(m[HEADER..], EMPTY, 0);
  }

  /** A message signed by its sender carries the MAC where its receiver looks for
      it: the receiver parses the same options as from the unsigned message, with
      the offset the signer used, finds the message authentic, and accepts it if and
      only if its algorithm is the known one. */
  lemma {:induction false} SignedMessage(f: Md5.Transform, hdr: seq<byte>, o: OptInfo, secret: seq<byte>)
    requires |hdr| == HEADER && Wf(o) && o.auth.Some? && o.auth.value.info.Some?
    ensures MacAt(o) + 16 == |Unsigned(hdr, o)|
    ensures var m := Unsigned(hdr, o);
            var s := Hmac.Splice(m, MacAt(o), Hmac.Hmac(f, secret, m));
            && s[..HEADER] == hdr
            && Parse(s[HEADER..], EMPTY, 0) == Some(Seen(o))
            && Seen(o).auth == Some(o.auth.value.(info := Some(o.auth.value.info.value.(offset := Offset(o)))))
            && Hmac.Authentic(f, s, MacAt(o), secret)
            && Accepted(f, s, secret) == if o.auth.value.alg == Hmac.HMACMD5 then Some(Seen(o)) else None
  {
    hide WriteWith, WfIas, WfNames, WfAuth, Seen, Offset, Parse, Hmac.Hmac, Hmac.Authentic;
    var m := Unsigned(hdr, o);
    var mac := Hmac.Hmac(f, secret, m);
    MacFits(hdr, o);
    Hmac.SignedIsAuthentic(f, m, MacAt(o), secret);
    MacStandsLast(o, mac, Zeros(16));
    var b := WriteWith(o, mac);
    assert b == b[..Offset(o)] + b[Offset(o)..];
    assert Hmac.Splice(m, MacAt(o), mac) == hdr + b;
    OptionsRoundTrip(o, mac);
  }

  // A well-formed set can be written.
  lemma {:induction false} WfCanWrite(o: OptInfo)
    requires Wf(o)
    ensures CanWrite(o)
  {
    hide WfIas, WfAuth;
    forall k | 0 <= k < |PLAIN| ensures Encodable(o, PLAIN[k]) {
      if PLAIN[k].NameList? && PLAIN[k].i < |o.names| {
        assert WfNames(o.names[PLAIN[k].i]);
      }
    }
    if o.auth.Some? {
      AuthSupported(o);
    }
  }

  lemma {:induction false} AuthSupported(o: OptInfo)
    requires Wf(o) && o.auth.Some?
    ensures o.auth.value.proto == DELAYED && |o.auth.value.rd| == 8
  {
  }

  /** Building and signing a message (the end of client6_send and of server6_send): it
      is given up when the set names another algorithm. */
  method BuildSigned(f: Md5.Transform, hdr: seq<byte>, o: OptInfo, secret: seq<byte>)
    returns (ok: bool, buf: array<byte>)
    requires |hdr| == HEADER && Wf(o) && o.auth.Some? && o.auth.value.info.Some?
    requires |secret| < TWO32 && |Unsigned(hdr, o)| < TWO32
    ensures fresh(buf) && MacAt(o) + 16 == |Unsigned(hdr, o)|
    ensures ok <==> o.auth.value.alg == Hmac.HMACMD5
    ensures buf[..] == if ok then Hmac.Splice(Unsigned(hdr, o), MacAt(o), Hmac.Hmac(f, secret, Unsigned(hdr, o)))
                       else Unsigned(hdr, o)
  {
    hide WriteWith, WfIas, WfNames, WfAuth, Seen, Offset, CanWrite, Hmac.Hmac, Hmac.Splice;
    WfCanWrite(o);
    AuthSupported(o);
    MacFits(hdr, o);
    var w := SetOptions(o);
    var m := hdr + w.value.0;
    buf := new byte[|m|](i requires 0 <= i < |m| => m[i]);
    assert buf[..] == m;
    OffsetIs(o);
    ok := Hmac.CalcMac(f, buf, o.auth.value.alg, w.value.1.value.info.value.offset + HEADER, secret);
  }

  lemma {:induction false} OffsetIs(o: OptInfo)
    requires o.auth.Some? && o.auth.value.info.Some?
    ensures var p := Placed(o.auth, |WriteSlots(o, PLAIN)|);
            p.Some? && p.value.info.Some? && p.value.info.value.offset == Offset(o)
  {
  }

  /** Parsing a received message and checking its MAC where the parser found it. */
  method Receive(f: Md5.Transform, buf: array<byte>, secret: seq<byte>) returns (r: Option<OptInfo>)
    requires |secret| < TWO32 && HEADER <= buf.Length < TWO32
    modifies buf
    ensures buf[..] == old(buf[..])
    ensures r == Accepted(f, old(buf[..]), secret)
  {
    hide Parse, Hmac.Hmac, Hmac.Authentic;
    assert buf[..][HEADER..] == buf[HEADER..];
    r := GetOptions(buf[HEADER..]);
    if r.None? || r.value.auth.None? || r.value.auth.value.info.None? {
      return None;
    }
    var a := r.value.auth.value;
    var ok := Hmac.VerifyMac(f, buf, a.alg, a.info.value.offset + HEADER, secret);
    if !ok {
      return None;
    }
  }

  /** A client signs with its key: the server accepts the message if and only if its
      counter is ahead of the last one by less than half the circle; and the same bytes
      sent again are refused whatever follows, while the counters accepted since have
      advanced by no more than that. */
  lemma {:induction false} SignedOnceAccepted(f: Md5.Transform, hdr: seq<byte>, o: OptInfo, key: Replay.Key,
                                              m: Replay.Memory, msgs: seq<Replay.AuthMsg>, now: int, later: int)
    requires |hdr| == HEADER && Wf(o) && o.auth.Some? && o.auth.value.info.Some?
    requires var a := o.auth.value;
             && a.alg == Hmac.HMACMD5 && a.rdm == Replay.MONOCOUNTER && |a.rd| == 8
             && a.info.value.keyid == key.id && a.info.value.realm == key.realm
    requires !Replay.Expired(key, now)
    ensures MacAt(o) + 16 == |Unsigned(hdr, o)| && Seen(o).auth.Some? && Seen(o).auth.value.rd == o.auth.value.rd
    ensures var s := Hmac.Splice(Unsigned(hdr, o), MacAt(o), Hmac.Hmac(f, key.secret, Unsigned(hdr, o)));
            var msg := Replay.Message(f, Some(key), false, Seen(o).auth.value, s, now);
            var again := Replay.Message(f, Some(key), false, Seen(o).auth.value, s, later);
            var m1 := Replay.Remember(m, msg);
            && (Replay.Accepts(m, msg) <==>
                  (m.saw ==> 0 < Replay.Ahead(m.prev, Replay.Counter(o.auth.value.rd)) < Replay.HALF))
            && (Replay.Accepts(m, msg) && Replay.Advance(m1, msgs) <= Replay.HALF ==>
                  !Replay.Accepts(Replay.After(m1, msgs), again))
  {
    hide WriteWith, WfIas, WfNames, WfAuth, Offset, Seen, Parse, Hmac.Hmac, Hmac.Authentic, Hmac.Splice, Accepted;
    hide Replay.Counter, Replay.Advance, Replay.After;
    SignedMessage(f, hdr, o, key.secret);
    AuthSupported(o);
    var s := Hmac.Splice(Unsigned(hdr, o), MacAt(o), Hmac.Hmac(f, key.secret, Unsigned(hdr, o)));
    var a := Seen(o).auth.value;
    var msg := Replay.Message(f, Some(key), false, a, s, now);
    assert msg.genuine;
    if Replay.Accepts(m, msg) && Replay.Advance(Replay.Remember(m, msg), msgs) <= Replay.HALF {
      Replay.NoReplay(Replay.Remember(m, msg), msgs, Replay.Message(f, Some(key), false, a, s, later));
    }
  }
}
