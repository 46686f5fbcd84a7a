/** Replay detection (common.c, dhcp6s.c): serial-number arithmetic on 64-bit
    counters, and what it rejects over a whole exchange with one client. */
module Replay {
  import opened Bytes
  import opened Options
  import Hmac
  import Md5

  const HALF: int := 0x8000_0000_0000_0000
  const MONOCOUNTER: int := 0

  /** How far a counter lies ahead of another, going round at 2^64. */
  function Ahead(prev: uint64, cur: uint64): (d: uint64) {
    if cur >= prev then cur - prev else cur - prev + TWO64
  }

  // x ^ 2^63
  function FlipTop(x: uint64): uint64 {
    if x >= HALF then x - HALF else x + HALF
  }

  // The 64-bit value read as a signed number.
  function Signed(x: uint64): int {
    if x >= HALF then x - TWO64 else x
  }

  /** dhcp6_auth_replaycheck, on counters in host order: 0 accepts. */
  function ReplayCheck(method_: int, prev: uint64, cur: uint64): (r: int)
    ensures method_ == MONOCOUNTER ==> (r == 0 <==> 0 < Ahead(prev, cur) < HALF)
    ensures method_ != MONOCOUNTER ==> r == -1
  {
    if method_ != MONOCOUNTER then -1
    else if prev == FlipTop(cur) then 1
    else if Signed(Ahead(prev, cur)) > 0 then 0 else 1
  }

  /** A message with an authentication option, as far as replay protection goes;
      `genuine` sums up the tests of key and MAC. */
  datatype AuthMsg = AuthMsg(solicit: bool, proto: int, alg: int, rdm: int, counter: uint64, genuine: bool)

  /** What the server remembers of a client: its last accepted counter, if any. */
  datatype Memory = Memory(saw: bool, prev: uint64)

  predicate Accepts(m: Memory, msg: AuthMsg) {
    && msg.proto == DELAYED
    && (msg.solicit ||
        (msg.alg == Hmac.HMACMD5 && msg.rdm == MONOCOUNTER && msg.genuine &&
         (m.saw ==> ReplayCheck(msg.rdm, m.prev, msg.counter) == 0)))
  }

  function Remember(m: Memory, msg: AuthMsg): Memory {
    if Accepts(m, msg) && !msg.solicit then Memory(true, msg.counter) else m
  }

  function After(m: Memory, msgs: seq<AuthMsg>): Memory {
    if msgs == [] then m else Remember(After(m, msgs[..|msgs| - 1]), msgs[|msgs| - 1])
  }

  /** The sum of the advances of the counters accepted in a run. */
  function Advance(m: Memory, msgs: seq<AuthMsg>): nat {
    if msgs == [] then 0
    else
      var m1 := After(m, msgs[..|msgs| - 1]);
      var m2 := After(m, msgs);
      Advance(m, msgs[..|msgs| - 1]) + Ahead(m1.prev, m2.prev)
  }

  lemma {:induction false} AdvanceAddsUp(m: Memory, msgs: seq<AuthMsg>)
    requires m.saw
    ensures After(m, msgs).saw && After(m, msgs).prev == (m.prev + Advance(m, msgs)) % TWO64
  {
    if msgs == [] {
    } else {
      AdvanceAddsUp(m, msgs[..|msgs| - 1]);
      hide *;
      AdvanceNext(m, msgs);
      GoRound(m.prev + Advance(m, msgs[..|msgs| - 1]), After(m, msgs).prev);
    }
  }

  lemma {:induction false} AdvanceNext(m: Memory, msgs: seq<AuthMsg>)
    requires msgs != [] && After(m, msgs[..|msgs| - 1]).saw
    ensures After(m, msgs).saw
    ensures Advance(m, msgs)
            == Advance(m, msgs[..|msgs| - 1]) + Ahead(After(m, msgs[..|msgs| - 1]).prev, After(m, msgs).prev)
  {
  }

  lemma {:induction false} GoRound(n: nat, p: uint64)
    ensures (n + Ahead(n % TWO64, p)) % TWO64 == p
  {
    var q := n / TWO64;
    assert n == q * TWO64 + n % TWO64;
    Multiple(if p >= n % TWO64 then q else q + 1, p);
  }

  lemma {:induction false} Multiple(q: nat, p: uint64)
    ensures (q * TWO64 + p) % TWO64 == p
  {
  }

  /** Each accepted message moves the counter forward by less than half the circle. */
  lemma {:induction false} StepAdvance(m: Memory, msg: AuthMsg)
    requires m.saw
    ensures Ahead(m.prev, Remember(m, msg).prev) < HALF
    ensures Ahead(m.prev, Remember(m, msg).prev) > 0 <==> Accepts(m, msg) && !msg.solicit
  {
  }

  /** Counter `v` was accepted and any messages followed.  A later non-Solicit
      message with counter `v` fails the replay check if and only if the counters
      accepted since have advanced, going round, by at most 2^63: the singular
      point is rejected too. */
  lemma {:induction false} ReplayRejected(m: Memory, msgs: seq<AuthMsg>, again: AuthMsg)
    requires m.saw && !again.solicit && again.counter == m.prev
    requires again.proto == DELAYED && again.alg == Hmac.HMACMD5 && again.rdm == MONOCOUNTER && again.genuine
    ensures !Accepts(After(m, msgs), again) <==> Advance(m, msgs) % TWO64 <= HALF
  {
    hide Advance, After;
    AdvanceAddsUp(m, msgs);
    BackBy(m.prev, Advance(m, msgs));
  }

  lemma {:induction false} BackBy(v: uint64, t: nat)
    ensures Ahead((v + t) % TWO64, v) == if t % TWO64 == 0 then 0 else TWO64 - t % TWO64
  {
    var q, r := t / TWO64, t % TWO64;
    assert t == q * TWO64 + r;
    if v + r < TWO64 {
      Multiple(q, v + r);
    } else {
      Multiple(q + 1, v + r - TWO64);
    }
  }

  /** In particular no counter is accepted twice before half the circle is used up. */
  lemma {:induction false} NoReplay(m: Memory, msgs: seq<AuthMsg>, again: AuthMsg)
    requires m.saw && !again.solicit && again.counter == m.prev && Advance(m, msgs) <= HALF
    ensures !Accepts(After(m, msgs), again) && After(m, msgs + [again]) == After(m, msgs)
  {
    hide Advance;
    AdvanceAddsUp(m, msgs);
    BackBy(m.prev, Advance(m, msgs));
    assert (msgs + [again])[..|msgs|] == msgs;
  }

  // ---- the message behind it ---------------------------------------------

  /** struct keyinfo; a key whose `expire` is 0 never expires. */
  datatype Key = Key(id: uint32, realm: seq<byte>, secret: seq<byte>, expire: nat)

  predicate Expired(k: Key, now: int) {
    k.expire != 0 && now > k.expire
  }

  /** The tests of process_auth behind the replay check: the client has a key, the
      message names it and its realm, it has not expired, and the MAC is right. */
  predicate Genuine(f: Md5.Transform, key: Option<Key>, a: Auth, m: seq<byte>, now: int) {
    && key.Some? && a.info.Some?
    && a.info.value.keyid == key.value.id && a.info.value.realm == key.value.realm
    && !Expired(key.value, now) && a.alg == Hmac.HMACMD5
    && a.info.value.offset + HEADER + 16 <= |m|
    && Hmac.Authentic(f, m, a.info.value.offset + HEADER, key.value.secret)
  }

  // The replay detection field is a number in network byte order.
  function Counter(rd: seq<byte>): uint64
    requires |rd| == 8
  {
    NumBound(rd);
    assert Pow256(8) == TWO64;
    Num(rd)
  }

  function Message(f: Md5.Transform, key: Option<Key>, solicit: bool, a: Auth, m: seq<byte>, now: int): AuthMsg
    requires |a.rd| == 8
  {
    AuthMsg(solicit, a.proto, a.alg, a.rdm, Counter(a.rd), Genuine(f, key, a, m, now))
  }

  /** The key and the replay fields of a client's configuration, and process_auth on a
      message that carries an authentication option. */
  class ClientAuth {
    const f: Md5.Transform
    const key: Option<Key>
    var saw: bool
    var prev: uint64

    function Abs(): Memory
      reads this
    {
      Memory(saw, prev)
    }

    constructor (f: Md5.Transform, key: Option<Key>)
      ensures !saw && this.f == f && this.key == key
    {
      this.f, this.key, saw, prev := f, key, false, 0;
    }

    /** The key tests of process_auth; the buffer is left as it was. */
    method CheckKey(a: Auth, buf: array<byte>, now: int) returns (ok: bool)
      requires buf.Length < TWO32 && (key.Some? ==> |key.value.secret| < TWO32)
      modifies buf
      ensures buf[..] == old(buf[..]) && ok == Genuine(f, key, a, old(buf[..]), now)
    {
      hide Hmac.Authentic;
      if key.None? || a.info.None? {
        return false;
      }
      var k, i := key.value, a.info.value;
      if i.keyid != k.id || i.realm != k.realm || (k.expire != 0 && now > k.expire) {
        return false;
      }
      ok := Hmac.VerifyMac(f, buf, a.alg, i.offset + HEADER, k.secret);
    }

    method ProcessAuth(solicit: bool, a: Auth, buf: array<byte>, now: int) returns (ok: bool)
      requires |a.rd| == 8 && buf.Length < TWO32 && (key.Some? ==> |key.value.secret| < TWO32)
      modifies `saw, `prev, buf
      ensures buf[..] == old(buf[..])
      ensures var msg := Message(f, key, solicit, a, old(buf[..]), now);
              ok == Accepts(old(Abs()), msg) && Abs() == Remember(old(Abs()), msg)
    {
      hide Genuine, Counter;
      if a.proto != DELAYED {
        return false;
      }
      var authenticated := false;
      if a.alg == Hmac.HMACMD5 && a.rdm == MONOCOUNTER && key.Some? {
        if solicit {
          authenticated := true;
        } else {
          if !saw || ReplayCheck(a.rdm, prev, Counter(a.rd)) == 0 {
            authenticated := CheckKey(a, buf, now);
          }
        }
      }
      NoKeyIsNotGenuine(f, key, a, buf[..], now);
      if !authenticated {
        return solicit;
      }
      if !solicit {
        saw, prev := true, Counter(a.rd);
      }
      ok := true;
    }
  }

  lemma {:induction false} NoKeyIsNotGenuine(f: Md5.Transform, key: Option<Key>, a: Auth, m: seq<byte>, now: int)
    ensures key.None? ==> !Genuine(f, key, a, m, now)
  {
  }

  /** What it takes to be accepted: a message that is no Solicit is accepted if and only
      if it names the delayed protocol, HMAC-MD5 and the monotonic counter; the client
      has a key, which the message names with its realm and which has not expired; the
      MAC field lies inside the message and holds the HMAC, under that key, of the
      message with the field cleared; and the counter, if one was seen before, is ahead
      by less than half the circle.  So a forged message is refused. */
  lemma {:induction false} AcceptedExactly(m: Memory, f: Md5.Transform, key: Option<Key>, a: Auth, b: seq<byte>,
                                           now: int)
    requires |a.rd| == 8
    ensures Accepts(m, Message(f, key, false, a, b, now)) <==>
              && a.proto == 2 && a.alg == 1 && a.rdm == 0
              && key.Some? && a.info.Some?
              && a.info.value.keyid == key.value.id && a.info.value.realm == key.value.realm
              && (key.value.expire == 0 || now <= key.value.expire)
              && var off := a.info.value.offset + 4;
              && off + 16 <= |b|
              && b[off..off + 16] == Hmac.Hmac(f, key.value.secret, b[..off] + Zeros(16) + b[off + 16..])
              && (m.saw ==> 0 < Ahead(m.prev, Num(a.rd)) < HALF)
  {
    hide Hmac.Hmac, Num;
  }

  /** A Solicit is accepted for its protocol alone, and what is refused or a Solicit
      leaves the memory as it was; anything else accepted is what is remembered. */
  lemma {:induction false} RememberedExactly(m: Memory, f: Md5.Transform, key: Option<Key>, solicit: bool, a: Auth,
                                             b: seq<byte>, now: int)
    requires |a.rd| == 8
    ensures var msg := Message(f, key, solicit, a, b, now);
            && (solicit ==> (Accepts(m, msg) <==> a.proto == 2))
            && (solicit || !Accepts(m, msg) ==> Remember(m, msg) == m)
            && (!solicit && Accepts(m, msg) ==> Remember(m, msg).saw && Remember(m, msg).prev == Num(a.rd))
  {
    hide Hmac.Hmac, Num, Genuine;
  }
}
