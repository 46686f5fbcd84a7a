/** HMAC-MD5 (auth.c, RFC 2104), and signing and verifying a message in place. */
module Hmac {
  import opened Bytes
  import opened Md5

  const IPAD: byte := 0x36
  const OPAD: byte := 0x5c
  const HMACMD5: int := 1

  function XorByte(a: byte, b: byte): byte {
    ((a as bv8) ^ (b as bv8)) as byte
  }

  function XorAll(s: seq<byte>, b: byte): (r: seq<byte>)
    ensures |r| == |s|
  {
    seq(|s|, i requires 0 <= i < |s| => XorByte(b, s[i]))
  }

  /** The key as a 64-byte block: zero-filled, hashed first when it is longer. */
  function KeyBlock(f: Transform, key: seq<byte>): (k: seq<byte>)
    ensures |k| == 64
  {
    if |key| <= 64 then key + Zeros(64 - |key|) else Digest(f, key) + Zeros(48)
  }

  /** HMAC of section 2 of RFC 2104. */
  function Hmac(f: Transform, key: seq<byte>, text: seq<byte>): (d: seq<byte>)
    ensures |d| == 16
  {
    var k := KeyBlock(f, key);
    Digest(f, XorAll(k, OPAD) + Digest(f, XorAll(k, IPAD) + text))
  }

  /** hmacmd5_t */
  class HmacContext {
    const f: Transform
    const md5: Context
    const key: seq<byte>
    ghost const secret: seq<byte>

    ghost predicate Valid()
      reads this, md5, md5.inp
    {
      md5.Valid() && md5.f == f && key == KeyBlock(f, secret)
    }

    // The text fed in so far.
    ghost predicate Fed(text: seq<byte>)
      reads this, md5
    {
      md5.msg == XorAll(key, IPAD) + text
    }

    /** hmacmd5_init */
    constructor (f: Transform, secret: seq<byte>)
      requires |secret| < TWO32
      ensures Valid() && fresh(md5) && fresh(md5.inp) && Fed([]) && this.secret == secret && this.f == f
    {
      hide Digest, Context.Valid;
      var k: seq<byte>;
      if |secret| > 64 {
        var c := new Context(f);
        c.Update(secret);
        assert [] + secret == secret;
        var d := c.Final();
        k := d + Zeros(48);
      } else {
        k := secret + Zeros(64 - |secret|);
      }
      var m := new Context(f);
      m.Update(XorAll(k, IPAD));
      this.f, this.md5, this.key, this.secret := f, m, k, secret;
    }

    /** hmacmd5_update */
    method Update(s: seq<byte>, ghost text: seq<byte>)
      requires Valid() && Fed(text) && |s| < TWO32
      modifies md5, md5.inp
      ensures Valid() && Fed(text + s)
    {
      hide Digest, Context.Valid, XorAll, KeyBlock;
      md5.Update(s);
      assert XorAll(key, IPAD) + text + s == XorAll(key, IPAD) + (text + s);
    }

    /** hmacmd5_sign */
    method Sign(ghost text: seq<byte>) returns (digest: seq<byte>)
      requires Valid() && Fed(text)
      modifies md5, md5.inp
      ensures digest == Hmac(f, secret, text)
    {
      hide Digest, Context.Valid;
      digest := md5.Final();
      var outer := new Context(f);
      outer.Update(XorAll(key, OPAD));
      outer.Update(digest);
      assert [] + XorAll(key, OPAD) + digest == XorAll(key, OPAD) + digest;
      digest := outer.Final();
    }
  }

  /** However the text is cut into updates, for keys of any length, the result is HMAC. */
  method HmacOfParts(f: Transform, secret: seq<byte>, parts: seq<seq<byte>>) returns (digest: seq<byte>)
    requires |secret| < TWO32 && forall i :: 0 <= i < |parts| ==> |parts[i]| < TWO32
    ensures digest == Hmac(f, secret, Concat(parts))
  {
    hide Hmac, KeyBlock, XorAll;
    var ctx := new HmacContext(f, secret);
    for i := 0 to |parts|
      invariant fresh(ctx.md5) && fresh(ctx.md5.inp) && ctx.Valid() && ctx.f == f && ctx.secret == secret
      invariant ctx.Fed(Concat(parts[..i]))
    {
      assert parts[..i + 1][..i] == parts[..i];
      ctx.Update(parts[i], Concat(parts[..i]));
    }
    assert parts[..|parts|] == parts;
    digest := ctx.Sign(Concat(parts));
  }

  // ---- the MAC in a message ----------------------------------------------

  /** A message with sixteen bytes from `off` on replaced. */
  function Splice(m: seq<byte>, off: nat, d: seq<byte>): (r: seq<byte>)
    requires |d| == 16 && off + 16 <= |m|
    ensures |r| == |m|
  {
    m[..off] + d + m[off + 16..]
  }

  /** The message with its MAC field cleared. */
  function Cleared(m: seq<byte>, off: nat): seq<byte>
    requires off + 16 <= |m|
  {
    Splice(m, off, Zeros(16))
  }

  method Put(buf: array<byte>, off: nat, d: seq<byte>)
    requires |d| == 16 && off + 16 <= buf.Length
    modifies buf
    ensures buf[..] == Splice(old(buf[..]), off, d)
  {
    forall k | 0 <= k < 16 {
      buf[off + k] := d[k];
    }
  }

  method HmacOf(f: Transform, secret: seq<byte>, m: seq<byte>) returns (digest: seq<byte>)
    requires |secret| < TWO32 && |m| < TWO32
    ensures digest == Hmac(f, secret, m)
  {
    digest := HmacOfParts(f, secret, [m]);
    assert Concat([m]) == m by {
      assert [m][..0] == [] && [] + m == m;
    }
  }

  /** dhcp6_calc_mac: the HMAC of the buffer as it stands goes to `off`. */
  method CalcMac(f: Transform, buf: array<byte>, alg: int, off: nat, secret: seq<byte>) returns (ok: bool)
    requires |secret| < TWO32 && buf.Length < TWO32
    modifies buf
    ensures ok <==> alg == HMACMD5 && off + 16 <= buf.Length
    ensures buf[..] == if ok then Splice(old(buf[..]), off, Hmac(f, secret, old(buf[..]))) else old(buf[..])
  {
    hide *;
    if alg != HMACMD5 || off + 16 > buf.Length {
      return false;
    }
    var digest := HmacOf(f, secret, buf[..]);
    Put(buf, off, digest);
    ok := true;
  }

  /** What a receiver accepts: the field holds the HMAC of the message with the
      field cleared. */
  predicate Authentic(f: Transform, m: seq<byte>, off: nat, secret: seq<byte>)
    requires off + 16 <= |m|
  {
    m[off..off + 16] == Hmac(f, secret, Cleared(m, off))
  }

  /** dhcp6_verify_mac: clears the field, computes, compares, and puts the field
      back, so the buffer is left as it was. */
  method VerifyMac(f: Transform, buf: array<byte>, alg: int, off: nat, secret: seq<byte>) returns (ok: bool)
    requires |secret| < TWO32 && buf.Length < TWO32
    modifies buf
    ensures buf[..] == old(buf[..])
    ensures ok <==> alg == HMACMD5 && off + 16 <= buf.Length && Authentic(f, old(buf[..]), off, secret)
  {
    hide Hmac, Splice;
    if alg != HMACMD5 || off + 16 > buf.Length {
      return false;
    }
    ghost var m := buf[..];
    var digest := buf[off..off + 16];
    Put(buf, off, Zeros(16));
    var newDigest := HmacOf(f, secret, buf[..]);
    ok := digest == newDigest;
    Put(buf, off, digest);
    SpliceBack(m, off);
  }

  lemma {:induction false} SpliceBack(m: seq<byte>, off: nat)
    requires off + 16 <= |m|
    ensures Splice(Cleared(m, off), off, m[off..off + 16]) == m
  {
  }

  /** Signing a message whose MAC field is zero makes it authentic; and for a
      field that was not cleared first it does so only if the HMACs agree. */
  lemma {:induction false} SignedIsAuthentic(f: Transform, m: seq<byte>, off: nat, secret: seq<byte>)
    requires off + 16 <= |m|
    ensures var s := Splice(m, off, Hmac(f, secret, m));
            Authentic(f, s, off, secret) <==> Hmac(f, secret, m) == Hmac(f, secret, Cleared(m, off))
    ensures m[off..off + 16] == Zeros(16) ==> Authentic(f, Splice(m, off, Hmac(f, secret, m)), off, secret)
  {
    hide Hmac;
    var d := Hmac(f, secret, m);
    var s := Splice(m, off, d);
    assert s[off..off + 16] == d;
    assert Cleared(s, off) == Cleared(m, off);
    if m[off..off + 16] == Zeros(16) {
      assert Cleared(m, off) == m by {
        assert m == m[..off] + m[off..off + 16] + m[off + 16..];
      }
    }
  }

  /** The formula of section 2 of RFC 2104, with the pads written out: any two blocks
      that are the key, or its digest if it is longer than a block, zero-filled and
      combined with 0x36 and 0x5c. */
  lemma {:induction false} HmacFormula(f: Transform, key: seq<byte>, text: seq<byte>, inner: seq<byte>,
                                       outer: seq<byte>)
    requires |inner| == |outer| == 64
    requires var k := if |key| <= 64 then key else Digest(f, key);
             forall i :: 0 <= i < 64 ==>
               && inner[i] == XorByte(0x36, if i < |k| then k[i] else 0)
               && outer[i] == XorByte(0x5c, if i < |k| then k[i] else 0)
    ensures Hmac(f, key, text) == Digest(f, outer + Digest(f, inner + text))
  {
    hide Digest, XorByte;
    var b := KeyBlock(f, key);
    assert inner == XorAll(b, IPAD) && outer == XorAll(b, OPAD);
  }
}
