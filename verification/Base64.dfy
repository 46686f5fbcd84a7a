/** The strict base64 decoder (base64.c) and the encoding of section 4 of
    RFC 4648 it inverts. */
module Base64 {
  import opened Bytes

  // ---- the alphabet ------------------------------------------------------

  type Digit = v: int | 0 <= v <= 64

  /** The character of a value; 64 stands for the padding sign. */
  function CharOf(v: Digit): (c: char) {
    if v < 26 then ('A' as int + v) as char
    else if v < 52 then ('a' as int + v - 26) as char
    else if v < 62 then ('0' as int + v - 52) as char
    else if v == 62 then '+'
    else if v == 63 then '/'
    else '='
  }

  /** The position of a character in the alphabet, or -1. */
  function ValueOf(c: char): (v: int)
    ensures -1 <= v <= 64
    ensures v >= 0 ==> CharOf(v) == c
  {
    if 'A' <= c <= 'Z' then c as int - 'A' as int
    else if 'a' <= c <= 'z' then c as int - 'a' as int + 26
    else if '0' <= c <= '9' then c as int - '0' as int + 52
    else if c == '+' then 62
    else if c == '/' then 63
    else if c == '=' then 64
    else -1
  }

  lemma {:induction false} ValueOfChar(v: Digit)
    ensures ValueOf(CharOf(v)) == v
  {
  }

  predicate IsSpace(c: char) { c == ' ' || c == '\t' || c == '\n' || c == '\r' }

  function Strip(s: string): string {
    if s == [] then [] else (if IsSpace(s[0]) then [] else [s[0]]) + Strip(s[1..])
  }

  // ---- encoding ----------------------------------------------------------

  function Encode3(a: byte, b: byte, c: byte): string {
    [CharOf(a / 4), CharOf(a % 4 * 16 + b / 16), CharOf(b % 16 * 4 + c / 64), CharOf(c % 64)]
  }

  function Encode2(a: byte, b: byte): string {
    [CharOf(a / 4), CharOf(a % 4 * 16 + b / 16), CharOf(b % 16 * 4), '=']
  }

  function Encode1(a: byte): string {
    [CharOf(a / 4), CharOf(a % 4 * 16), '=', '=']
  }

  /** The canonical encoding of a byte string. */
  function Encode(b: seq<byte>): string {
    if |b| == 0 then []
    else if |b| == 1 then Encode1(b[0])
    else if |b| == 2 then Encode2(b[0], b[1])
    else Encode3(b[0], b[1], b[2]) + Encode(b[3..])
  }

  // ---- decoding, group by group ------------------------------------------

  /** The bytes of four digits, or None where the decoder refuses them. */
  function Group(v0: Digit, v1: Digit, v2: Digit, v3: Digit): Option<seq<byte>> {
    if v0 == 64 || v1 == 64 then None
    else if v2 == 64 && v3 != 64 then None
    else if v2 == 64 && v1 % 16 != 0 then None
    else if v3 == 64 && v2 % 4 != 0 then None
    else if v2 == 64 then Some([v0 * 4 + v1 / 16])
    else if v3 == 64 then Some([v0 * 4 + v1 / 16, v1 % 16 * 16 + v2 / 4])
    else Some([v0 * 4 + v1 / 16, v1 % 16 * 16 + v2 / 4, v2 % 4 * 64 + v3])
  }

  function GroupOf(t: string): (r: Option<seq<byte>>)
    requires |t| == 4
    ensures r.Some? ==> 1 <= |r.value| <= 3
  {
    var v0, v1, v2, v3 := ValueOf(t[0]), ValueOf(t[1]), ValueOf(t[2]), ValueOf(t[3]);
    if v0 < 0 || v1 < 0 || v2 < 0 || v3 < 0 then None else Group(v0, v1, v2, v3)
  }

  function Prepend(b: seq<byte>, r: Option<seq<byte>>): Option<seq<byte>> {
    if r.None? then None else Some(b + r.value)
  }

  /** What decoding a string without white space must give. */
  function Decode(t: string): Option<seq<byte>> {
    if t == [] then Some([])
    else if |t| < 4 then None
    else
      var g := GroupOf(t[..4]);
      if g.None? then None
      else if |g.value| < 3 then (if |t| == 4 then g else None)
      else Prepend(g.value, Decode(t[4..]))
  }

  // ---- Decode accepts the canonical encodings, and nothing else ----------

  // Splitting three bytes into digits and joining them again, and back.
  lemma {:induction false} Join3(a: byte, b: byte, c: byte)
    ensures Group(a / 4, a % 4 * 16 + b / 16, b % 16 * 4 + c / 64, c % 64) == Some([a, b, c])
  {
    JoinBits(a, b);
    JoinBits(b, c);
    assert a / 4 * 4 + a % 4 == a && c / 64 * 64 + c % 64 == c;
  }

  // The digit made of the low bits of one byte and the high bits of the next.
  lemma {:induction false} JoinBits(x: byte, y: byte)
    ensures (x % 4 * 16 + y / 16) / 16 == x % 4 && (x % 4 * 16 + y / 16) % 16 == y / 16
    ensures (x % 16 * 4 + y / 64) / 4 == x % 16 && (x % 16 * 4 + y / 64) % 4 == y / 64
  {
  }

  lemma {:induction false} SplitBits(v: Digit, w: Digit)
    requires v < 64 && w < 64
    ensures (v * 4 + w / 16) / 4 == v && (v * 4 + w / 16) % 4 == w / 16
    ensures (v % 16 * 16 + w / 4) / 16 == v % 16 && (v % 16 * 16 + w / 4) % 16 == w / 4
    ensures (v % 4 * 64 + w) / 64 == v % 4 && (v % 4 * 64 + w) % 64 == w
    ensures v / 16 * 16 + v % 16 == v && v / 4 * 4 + v % 4 == v
  {
  }

  // The bytes of a group determine its digits.
  lemma {:induction false} Unjoin(v0: Digit, v1: Digit, v2: Digit, v3: Digit)
    requires Group(v0, v1, v2, v3).Some?
    ensures var b := Group(v0, v1, v2, v3).value;
            && 1 <= |b| <= 3 && b[0] / 4 == v0
            && (|b| == 1 ==> b[0] % 4 * 16 == v1 && v2 == v3 == 64)
            && (|b| == 2 ==> b[0] % 4 * 16 + b[1] / 16 == v1 && b[1] % 16 * 4 == v2 && v3 == 64)
            && (|b| == 3 ==> b[0] % 4 * 16 + b[1] / 16 == v1 && b[1] % 16 * 4 + b[2] / 64 == v2 && b[2] % 64 == v3)
  {
    SplitBits(v0, v1);
    if v2 < 64 {
      SplitBits(v1, v2);
      if v3 < 64 {
        SplitBits(v2, v3);
      }
    }
  }

  lemma {:induction false} GroupInverts(t: string)
    requires |t| == 4 && GroupOf(t).Some?
    ensures var b := GroupOf(t).value;
            t == if |b| == 1 then Encode1(b[0]) else if |b| == 2 then Encode2(b[0], b[1]) else Encode3(b[0], b[1], b[2])
  {
    hide ValueOf, CharOf, Group;
    PadChar();
    Unjoin(ValueOf(t[0]), ValueOf(t[1]), ValueOf(t[2]), ValueOf(t[3]));
  }

  lemma {:induction false} PadChar()
    ensures CharOf(64) == '=' && ValueOf('=') == 64
  {
  }

  lemma {:induction false} Encode3Decodes(a: byte, b: byte, c: byte)
    ensures GroupOf(Encode3(a, b, c)) == Some([a, b, c])
  {
    hide ValueOf, CharOf, Group;
    Join3(a, b, c);
    ValueOfChar(a / 4);
    ValueOfChar(a % 4 * 16 + b / 16);
    ValueOfChar(b % 16 * 4 + c / 64);
    ValueOfChar(c % 64);
  }

  lemma {:induction false} Encode2Decodes(a: byte, b: byte)
    ensures GroupOf(Encode2(a, b)) == Some([a, b])
  {
    hide ValueOf, CharOf;
    JoinBits(a, b);
    JoinBits(b, 0);
    PadChar();
    ValueOfChar(a / 4);
    ValueOfChar(a % 4 * 16 + b / 16);
    ValueOfChar(b % 16 * 4);
  }

  lemma {:induction false} Encode1Decodes(a: byte)
    ensures GroupOf(Encode1(a)) == Some([a])
  {
    hide ValueOf, CharOf;
    JoinBits(a, 0);
    PadChar();
    ValueOfChar(a / 4);
    ValueOfChar(a % 4 * 16);
  }

  lemma {:induction false} DecodeEncode(b: seq<byte>)
    ensures Decode(Encode(b)) == Some(b)
  {
    hide GroupOf;
    if |b| == 0 {
    } else if |b| == 1 {
      Encode1Decodes(b[0]);
      FirstGroup(Encode1(b[0]), []);
      assert Encode(b) == Encode1(b[0]) + [] && b == [b[0]];
    } else if |b| == 2 {
      Encode2Decodes(b[0], b[1]);
      FirstGroup(Encode2(b[0], b[1]), []);
      assert Encode(b) == Encode2(b[0], b[1]) + [] && b == [b[0], b[1]];
    } else {
      Encode3Decodes(b[0], b[1], b[2]);
      FirstGroup(Encode3(b[0], b[1], b[2]), Encode(b[3..]));
      DecodeEncode(b[3..]);
      assert b == [b[0], b[1], b[2]] + b[3..];
    }
  }

  lemma {:induction false} DecodeIsCanonical(t: string)
    requires Decode(t).Some?
    ensures t == Encode(Decode(t).value)
  {
    hide GroupOf, Encode1, Encode2, Encode3;
    if t == [] {
    } else {
      GroupInverts(t[..4]);
      var g := GroupOf(t[..4]).value;
      if |g| == 3 {
        DecodeIsCanonical(t[4..]);
        var b := Decode(t).value;
        assert b[3..] == Decode(t[4..]).value;
        assert t == t[..4] + t[4..];
      } else {
        assert t[..4] == t;
      }
    }
  }

  /** A string decodes to `b` exactly when it is the canonical encoding of `b`. */
  lemma {:induction false} CanonicalOnly(t: string, b: seq<byte>)
    ensures Decode(t) == Some(b) <==> t == Encode(b)
  {
    DecodeEncode(b);
    if Decode(t).Some? {
      DecodeIsCanonical(t);
    }
  }

  // ---- the decoding loop -------------------------------------------------

  // The result the caller gets from a buffer of `cap` bytes: mem_tobuffer keeps
  // one byte free, so a non-empty result must be shorter than the buffer.
  function Limit(r: Option<seq<byte>>, cap: nat): Option<seq<byte>> {
    if r.Some? && (r.value == [] || |r.value| < cap) then r else None
  }

  // What the characters still to come must yield, given the digits buffered.
  function Rest(seenEnd: bool, digits: string, rest: string): Option<seq<byte>> {
    if !seenEnd then Decode(digits + rest) else if digits + rest == [] then Some([]) else None
  }

  /** base64_decode_ctx_t */
  class DecodeCtx {
    var digits: string
    var seenEnd: bool
    var dst: seq<byte>
    const cap: nat

    constructor (cap: nat)
      ensures digits == [] && !seenEnd && dst == [] && this.cap == cap
    {
      digits, seenEnd, dst := [], false, [];
      this.cap := cap;
    }

    ghost predicate Valid()
      reads this
    {
      && |digits| < 4 && (seenEnd ==> digits == [])
      && (dst == [] || |dst| < cap)
    }

    /** base64_decode_char: a character refused makes the whole string fail. */
    method DecodeChar(c: char, ghost rest: string) returns (ok: bool)
      requires Valid()
      modifies this
      ensures ok ==> Valid()
      ensures ok ==> Prepend(dst, Rest(seenEnd, digits, rest)) == old(Prepend(dst, Rest(seenEnd, digits, [c] + rest)))
      ensures !ok ==> Limit(old(Prepend(dst, Rest(seenEnd, digits, [c] + rest))), cap) == None
    {
      if seenEnd {
        return false;
      }
      ghost var t := digits + ([c] + rest);
      var v := ValueOf(c);
      if v < 0 {
        BadChar(digits, c, rest);
        return false;
      }
      digits := digits + [c];
      assert t == digits + rest;
      if |digits| == 4 {
        var g := GroupOf(digits);
        FirstGroup(digits, rest);
        PrependTwice(dst, g, Decode(rest), rest);
        if g.None? {
          return false;
        }
        if |g.value| != 3 {
          seenEnd := true;
        }
        if |dst| + |g.value| >= cap {
          return false;
        }
        digits := [];
        dst := dst + g.value;
      }
      ok := true;
    }
  }

  lemma {:induction false} BadChar(p: string, c: char, rest: string)
    requires |p| < 4 && ValueOf(c) < 0
    ensures Decode(p + ([c] + rest)) == None
  {
    var t := p + ([c] + rest);
    assert t[|p|] == c;
    if |t| >= 4 {
      assert t[..4][|p|] == c;
    }
  }

  lemma {:induction false} PrependNothing(r: Option<seq<byte>>, t: string)
    ensures Prepend([], r) == r && [] + t == t
    ensures r.Some? ==> r.value + [] == r.value
  {
    assert r.Some? ==> [] + r.value == r.value;
  }

  lemma {:induction false} PrependTwice(b: seq<byte>, g: Option<seq<byte>>, r: Option<seq<byte>>, t: string)
    ensures g.Some? ==> Prepend(b, Prepend(g.value, r)) == Prepend(b + g.value, r) && b + g.value == b + g.value + []
    ensures [] + t == t
  {
    assert g.Some? && r.Some? ==> b + (g.value + r.value) == b + g.value + r.value;
  }

  lemma {:induction false} FirstGroup(g: string, rest: string)
    requires |g| == 4
    ensures Decode(g + rest) == if GroupOf(g).None? then None
                                else if |GroupOf(g).value| < 3 then (if rest == [] then GroupOf(g) else None)
                                else Prepend(GroupOf(g).value, Decode(rest))
  {
    assert (g + rest)[..4] == g && (g + rest)[4..] == rest;
  }

  /** base64_decodestring: the string, white space aside, is accepted exactly when
      it decodes and the result fits. */
  method DecodeString(s: string, cap: nat) returns (r: Option<seq<byte>>)
    ensures r == Limit(Decode(Strip(s)), cap)
  {
    var ctx := new DecodeCtx(cap);
    ghost var goal := Decode(Strip(s));
    PrependNothing(goal, Strip(s));
    assert s[0..] == s;
    for i := 0 to |s|
      invariant fresh(ctx) && ctx.Valid() && ctx.cap == cap
      invariant Prepend(ctx.dst, Rest(ctx.seenEnd, ctx.digits, Strip(s[i..]))) == goal
    {
      assert s[i..][1..] == s[i + 1..];
      PrependNothing(None, Strip(s[i + 1..]));
      if !IsSpace(s[i]) {
        var ok := ctx.DecodeChar(s[i], Strip(s[i + 1..]));
        if !ok {
          return None;
        }
      }
    }
    assert s[|s|..] == [];
    if ctx.digits != [] {
      assert ctx.digits + [] == ctx.digits;
      return None;
    }
    PrependNothing(Some(ctx.dst), []);
    r := Some(ctx.dst);
  }

  /** Both directions at once: `b` comes out exactly when the string, white space
      removed, is the canonical encoding of `b` and `b` fits the buffer. */
  lemma {:induction false} DecodesExactly(s: string, cap: nat, b: seq<byte>)
    ensures Limit(Decode(Strip(s)), cap) == Some(b) <==> Strip(s) == Encode(b) && (b == [] || |b| < cap)
  {
    CanonicalOnly(Strip(s), b);
  }
}
