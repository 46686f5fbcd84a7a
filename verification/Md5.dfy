/** Streaming MD5 (auth.c).  The 64 steps on one block are a parameter; what is
    modelled is buffering, the byte count with its carry, padding and the final
    blocks, against sections 3.1 to 3.5 of RFC 1321. */
module Md5 {
  import opened Bytes

  datatype Words = Words(a: uint32, b: uint32, c: uint32, d: uint32)

  /** The block transform: chaining value and sixteen words to chaining value. */
  type Transform = (Words, seq<uint32>) -> Words

  const INIT: Words := Words(0x67452301, 0xefcdab89, 0x98badcfe, 0x10325476)

  // ---- words and bytes, least significant byte first ---------------------

  function Word(b0: byte, b1: byte, b2: byte, b3: byte): uint32 {
    b0 + 0x100 * b1 + 0x1_0000 * b2 + 0x100_0000 * b3
  }

  function Le32(n: uint32): (b: seq<byte>)
    ensures |b| == 4
  {
    [n % 0x100, n / 0x100 % 0x100, n / 0x100 / 0x100 % 0x100, n / 0x100 / 0x100 / 0x100]
  }

  /** The number of bits in `n` bytes as a 64-bit count, low word first. */
  function CountWords(n: nat): (w: seq<uint32>)
    ensures |w| == 2
  {
    [n * 8 % TWO64 % TWO32, n * 8 % TWO64 / TWO32]
  }

  /** The same count as eight bytes. */
  function CountBytes(n: nat): (b: seq<byte>)
    ensures |b| == 8
  {
    Le32(CountWords(n)[0]) + Le32(CountWords(n)[1])
  }

  function WordsOf(b: seq<byte>): (w: seq<uint32>)
    requires |b| % 4 == 0
    ensures |w| == |b| / 4
  {
    if b == [] then [] else [Word(b[0], b[1], b[2], b[3])] + WordsOf(b[4..])
  }

  lemma {:induction false} WordLe32(n: uint32)
    ensures var b := Le32(n); Word(b[0], b[1], b[2], b[3]) == n
  {
    var q := n / 0x100;
    var p := q / 0x100;
    assert n == q * 0x100 + n % 0x100 && q == p * 0x100 + q % 0x100;
  }

  lemma {:induction false} FirstWord(b: seq<byte>)
    requires |b| % 4 == 0 && b != []
    ensures |b| >= 4 && WordsOf(b) == [Word(b[0], b[1], b[2], b[3])] + WordsOf(b[4..])
  {
  }

  lemma {:induction false} WordsOfAppend(s: seq<byte>, t: seq<byte>)
    requires |s| % 4 == 0 && |t| % 4 == 0
    ensures WordsOf(s + t) == WordsOf(s) + WordsOf(t)
  {
    if s == [] {
      assert s + t == t;
    } else {
      hide Word, WordsOf;
      FirstWord(s);
      FirstWord(s + t);
      assert (s + t)[4..] == s[4..] + t;
      WordsOfAppend(s[4..], t);
    }
  }

  lemma {:induction false} WordsOfLe32(n: uint32)
    ensures WordsOf(Le32(n)) == [n]
  {
    hide Le32;
    WordLe32(n);
    assert Le32(n)[4..] == [];
  }

  // ---- the digest by the book --------------------------------------------

  /** Chain the transform over the 64-byte blocks of `m`. */
  function Fold(f: Transform, m: seq<byte>): Words
    requires |m| % 64 == 0
  {
    if m == [] then INIT else f(Fold(f, m[..|m| - 64]), WordsOf(m[|m| - 64..]))
  }

  /** Zero bytes needed after the 0x80 to leave eight bytes of the last block. */
  function PadZeros(n: nat): (z: nat)
    ensures z < 64 && (n + 1 + z + 8) % 64 == 0
  {
    var c := n % 64;
    if c < 56 then 55 - c else 119 - c
  }

  function Padded(m: seq<byte>): (p: seq<byte>)
    ensures |p| % 64 == 0 && |p| > |m| && p[..|m|] == m
  {
    m + [0x80] + Zeros(PadZeros(|m|)) + CountBytes(|m|)
  }

  function DigestBytes(h: Words): (d: seq<byte>)
    ensures |d| == 16
  {
    Le32(h.a) + Le32(h.b) + Le32(h.c) + Le32(h.d)
  }

  /** The MD5 digest of a message. */
  function Digest(f: Transform, m: seq<byte>): (d: seq<byte>)
    ensures |d| == 16
  {
    DigestBytes(Fold(f, Padded(m)))
  }

  lemma {:induction false} FoldPush(f: Transform, m: seq<byte>, block: seq<byte>)
    requires |m| % 64 == 0 && |block| == 64
    ensures Fold(f, m + block) == f(Fold(f, m), WordsOf(block))
  {
    assert (m + block)[..|m|] == m && (m + block)[|m|..] == block;
  }

  // ---- the context -------------------------------------------------------

  // The whole blocks of a message, and the bytes after them.
  function Whole(m: seq<byte>): (w: seq<byte>)
    ensures |w| % 64 == 0
  {
    m[..|m| - |m| % 64]
  }

  function Tail(m: seq<byte>): (t: seq<byte>)
    ensures |t| == |m| % 64
  {
    m[|m| - |m| % 64..]
  }

  lemma {:induction false} TailGrows(m: seq<byte>, s: seq<byte>)
    requires |m| % 64 + |s| < 64
    ensures Whole(m + s) == Whole(m) && Tail(m + s) == Tail(m) + s
  {
    assert |m + s| % 64 == |m| % 64 + |s| by { ModSmall(|m|, |s|); }
  }

  lemma {:induction false} ModSmall(n: nat, k: nat)
    requires n % 64 + k < 64
    ensures (n + k) % 64 == n % 64 + k
  {
  }

  lemma {:induction false} TailFills(m: seq<byte>, s: seq<byte>)
    requires |m| % 64 + |s| == 64
    ensures |m + s| % 64 == 0 && m + s == Whole(m) + (Tail(m) + s)
  {
    assert |m + s| % 64 == 0;
    assert m == Whole(m) + Tail(m);
  }

  function Concat(parts: seq<seq<byte>>): seq<byte> {
    if parts == [] then [] else Concat(parts[..|parts| - 1]) + parts[|parts| - 1]
  }

  /** However a message is cut into updates, the digest is that of the message. */
  method DigestOfParts(f: Transform, parts: seq<seq<byte>>) returns (digest: seq<byte>)
    requires forall i :: 0 <= i < |parts| ==> |parts[i]| < TWO32
    ensures digest == Digest(f, Concat(parts))
  {
    hide Digest;
    var ctx := new Context(f);
    for i := 0 to |parts|
      invariant fresh(ctx) && fresh(ctx.inp) && ctx.Valid() && ctx.f == f && ctx.msg == Concat(parts[..i])
    {
      assert parts[..i + 1][..i] == parts[..i];
      ctx.Update(parts[i]);
    }
    assert parts[..|parts|] == parts;
    digest := ctx.Final();
  }

  /** md5_t */
  class Context {
    const f: Transform
    var buf: Words
    var lo: uint32
    var hi: uint32
    const inp: array<byte>
    // Everything hashed so far.
    ghost var msg: seq<byte>

    // The whole blocks of `m` are hashed and the bytes after them are buffered.
    ghost predicate Buffered(m: seq<byte>)
      reads `buf, inp
    {
      inp.Length == 64 && buf == Fold(f, Whole(m)) && inp[..|m| % 64] == Tail(m)
    }

    // The two count words hold a byte count modulo 2^64.
    ghost predicate Counted(n: nat)
      reads `lo, `hi
    {
      hi * TWO32 + lo == n % TWO64
    }

    ghost predicate Valid()
      reads this, inp
    {
      Buffered(msg) && Counted(|msg|)
    }

    /** md5_init */
    constructor (f: Transform)
      ensures Valid() && fresh(inp) && msg == [] && this.f == f
    {
      this.f := f;
      buf, lo, hi, msg := INIT, 0, 0, [];
      inp := new byte[64](i => 0);
    }

    // memcpy into the block buffer from position `at`.
    method Copy(at: nat, s: seq<byte>)
      requires inp.Length == 64 && at + |s| <= 64
      modifies inp
      ensures inp[..at + |s|] == old(inp[..at]) + s
    {
      forall k | 0 <= k < |s| {
        inp[at + k] := s[k];
      }
    }

    // Complete the block with `s`, then byteSwap and transform.
    method Block(at: nat, s: seq<byte>, ghost done: seq<byte>)
      requires inp.Length == 64 && at + |s| == 64 && |done| % 64 == 0 && buf == Fold(f, done)
      modifies `buf, inp
      ensures buf == Fold(f, done + (old(inp[..at]) + s))
    {
      hide *;
      Copy(at, s);
      assert inp[..] == inp[..64];
      FoldPush(f, done, inp[..]);
      buf := f(buf, WordsOf(inp[..]));
    }

    // The byte count is 64 bits in two words, the low one carrying.
    method AddCount(n: nat, ghost total: nat)
      requires n < TWO32 && Counted(total)
      modifies `lo, `hi
      ensures Counted(total + n)
    {
      CountUp(hi, lo, n, total);
      var t := lo;
      lo := (t + n) % TWO32;
      if lo < t {
        hi := (hi + 1) % TWO32;
      }
    }

    // Bytes standing in the buffer.
    method Used(ghost total: nat) returns (n: nat)
      requires Counted(total)
      ensures n == total % 64
    {
      LowBits(hi, lo, total);
      n := lo % 64;
    }

    // The count of bits as two words.
    method Bits(ghost total: nat) returns (w14: uint32, w15: uint32)
      requires Counted(total)
      ensures [w14, w15] == CountWords(total)
    {
      BitCount(hi, lo, total);
      w14, w15 := lo * 8 % TWO32, (hi * 8 + lo / 0x2000_0000) % TWO32;
    }

    // Hash whole blocks of `s` from position `from` on.
    method Chunks(s: seq<byte>, from: nat, ghost m: seq<byte>) returns (i: nat)
      requires inp.Length == 64 && from <= |s| && (|m| + from) % 64 == 0 && buf == Fold(f, m + s[..from])
      modifies `buf, inp
      ensures from <= i <= |s| && |s| - i < 64 && (|m| + i) % 64 == 0 && buf == Fold(f, m + s[..i])
    {
      hide *;
      i := from;
      while |s| - i >= 64
        invariant from <= i <= |s| && (|m| + i) % 64 == 0 && buf == Fold(f, m + s[..i])
      {
        assert m + s[..i + 64] == m + s[..i] + (inp[..0] + s[i..i + 64]);
        Block(0, s[i..i + 64], m + s[..i]);
        i := i + 64;
      }
    }

    /** md5_update: buffer what does not fill a block, hash what does. */
    method Update(s: seq<byte>)
      requires Valid() && |s| < TWO32
      modifies this, inp
      ensures Valid() && msg == old(msg) + s
    {
      hide Buffered, Counted;
      var used := Used(|msg|);
      AddCount(|s|, |msg|);
      Absorb(used, s, msg);
      msg := msg + s;
    }

    method Absorb(used: nat, s: seq<byte>, ghost m: seq<byte>)
      requires Buffered(m) && used == |m| % 64
      modifies `buf, inp
      ensures Buffered(m + s)
    {
      hide Fold;
      var room := 64 - used;
      if room > |s| {
        TailGrows(m, s);
        Copy(used, s);
        return;
      }
      TailFills(m, s[..room]);
      Block(used, s[..room], Whole(m));
      var i := Chunks(s, room, m);
      Remainder(m, s, i);
      Copy(0, s[i..]);
      assert inp[..0] == [];
    }

    // Everything of the padded message but the bit count: at most one block is
    // hashed, the rest stands in the first 56 bytes of the buffer.
    method Pad(count: nat, ghost m: seq<byte>) returns (ghost done: seq<byte>)
      requires Buffered(m) && count == |m| % 64
      modifies `buf, inp
      ensures inp.Length == 64 && |done| % 64 == 0 && buf == Fold(f, done)
      ensures done + (inp[..56] + CountBytes(|m|)) == Padded(m)
    {
      hide Fold, Tail, Whole, Zeros, Padded, CountBytes;
      if count < 56 {
        done := Whole(m);
        OneBlock(m);
        Copy(count, [0x80] + Zeros(55 - count));
      } else {
        done := Whole(m) + (Tail(m) + ([0x80] + Zeros(63 - count)));
        TwoBlocks(m);
        Block(count, [0x80] + Zeros(63 - count), Whole(m));
        Copy(0, Zeros(56));
        assert inp[..56] == Zeros(56);
      }
    }

    /** md5_final: pad, append the bit count, hash the last one or two blocks. */
    method Final() returns (digest: seq<byte>)
      requires Valid()
      modifies this, inp
      ensures digest == Digest(f, old(msg))
    {
      hide *;
      ghost var m := msg;
      ValidParts();
      var count := Used(|m|);
      ghost var done := Pad(count, m);
      var w14, w15 := Bits(|m|);
      LastBlock(f, done, inp[..56], |m|);
      buf := f(buf, WordsOf(inp[..56]) + [w14, w15]);
      DigestIs(f, m, buf);
      digest := DigestBytes(buf);
    }

    lemma {:induction false} ValidParts()
      requires Valid()
      ensures Buffered(msg) && Counted(|msg|)
    {
    }
  }

  lemma {:induction false} DigestIs(f: Transform, m: seq<byte>, h: Words)
    requires h == Fold(f, Padded(m))
    ensures DigestBytes(h) == Digest(f, m)
  {
  }

  lemma {:induction false} OneBlock(m: seq<byte>)
    requires |m| % 64 < 56
    ensures Padded(m) == Whole(m) + (Tail(m) + ([0x80] + Zeros(55 - |m| % 64)) + CountBytes(|m|))
  {
    assert m == Whole(m) + Tail(m);
  }

  lemma {:induction false} TwoBlocks(m: seq<byte>)
    requires |m| % 64 >= 56
    ensures Padded(m) == Whole(m) + (Tail(m) + ([0x80] + Zeros(63 - |m| % 64))) + (Zeros(56) + CountBytes(|m|))
  {
    assert m == Whole(m) + Tail(m);
    assert Zeros(PadZeros(|m|)) == Zeros(63 - |m| % 64) + Zeros(56);
  }

  /** The two words of the shifted byte count are the 64-bit count of bits. */
  lemma {:induction false} BitCount(hi: uint32, lo: uint32, total: nat)
    requires hi * TWO32 + lo == total % TWO64
    ensures [lo * 8 % TWO32, (hi * 8 + lo / 0x2000_0000) % TWO32] == CountWords(total)
  {
    var a, b := lo / 0x2000_0000, lo % 0x2000_0000;
    var c, d := hi / 0x2000_0000, hi % 0x2000_0000;
    ModIs32(a, b * 8, lo * 8);
    ModIs32(c, d * 8 + a, hi * 8 + a);
    ModIs(total / TWO64 * 8 + c, (d * 8 + a) * TWO32 + b * 8, total * 8);
    ModIs32(d * 8 + a, b * 8, (d * 8 + a) * TWO32 + b * 8);
  }

  lemma {:induction false} ModIs32(q: nat, r: nat, n: nat)
    requires r < TWO32 && n == q * TWO32 + r
    ensures n % TWO32 == r && n / TWO32 == q
  {
  }

  /** Writing the count as two words is appending its eight bytes to the block. */
  lemma {:induction false} LastBlock(f: Transform, done: seq<byte>, head: seq<byte>, n: nat)
    requires |done| % 64 == 0 && |head| == 56
    ensures Fold(f, done + (head + CountBytes(n))) == f(Fold(f, done), WordsOf(head) + CountWords(n))
  {
    hide *;
    WordsOfAppend(head, CountBytes(n));
    WordsOfCount(n);
    FoldPush(f, done, head + CountBytes(n));
  }

  lemma {:induction false} WordsOfCount(n: nat)
    ensures WordsOf(CountBytes(n)) == CountWords(n)
  {
    hide Le32, CountWords;
    var w := CountWords(n);
    WordsOfAppend(Le32(w[0]), Le32(w[1]));
    WordsOfLe32(w[0]);
    WordsOfLe32(w[1]);
    assert w == [w[0]] + [w[1]];
  }

  lemma {:induction false} Remainder(m: seq<byte>, s: seq<byte>, i: nat)
    requires i <= |s| && |s| - i < 64 && (|m| + i) % 64 == 0
    ensures Whole(m + s) == m + s[..i] && Tail(m + s) == s[i..] && |m + s| % 64 == |s| - i
  {
    assert m + s == (m + s[..i]) + s[i..];
    TailGrows(m + s[..i], s[i..]);
    assert Whole(m + s[..i]) == m + s[..i] && Tail(m + s[..i]) == [];
  }

  /** Adding to the low word and carrying into the high one adds to the pair. */
  lemma {:induction false} CountUp(hi: uint32, lo: uint32, n: nat, total: nat)
    requires n < TWO32 && hi * TWO32 + lo == total % TWO64
    ensures var lo' := (lo + n) % TWO32;
            var hi' := if lo' < lo then (hi + 1) % TWO32 else hi;
            hi' * TWO32 + lo' == (total + n) % TWO64
  {
    var q := total / TWO64;
    assert total == q * TWO64 + total % TWO64;
    var sum := hi * TWO32 + lo + n;
    if sum < TWO64 {
      ModIs(q, sum, total + n);
    } else {
      ModIs(q + 1, sum - TWO64, total + n);
    }
  }

  lemma {:induction false} ModIs(q: nat, r: nat, n: nat)
    requires r < TWO64 && n == q * TWO64 + r
    ensures n % TWO64 == r
  {
  }

  lemma {:induction false} LowBits(hi: uint32, lo: uint32, total: nat)
    requires hi * TWO32 + lo == total % TWO64
    ensures lo % 64 == total % 64
  {
    ModIs64(total / TWO64 * 0x400_0000_0000_0000 + hi * 0x400_0000 + lo / 64, lo % 64, total);
  }

  lemma {:induction false} ModIs64(q: nat, r: nat, n: nat)
    requires r < 64 && n == q * 64 + r
    ensures n % 64 == r
  {
  }


  // ---- the layout, byte by byte ------------------------------------------

  /** The value of a byte string, least significant byte first. */
  function LeNum(s: seq<byte>): nat {
    if s == [] then 0 else s[0] as int + 256 * LeNum(s[1..])
  }

  lemma {:induction false} LeNumLe32(n: uint32)
    ensures LeNum(Le32(n)) == n
  {
    var b := Le32(n);
    WordLe32(n);
    assert b[1..] == [b[1], b[2], b[3]] && [b[1], b[2], b[3]][1..] == [b[2], b[3]];
    assert [b[2], b[3]][1..] == [b[3]] && [b[3]][1..] == [];
    hide Le32;
    assert LeNum([b[3]]) == b[3] as int;
    assert LeNum([b[2], b[3]]) == b[2] as int + 256 * (b[3] as int);
    assert LeNum([b[1], b[2], b[3]]) == b[1] as int + 256 * (b[2] as int + 256 * (b[3] as int));
  }

  lemma {:induction false} LeNumJoin(s: seq<byte>, t: seq<byte>)
    requires |s| == 4
    ensures LeNum(s + t) == LeNum(s) + TWO32 * LeNum(t)
  {
    var a, b, c, d := s[0] as int, s[1] as int, s[2] as int, s[3] as int;
    assert (s + t)[1..] == s[1..] + t && (s[1..] + t)[1..] == s[2..] + t && (s[2..] + t)[1..] == s[3..] + t;
    assert (s[3..] + t)[1..] == t && s[3..][1..] == [];
    assert s[1..][1..] == s[2..] && s[2..][1..] == s[3..];
    assert LeNum(s[3..] + t) == d + 256 * LeNum(t) && LeNum(s[3..]) == d;
    assert LeNum(s[2..] + t) == c + 256 * (d + 256 * LeNum(t)) && LeNum(s[2..]) == c + 256 * d;
    assert LeNum(s[1..] + t) == b + 256 * (c + 256 * (d + 256 * LeNum(t)));
    assert LeNum(s[1..]) == b + 256 * (c + 256 * d);
  }

  /** The padded message: the message, a byte 0x80, as few zeros as make whole blocks,
      and the number of bits modulo 2^64, least significant byte first. */
  lemma {:induction false} PaddedLayout(m: seq<byte>)
    ensures var p, n := Padded(m), |m|;
            && |p| % 64 == 0 && n + 9 <= |p| <= n + 72
            && p[..n] == m && p[n] == 0x80 && (forall k :: n < k < |p| - 8 ==> p[k] == 0)
            && LeNum(p[|p| - 8..]) == 8 * n % TWO64
  {
    hide LeNum, CountBytes;
    var p := Padded(m);
    assert p[|p| - 8..] == CountBytes(|m|);
    CountIs(|m|);
  }

  lemma {:induction false} CountIs(n: nat)
    ensures LeNum(CountBytes(n)) == 8 * n % TWO64
  {
    hide LeNum, Le32;
    var w := CountWords(n);
    LeNumJoin(Le32(w[0]), Le32(w[1]));
    LeNumLe32(w[0]);
    LeNumLe32(w[1]);
    WordsJoin(n * 8 % TWO64);
  }

  lemma {:induction false} WordsJoin(c: nat)
    ensures c % TWO32 + TWO32 * (c / TWO32) == c
  {
  }

  /** The digest is the four words in order, each least significant byte first. */
  lemma {:induction false} DigestLayout(h: Words)
    ensures var d := DigestBytes(h);
            && LeNum(d[0..4]) == h.a && LeNum(d[4..8]) == h.b && LeNum(d[8..12]) == h.c && LeNum(d[12..16]) == h.d
  {
    hide Le32, LeNum;
    var d := DigestBytes(h);
    assert d[0..4] == Le32(h.a) && d[4..8] == Le32(h.b) && d[8..12] == Le32(h.c) && d[12..16] == Le32(h.d);
    LeNumLe32(h.a);
    LeNumLe32(h.b);
    LeNumLe32(h.c);
    LeNumLe32(h.d);
  }

  lemma {:induction false} WordsOfZeros(n: nat)
    ensures WordsOf(Zeros(4 * n)) == seq(n, i => 0)
  {
    if n == 0 {
    } else {
      WordsOfZeros(n - 1);
      assert Zeros(4 * n)[4..] == Zeros(4 * (n - 1));
      assert [0] + seq(n - 1, i => 0) == seq(n, i => 0);
    }
  }

  /** The digest of the empty message: one block, whose first word is 0x80 and whose
      others are zero, into the initial words of RFC 1321. */
  lemma {:induction false} EmptyDigest(f: Transform)
    ensures Digest(f, []) ==
            DigestBytes(f(Words(0x67452301, 0xefcdab89, 0x98badcfe, 0x10325476), [0x80] + seq(15, i => 0)))
  {
    hide DigestBytes;
    var p := Padded([]);
    PaddedLayout([]);
    assert CountBytes(0) == Zeros(8);
    assert p == [0x80] + Zeros(63);
    assert p == [0x80, 0, 0, 0] + Zeros(60);
    assert WordsOf([0x80, 0, 0, 0]) == [0x80];
    WordsOfAppend([0x80, 0, 0, 0], Zeros(60));
    WordsOfZeros(15);
    assert p[..0] == [] && p[0..] == p;
  }
}
