/** Options on the wire (common.c): headers, IA option trees, and the writer and
    parser of whole option sets. */
module Wire {
  import opened Bytes
  import opened ListVals

  // ---- numbers in network byte order -------------------------------------

  function U16(n: uint16): (b: seq<byte>)
    ensures |b| == 2
  {
    [n / 256, n % 256]
  }

  function U32(n: uint32): (b: seq<byte>)
    ensures |b| == 4
  {
    [n / 256 / 256 / 256, n / 256 / 256 % 256, n / 256 % 256, n % 256]
  }

  function Rd16(b: seq<byte>): uint16
    requires |b| >= 2
  {
    b[0] as int * 256 + b[1] as int
  }

  function Rd32(b: seq<byte>): uint32
    requires |b| >= 4
  {
    b[0] as int * 0x100_0000 + b[1] as int * 0x1_0000 + b[2] as int * 0x100 + b[3] as int
  }

  lemma {:induction false} Rd16U16(n: uint16, rest: seq<byte>)
    ensures Rd16(U16(n) + rest) == n
  {
  }

  lemma {:induction false} Rd32U32(n: uint32, rest: seq<byte>)
    ensures Rd32(U32(n) + rest) == n
  {
    var q := n / 256;
    var p := q / 256;
    assert n == q * 256 + n % 256 && q == p * 256 + q % 256 && p == p / 256 * 256 + p % 256;
  }

  // ---- one option --------------------------------------------------------

  /** An option with its header; the length field holds 16 bits and no more is copied. */
  function Opt(code: uint16, val: seq<byte>): (b: seq<byte>)
    ensures |val| < 0x1_0000 ==> |b| == 4 + |val|
  {
    U16(code) + U16(|val| % 0x1_0000) + val[..|val| % 0x1_0000]
  }

  // The three parts of a byte string that starts with an option.
  function Code(b: seq<byte>): uint16
    requires |b| >= 4
  {
    Rd16(b)
  }

  function Len(b: seq<byte>): uint16
    requires |b| >= 4
  {
    Rd16(b[2..])
  }

  /** A string that starts with a written option reads back as that option. */
  lemma {:induction false} OptReads(code: uint16, val: seq<byte>, rest: seq<byte>)
    requires |val| < 0x1_0000
    ensures var b := Opt(code, val) + rest;
            && |b| >= 4 && Code(b) == code && Len(b) == |val|
            && b[4..4 + |val|] == val && b[4 + |val|..] == rest
  {
    var b := Opt(code, val) + rest;
    Rd16U16(code, b[2..]);
    Rd16U16(|val|, val + rest);
    assert b == U16(code) + b[2..];
    assert b[2..] == U16(|val|) + (val + rest);
  }

  // ---- prefixes ----------------------------------------------------------

  /** The leading `bits` bits of a byte, the others cleared. */
  function MaskByte(b: byte, bits: nat): byte
    requires bits <= 8
  {
    match bits
    case 0 => 0
    case 1 => b / 128 * 128
    case 2 => b / 64 * 64
    case 3 => b / 32 * 32
    case 4 => b / 16 * 16
    case 5 => b / 8 * 8
    case 6 => b / 4 * 4
    case 7 => b / 2 * 2
    case _ => b
  }

  function BitsIn(plen: int, k: nat): (n: nat)
    requires 0 <= plen <= 128
    ensures n <= 8
  {
    if plen >= 8 * k + 8 then 8 else if plen <= 8 * k then 0 else plen - 8 * k
  }

  /** prefix6_mask: the address with everything behind the prefix cleared. */
  function Masked(a: Addr, plen: int): (r: Addr)
    requires 0 <= plen <= 128
    ensures forall k :: 0 <= k < 16 ==> r[k] == MaskByte(a[k], BitsIn(plen, k))
  {
    seq(16, k requires 0 <= k < 16 => MaskByte(a[k], BitsIn(plen, k)))
  }

  lemma {:induction false} MaskedTwice(a: Addr, plen: int)
    requires 0 <= plen <= 128
    ensures Masked(Masked(a, plen), plen) == Masked(a, plen)
  {
    hide MaskByte, BitsIn;
    forall k | 0 <= k < 16 ensures Masked(Masked(a, plen), plen)[k] == Masked(a, plen)[k] {
      MaskByteTwice(a[k], BitsIn(plen, k));
    }
  }

  lemma {:induction false} MaskByteTwice(b: byte, bits: nat)
    requires bits <= 8
    ensures MaskByte(MaskByte(b, bits), bits) == MaskByte(b, bits)
  {
    match bits
    case 1 => DivBack(b / 128, 128);
    case 2 => DivBack(b / 64, 64);
    case 3 => DivBack(b / 32, 32);
    case 4 => DivBack(b / 16, 16);
    case 5 => DivBack(b / 8, 8);
    case 6 => DivBack(b / 4, 4);
    case 7 => DivBack(b / 2, 2);
    case _ =>
  }

  lemma {:induction false} DivBack(q: nat, d: nat)
    requires d > 0
    ensures q * d / d == q
  {
    var r := q * d / d;
    assert q * d == r * d + q * d % d;
    assert r < q ==> (r + 1) * d <= q * d;
    assert r > q ==> (q + 1) * d <= r * d;
  }

  /** prefix6_mask byte by byte: whole bytes first, then the split one, then zeros. */
  method Prefix6Mask(a: Addr, plen: int) returns (r: Addr)
    requires 0 <= plen <= 128
    ensures r == Masked(a, plen)
  {
    var bytes: seq<byte>, left := [], plen;
    while left > 7
      invariant 0 <= left <= plen && plen == left + 8 * |bytes| && |bytes| <= 16
      invariant forall k :: 0 <= k < |bytes| ==> bytes[k] == a[k]
    {
      bytes := bytes + [a[|bytes|]];
      left := left - 8;
    }
    ghost var n := |bytes|;
    if |bytes| < 16 {
      bytes := bytes + [MaskByte(a[|bytes|], left)];
    }
    while |bytes| < 16
      invariant n <= |bytes| <= 16 && (n < 16 ==> n < |bytes| && bytes[n] == MaskByte(a[n], left))
      invariant forall k :: 0 <= k < n ==> bytes[k] == a[k]
      invariant forall k :: n < k < |bytes| ==> bytes[k] == 0
    {
      bytes := bytes + [0];
    }
    r := bytes;
    assert forall k :: 0 <= k < 16 ==> r[k] == Masked(a, plen)[k];
  }

  // ---- IA options and what is inside them --------------------------------

  const STATUS_CODE: uint16 := 13
  const IA_NA: uint16 := 3
  const IAADDR: uint16 := 5
  const IA_PD: uint16 := 25
  const IA_PD_PREFIX: uint16 := 26

  function CodeOf(v: Value): uint16 {
    match v
    case StCode(_) => STATUS_CODE
    case Prefix(_, _, _, _) => IA_PD_PREFIX
    case StatefulAddr(_, _, _) => IAADDR
    case Ia(t, _, _, _) => if t == NA then IA_NA else IA_PD
  }

  /** The fixed part of an option of the tree, behind its header. */
  function Head(v: Value): seq<byte> {
    match v
    case StCode(c) => U16(c)
    case Prefix(p, l, a, n) => U32(p) + U32(l) + [n % 256] + a
    case StatefulAddr(p, l, a) => a + U32(p) + U32(l)
    case Ia(_, id, t1, t2) => U32(id) + U32(t1) + U32(t2)
  }

  /** copyout_option: the option and its sub-options in wire format.  All bytes
      are written even when the length field cannot hold their number. */
  function Out(lv: ListVal): (b: seq<byte>)
    decreases lv, 1
  {
    var body := Head(lv.val) + OutAll(lv.sub);
    U16(CodeOf(lv.val)) + U16(|body| % 0x1_0000) + body
  }

  function OutAll(lvs: seq<ListVal>): seq<byte>
    decreases lvs, 0
  {
    if lvs == [] then [] else Out(lvs[0]) + OutAll(lvs[1..])
  }

  predicate HasMatch(list: seq<ListVal>, v: Value) {
    exists k :: 0 <= k < |list| && Matches(list[k].val, v)
  }

  /** The fixed part read back, for the kinds that may stand inside an option of
      code `ctx`; Skip for a kind that is ignored, Bad for one that is refused. */
  datatype Read = Bad | Skip | Got(val: Value, head: nat)

  function ReadHead(ctx: uint16, code: uint16, d: seq<byte>): (r: Read)
    ensures r.Got? ==> r.head <= |d|
  {
    if code == IA_PD_PREFIX then
      if ctx != IA_PD || |d| < 25 || d[8] > 128 then Bad
      else Got(Prefix(Rd32(d), Rd32(d[4..]), Masked(d[9..25], d[8]), d[8]), 25)
    else if code == IAADDR then
      if ctx != IA_NA || |d| < 24 then Bad
      else Got(StatefulAddr(Rd32(d[16..]), Rd32(d[20..]), d[..16]), 24)
    else if code == STATUS_CODE then
      if ctx != IA_PD && ctx != IA_PD_PREFIX && ctx != IA_NA && ctx != IAADDR then Skip
      else if |d| < 2 then Bad
      else Got(StCode(Rd16(d)), |d|)
    else Skip
  }

  /** copyin_option: the sub-options in `b`, added to `acc`; a value that is there
      already is dropped with everything inside it. */
  function CopyIn(ctx: uint16, b: seq<byte>, acc: seq<ListVal>): Option<seq<ListVal>>
    decreases |b|
  {
    if |b| < 4 then Some(acc)
    else if Len(b) > |b| - 4 then None
    else
      var d, rest := b[4..4 + Len(b)], b[4 + Len(b)..];
      match ReadHead(ctx, Code(b), d)
      case Bad => None
      case Skip => CopyIn(ctx, rest, acc)
      case Got(v, n) =>
        if HasMatch(acc, v) then CopyIn(ctx, rest, acc)
        else
          var sub := CopyIn(Code(b), d[n..], []);
          if sub.None? then None else CopyIn(ctx, rest, acc + [ListVal(v, sub.value)])
  }

  // ---- well-formed trees come back ---------------------------------------

  // What may stand inside an option of code `ctx`.
  predicate Allowed(ctx: uint16, v: Value) {
    match v
    case StCode(_) => ctx == IA_PD || ctx == IA_PD_PREFIX || ctx == IA_NA || ctx == IAADDR
    case Prefix(_, _, a, n) => ctx == IA_PD && 0 <= n <= 128 && Masked(a, n) == a
    case StatefulAddr(_, _, _) => ctx == IA_NA
    case Ia(_, _, _, _) => false
  }

  ghost predicate Unmatched(list: seq<ListVal>) {
    forall j, k :: 0 <= j < k < |list| ==> !Matches(list[j].val, list[k].val)
  }

  /** A well-formed sub-option: allowed where it stands, its length fits 16 bits,
      and what is inside it is well-formed and without repetitions. */
  ghost predicate WfSub(ctx: uint16, lv: ListVal)
    decreases lv, 1
  {
    && Allowed(ctx, lv.val) && |Out(lv)| - 4 < 0x1_0000
    && (lv.val.StCode? ==> lv.sub == [])
    && WfSubs(CodeOf(lv.val), lv.sub)
  }

  ghost predicate WfSubs(ctx: uint16, lvs: seq<ListVal>)
    decreases lvs, 0
  {
    Unmatched(lvs) && forall k :: 0 <= k < |lvs| ==> WfSub(ctx, lvs[k])
  }

  ghost predicate WfEach(ctx: uint16, lvs: seq<ListVal>) {
    forall k :: 0 <= k < |lvs| ==> WfSub(ctx, lvs[k])
  }

  lemma {:induction false} OutReads(lv: ListVal, rest: seq<byte>)
    requires |Out(lv)| - 4 < 0x1_0000
    ensures var b := Out(lv) + rest;
            var body := Head(lv.val) + OutAll(lv.sub);
            && |b| >= 4 && Code(b) == CodeOf(lv.val) && Len(b) == |body|
            && b[4..4 + |body|] == body && b[4 + |body|..] == rest
  {
    var body := Head(lv.val) + OutAll(lv.sub);
    assert body[..|body|] == body;
    OptReads(CodeOf(lv.val), body, rest);
  }

  lemma {:induction false} PrefixReads(p: uint32, l: uint32, a: Addr, n: byte, rest: seq<byte>)
    requires n <= 128
    ensures var d := Head(Prefix(p, l, a, n)) + rest;
            && |d| == 25 + |rest| && Rd32(d) == p && Rd32(d[4..]) == l && d[8] == n && d[9..25] == a && d[25..] == rest
  {
    hide U32, Rd32;
    var d := Head(Prefix(p, l, a, n)) + rest;
    Rd32U32(p, d[4..]);
    Rd32U32(l, d[8..]);
    assert d == U32(p) + d[4..] && d[4..] == U32(l) + d[8..];
    assert d[8..] == [n] + a + rest;
  }

  lemma {:induction false} AddrReads(p: uint32, l: uint32, a: Addr, rest: seq<byte>)
    ensures var d := Head(StatefulAddr(p, l, a)) + rest;
            && |d| == 24 + |rest| && Rd32(d[16..]) == p && Rd32(d[20..]) == l && d[..16] == a && d[24..] == rest
  {
    hide U32, Rd32;
    var d := Head(StatefulAddr(p, l, a)) + rest;
    Rd32U32(p, d[20..]);
    Rd32U32(l, d[24..]);
    assert d[16..] == U32(p) + d[20..] && d[20..] == U32(l) + d[24..];
  }

  /** The fixed part of an allowed value reads back as that value. */
  lemma {:induction false} HeadReads(ctx: uint16, v: Value, rest: seq<byte>)
    requires Allowed(ctx, v) && (v.StCode? ==> rest == [])
    ensures ReadHead(ctx, CodeOf(v), Head(v) + rest) == Got(v, |Head(v)|)
    ensures (Head(v) + rest)[|Head(v)|..] == rest
  {
    hide U32, Rd32, U16, Rd16;
    match v
    case StCode(c) =>
      Rd16U16(c, rest);
    case Prefix(p, l, a, n) =>
      PrefixReads(p, l, a, n, rest);
    case StatefulAddr(p, l, a) =>
      AddrReads(p, l, a, rest);
  }

  /** Parsing the sub-options written for a well-formed list gives the list back,
      behind what was there already, for trees of any size. */
  lemma {:induction false} SubsRoundTrip(ctx: uint16, lvs: seq<ListVal>, acc: seq<ListVal>)
    requires Unmatched(acc + lvs) && WfEach(ctx, lvs)
    ensures CopyIn(ctx, OutAll(lvs), acc) == Some(acc + lvs)
    decreases lvs, 0
  {
    if lvs == [] {
      NoSubs(ctx, acc);
    } else {
      hide *;
      WfFirst(ctx, lvs);
      SubInside(ctx, lvs[0]);
      NoMatchYet(acc, lvs);
      NextSub(ctx, lvs[0], OutAll(lvs[1..]), acc);
      OutAllFirst(lvs);
      Shift(acc, lvs);
      SubsRoundTrip(ctx, lvs[1..], acc + [lvs[0]]);
    }
  }

  lemma {:induction false} NoSubs(ctx: uint16, acc: seq<ListVal>)
    ensures CopyIn(ctx, OutAll([]), acc) == Some(acc + [])
  {
    assert acc + [] == acc;
  }

  lemma {:induction false} Shift(acc: seq<ListVal>, lvs: seq<ListVal>)
    requires lvs != []
    ensures acc + lvs == acc + [lvs[0]] + lvs[1..]
  {
  }

  lemma {:induction false} SubInside(ctx: uint16, lv: ListVal)
    requires WfSub(ctx, lv)
    ensures CopyIn(CodeOf(lv.val), OutAll(lv.sub), []) == Some(lv.sub)
    decreases lv, 1
  {
    hide *;
    WfInside(ctx, lv);
    assert [] + lv.sub == lv.sub;
    SubsRoundTrip(CodeOf(lv.val), lv.sub, []);
  }

  lemma {:induction false} WfInside(ctx: uint16, lv: ListVal)
    requires WfSub(ctx, lv)
    ensures Unmatched(lv.sub) && WfEach(CodeOf(lv.val), lv.sub)
  {
  }

  lemma {:induction false} WfFirst(ctx: uint16, lvs: seq<ListVal>)
    requires lvs != [] && WfEach(ctx, lvs)
    ensures WfSub(ctx, lvs[0]) && WfEach(ctx, lvs[1..])
  {
  }

  lemma {:induction false} OutAllFirst(lvs: seq<ListVal>)
    requires lvs != []
    ensures OutAll(lvs) == Out(lvs[0]) + OutAll(lvs[1..])
  {
  }

  lemma {:induction false} NoMatchYet(acc: seq<ListVal>, lvs: seq<ListVal>)
    requires lvs != [] && Unmatched(acc + lvs)
    ensures !HasMatch(acc, lvs[0].val)
  {
    forall k | 0 <= k < |acc| ensures !Matches(acc[k].val, lvs[0].val) {
      assert (acc + lvs)[k] == acc[k] && (acc + lvs)[|acc|] == lvs[0];
    }
  }

  lemma {:induction false} NextSub(ctx: uint16, lv: ListVal, rest: seq<byte>, acc: seq<ListVal>)
    requires WfSub(ctx, lv) && CopyIn(CodeOf(lv.val), OutAll(lv.sub), []) == Some(lv.sub)
    requires !HasMatch(acc, lv.val)
    ensures CopyIn(ctx, Out(lv) + rest, acc) == CopyIn(ctx, rest, acc + [lv])
  {
    hide Head, ReadHead, HasMatch, Allowed;
    OutReads(lv, rest);
    HeadReads(ctx, lv.val, OutAll(lv.sub));
    assert lv == ListVal(lv.val, lv.sub);
  }
}
