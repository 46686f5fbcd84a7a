/** The reader of sub-options on arbitrary bytes (common.c): whatever a peer sends,
    what is taken over is well-formed. */
module WireSound {
  import opened Bytes
  import opened ListVals
  import opened Wire

  // Whatever is read is of a kind that may stand there, with its padding bits clear.
  lemma {:induction false} ReadAllowed(ctx: uint16, code: uint16, d: seq<byte>)
    ensures var r := ReadHead(ctx, code, d);
            r.Got? ==>
              && Allowed(ctx, r.val) && CodeOf(r.val) == code && |Head(r.val)| <= r.head
              && (r.val.StCode? ==> r.head == |d|)
  {
    hide Rd32, Rd16, Masked;
    if code == IA_PD_PREFIX && ctx == IA_PD && |d| >= 25 && d[8] <= 128 {
      MaskedTwice(d[9..25], d[8]);
    }
  }

  lemma {:induction false} OutLength(v: Value, sub: seq<ListVal>)
    ensures |Out(ListVal(v, sub))| == 4 + |Head(v)| + |OutAll(sub)|
  {
    hide Head, OutAll;
  }

  lemma {:induction false} OutAllPush(list: seq<ListVal>, lv: ListVal)
    ensures OutAll(list + [lv]) == OutAll(list) + Out(lv)
    decreases |list|
  {
    hide Out;
    if list == [] {
      assert [] + [lv] == [lv] && [lv][1..] == [];
      assert Out(lv) + [] == Out(lv);
    } else {
      OutAllPush(list[1..], lv);
      assert (list + [lv])[1..] == list[1..] + [lv];
    }
  }

  lemma {:induction false} PushKeeps(ctx: uint16, list: seq<ListVal>, lv: ListVal)
    requires WfSubs(ctx, list) && WfSub(ctx, lv) && !HasMatch(list, lv.val)
    ensures WfSubs(ctx, list + [lv])
  {
    hide WfSub, Matches;
  }

  lemma {:induction false} SubReads(ctx: uint16, code: uint16, d: seq<byte>, sub: seq<ListVal>)
    requires |d| < 0x1_0000 && ReadHead(ctx, code, d).Got?
    requires WfSubs(code, sub) && |OutAll(sub)| <= |d| - ReadHead(ctx, code, d).head
    requires ReadHead(ctx, code, d).val.StCode? ==> sub == []
    ensures var lv := ListVal(ReadHead(ctx, code, d).val, sub); WfSub(ctx, lv) && |Out(lv)| <= 4 + |d|
  {
    hide ReadHead, Out, OutAll, Allowed, Head;
    var r := ReadHead(ctx, code, d);
    ReadAllowed(ctx, code, d);
    OutLength(r.val, sub);
  }

  /** copyin_option on any bytes: whatever it returns is well-formed at every level, with
      no two equal values side by side, prefixes no longer than 128 bits and their
      padding clear, and takes no more room than the bytes it came from. */
  lemma {:induction false} CopyInSound(ctx: uint16, b: seq<byte>, acc: seq<ListVal>)
    requires WfSubs(ctx, acc)
    ensures var r := CopyIn(ctx, b, acc);
            r.Some? ==> WfSubs(ctx, r.value) && |OutAll(r.value)| <= |OutAll(acc)| + |b|
    decreases |b|
  {
    hide WfSubs, OutAll, ReadHead, HasMatch, Code, Len;
    if |b| < 4 || Len(b) > |b| - 4 {
    } else {
      var d, rest := b[4..4 + Len(b)], b[4 + Len(b)..];
      var h := ReadHead(ctx, Code(b), d);
      match h
      case Bad =>
      case Skip => CopyInSound(ctx, rest, acc);
      case Got(v, n) =>
        if HasMatch(acc, v) {
          CopyInSound(ctx, rest, acc);
        } else {
          NothingRead(Code(b));
          CopyInSound(Code(b), d[n..], []);
          var sub := CopyIn(Code(b), d[n..], []);
          if sub.Some? {
            StatusHasNoSubs(ctx, Code(b), d);
            SubReads(ctx, Code(b), d, sub.value);
            var lv := ListVal(v, sub.value);
            PushKeeps(ctx, acc, lv);
            OutAllPush(acc, lv);
            CopyInSound(ctx, rest, acc + [lv]);
          }
        }
    }
  }

  lemma {:induction false} NothingRead(ctx: uint16)
    ensures WfSubs(ctx, []) && OutAll([]) == []
  {
  }

  lemma {:induction false} StatusHasNoSubs(ctx: uint16, code: uint16, d: seq<byte>)
    ensures var r := ReadHead(ctx, code, d);
            r.Got? && r.val.StCode? ==> CopyIn(code, d[r.head..], []) == Some([])
  {
    ReadAllowed(ctx, code, d);
  }

  /** The padding bits of a received prefix do not matter: it is read as if they had
      been sent clear. */
  lemma {:induction false} PaddingIgnored(p: uint32, l: uint32, a: Addr, n: byte, rest: seq<byte>)
    requires n <= 128
    ensures ReadHead(IA_PD, IA_PD_PREFIX, Head(Prefix(p, l, a, n)) + rest)
         == ReadHead(IA_PD, IA_PD_PREFIX, Head(Prefix(p, l, Masked(a, n), n)) + rest)
         == Got(Prefix(p, l, Masked(a, n), n), 25)
  {
    hide Head, Rd32, Masked;
    PrefixReads(p, l, a, n, rest);
    PrefixReads(p, l, Masked(a, n), n, rest);
    MaskedTwice(a, n);
  }

  // The weight of the lowest bit kept when `bits` of a byte are.
  function Lowest(bits: nat): (w: nat)
    requires bits <= 8
    ensures w > 0
    decreases 8 - bits
  {
    if bits == 8 then 1 else 2 * Lowest(bits + 1)
  }

  /** Masking keeps the leading bits of a byte and clears the others. */
  lemma {:induction false} MaskedBits(b: byte, bits: nat)
    requires bits <= 8
    ensures MaskByte(b, bits) as int == b as int / Lowest(bits) * Lowest(bits)
  {
    assert Lowest(8) == 1 && Lowest(7) == 2 && Lowest(6) == 4;
    assert Lowest(5) == 8 && Lowest(4) == 16 && Lowest(3) == 32;
    assert Lowest(2) == 64 && Lowest(1) == 128 && Lowest(0) == 256;
  }
}
