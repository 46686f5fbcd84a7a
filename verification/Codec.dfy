/** The loops of the option reader and writer (common.c), each against the
    function that says what it reads or writes. */
module Codec {
  import opened Bytes
  import opened ListVals
  import opened Wire
  import opened Names
  import opened Options

  // ---- reading -----------------------------------------------------------

  method FindMatch(list: seq<ListVal>, v: Value) returns (found: bool)
    ensures found <==> HasMatch(list, v)
  {
    for k := 0 to |list|
      invariant forall j :: 0 <= j < k ==> !Matches(list[j].val, v)
    {
      if Matches(list[k].val, v) {
        return true;
      }
    }
    found := false;
  }

  /** copyin_option */
  method CopyInOption(ctx: uint16, b: seq<byte>, have: seq<ListVal>) returns (r: Option<seq<ListVal>>)
    ensures r == CopyIn(ctx, b, have)
    decreases |b|
  {
    hide HasMatch, ReadHead, Code, Len;
    var list, p := have, 0;
    assert b[0..] == b;
    while p + 4 <= |b|
      invariant 0 <= p <= |b|
      invariant CopyIn(ctx, b[p..], list) == CopyIn(ctx, b, have)
      decreases |b| - p
    {
      var at := b[p..];
      var len := Len(at);
      if len > |at| - 4 {
        return None;
      }
      var d := at[4..4 + len];
      assert at[4 + len..] == b[p + 4 + len..];
      var h := ReadHead(ctx, Code(at), d);
      if h.Bad? {
        return None;
      }
      if h.Got? {
        var dup := FindMatch(list, h.val);
        if !dup {
          var sub := CopyInOption(Code(at), d[h.head..], []);
          if sub.None? {
            return None;
          }
          list := list + [ListVal(h.val, sub.value)];
        }
      }
      p := p + 4 + len;
    }
    r := Some(list);
  }

  method GetNums(d: seq<byte>, have: seq<uint16>) returns (list: seq<uint16>)
    requires |d| % 2 == 0
    ensures list == AddNums(have, d)
  {
    list := have;
    var i := 0;
    assert d[0..] == d;
    while i < |d|
      invariant 0 <= i <= |d| && i % 2 == 0
      invariant AddNums(list, d[i..]) == AddNums(have, d)
    {
      var n := Rd16(d[i..]);
      assert d[i..][2..] == d[i + 2..];
      if n !in list {
        list := list + [n];
      }
      i := i + 2;
    }
  }

  /** dhcp6_get_addr */
  method GetAddr(d: seq<byte>, have: seq<Addr>) returns (r: Option<seq<Addr>>)
    ensures r == if |d| % 16 != 0 || d == [] then None else Some(AddAddrs(have, d))
  {
    if |d| % 16 != 0 || |d| == 0 {
      return None;
    }
    var list: seq<Addr>, i := have, 0;
    assert d[0..] == d;
    while i < |d|
      invariant 0 <= i <= |d| && i % 16 == 0
      invariant AddAddrs(list, d[i..]) == AddAddrs(have, d)
    {
      assert i + 16 <= |d|;
      var a: Addr := d[i..i + 16];
      assert d[i..][..16] == a && d[i..][16..] == d[i + 16..];
      if a !in list {
        list := list + [a];
      }
      i := i + 16;
    }
    r := Some(list);
  }

  method GetIa(t: IaType, d: seq<byte>, o: OptInfo) returns (r: Option<OptInfo>)
    ensures r == ApplyIa(t, d, o)
  {
    hide CopyIn, HasMatch, Rd32;
    if |d| < 12 {
      return None;
    }
    var ia := Ia(t, Rd32(d), Rd32(d[4..]), Rd32(d[8..]));
    var list := Ias(o, t);
    var dup := FindMatch(list, ia);
    if dup {
      return Some(o);
    }
    var sub := CopyInOption(CodeOf(ia), d[12..], []);
    if sub.None? {
      return None;
    }
    var l := list + [ListVal(ia, sub.value)];
    r := Some(if t == NA then o.(iana := l) else o.(iapd := l));
  }

  // Options whose contents are a list or a tree.
  predicate IsList(code: uint16) {
    code == ORO || code == IA_NA || code == IA_PD || NameIndex(code) >= 0 || AddrIndex(code) >= 0
  }

  method GetList(code: uint16, d: seq<byte>, o: OptInfo, pos: nat) returns (r: Option<OptInfo>)
    requires IsList(code) && Shaped(o)
    ensures r == Apply(code, d, o, pos)
  {
    hide AddNums, AddAddrs, DecodeAll, ApplyIa;
    if code == ORO {
      if |d| % 2 != 0 || |d| == 0 {
        return None;
      }
      var l := GetNums(d, o.reqopts);
      return Some(o.(reqopts := l));
    }
    var n, a := NameIndex(code), AddrIndex(code);
    if n >= 0 {
      var l := GetDomain(d);
      return if l.None? then None else Some(o.(names := o.names[n := o.names[n] + l.value]));
    }
    if a >= 0 {
      var l := GetAddr(d, o.addrs[a]);
      return if l.None? then None else Some(o.(addrs := o.addrs[a := l.value]));
    }
    r := GetIa(if code == IA_PD then PD else NA, d, o);
  }

  lemma {:induction false} ApplyKeepsShape(code: uint16, d: seq<byte>, o: OptInfo, pos: nat)
    requires Shaped(o)
    ensures Apply(code, d, o, pos).Some? ==> Shaped(Apply(code, d, o, pos).value)
  {
    hide AddNums, AddAddrs, DecodeAll, CopyIn, HasMatch;
  }

  /** dhcp6_get_options */
  method GetOptions(b: seq<byte>) returns (r: Option<OptInfo>)
    ensures r == Parse(b, EMPTY, 0)
  {
    hide Apply, IsList, Code, Len;
    var o, p := EMPTY, 0;
    assert b[0..] == b;
    while p + 4 <= |b|
      invariant 0 <= p <= |b| && Shaped(o)
      invariant Parse(b[p..], o, p) == Parse(b, EMPTY, 0)
      decreases |b| - p
    {
      var at := b[p..];
      var len := Len(at);
      if len > |at| - 4 {
        return None;
      }
      var d := at[4..4 + len];
      assert at[4 + len..] == b[p + 4 + len..];
      var next;
      if IsList(Code(at)) {
        next := GetList(Code(at), d, o, p);
      } else {
        next := Apply(Code(at), d, o, p);
      }
      if next.None? {
        return None;
      }
      ApplyKeepsShape(Code(at), d, o, p);
      o := next.value;
      p := p + 4 + len;
    }
    r := Some(o);
  }

  // ---- writing -----------------------------------------------------------

  function HeadLen(v: Value): (n: nat)
    ensures n >= 4
  {
    4 + |Head(v)|
  }

  lemma {:induction false} OutAllLast(l: seq<ListVal>, k: nat)
    requires k < |l|
    ensures OutAll(l[..k + 1]) == OutAll(l[..k]) + Out(l[k])
    decreases k
  {
    hide Out;
    if k == 0 {
      assert l[..1][1..] == [] && l[..0] == [];
      assert OutAll(l[..1]) == Out(l[0]) + [];
    } else {
      assert l[..k + 1][1..] == l[1..][..k] && l[..k][1..] == l[1..][..k - 1];
      OutAllLast(l[1..], k - 1);
    }
  }

  /** copyout_option without a buffer: only counts. */
  method CountOption(lv: ListVal) returns (n: nat)
    ensures n == |Out(lv)|
    decreases lv
  {
    hide OutAll;
    n := HeadLen(lv.val);
    assert lv.sub[..|lv.sub|] == lv.sub;
    assert OutAll(lv.sub[..0]) == [] by { OutAllNone(lv.sub); }
    for k := 0 to |lv.sub|
      invariant n == HeadLen(lv.val) + |OutAll(lv.sub[..k])|
    {
      var s := CountOption(lv.sub[k]);
      OutAllLast(lv.sub, k);
      n := n + s;
    }
  }

  lemma {:induction false} OutAllNone(l: seq<ListVal>)
    ensures OutAll(l[..0]) == []
  {
  }

  lemma {:induction false} OutAllSplit(l: seq<ListVal>, k: nat)
    requires k <= |l|
    ensures OutAll(l) == OutAll(l[..k]) + OutAll(l[k..])
    decreases |l| - k
  {
    hide Out;
    if k == |l| {
      assert l[..k] == l && l[k..] == [];
    } else {
      OutAllSplit(l, k + 1);
      OutAllLast(l, k);
      assert l[k..][1..] == l[k + 1..];
    }
  }

  // The head of a written option.
  function HeadBytes(v: Value, optlen: nat): (h: seq<byte>)
    requires optlen >= 4
    ensures |h| == HeadLen(v)
  {
    U16(CodeOf(v)) + U16((optlen - 4) % 0x1_0000) + Head(v)
  }

  lemma {:induction false} OutIs(lv: ListVal)
    ensures |Out(lv)| == HeadLen(lv.val) + |OutAll(lv.sub)|
    ensures Out(lv) == HeadBytes(lv.val, HeadLen(lv.val) + |OutAll(lv.sub)|) + OutAll(lv.sub)
  {
    hide Head, OutAll;
  }

  /** copyout_option into the bytes `p` to `ep` of a buffer: it succeeds exactly
      when the counted length fits, writes exactly the option, and touches nothing
      outside its room. */
  method CopyOutOption(buf: array<byte>, p: nat, ep: nat, lv: ListVal) returns (n: int)
    requires ep <= buf.Length
    modifies buf
    ensures n == if p + |Out(lv)| <= ep then |Out(lv)| else -1
    ensures n >= 0 ==> buf[p..p + n] == Out(lv)
    ensures forall i :: 0 <= i < buf.Length && (i < p || ep <= i || (n >= 0 && p + n <= i)) ==> buf[i] == old(buf[i])
    decreases lv, 1
  {
    hide *;
    OutIs(lv);
    if ep <= p {
      return -1;
    }
    var h := HeadLen(lv.val);
    var end := CopySubs(buf, p + h, ep, lv.sub);
    OutAllNone(lv.sub);
    assert lv.sub == [] ==> lv.sub == lv.sub[..0];
    if end < 0 || ep - p < h {
      return -1;
    }
    n := end - p;
    ghost var before := buf[..];
    CopyHead(buf, p, HeadBytes(lv.val, n));
    Extended(buf[..], buf[..], p, p + h, end);
    assert buf[p + h..end] == before[p + h..end];
  }

  // The loop over the sub-options; returns where they end.
  method CopySubs(buf: array<byte>, p: nat, ep: nat, l: seq<ListVal>) returns (end: int)
    requires ep <= buf.Length
    modifies buf
    ensures end == if l == [] || p + |OutAll(l)| <= ep then p + |OutAll(l)| else -1
    ensures 0 <= end <= ep ==> buf[p..end] == OutAll(l)
    ensures forall i :: 0 <= i < buf.Length && (i < p || ep <= i || 0 <= end <= i) ==> buf[i] == old(buf[i])
    decreases l, 0
  {
    hide *;
    end := p;
    OutAllNone(l);
    for k := 0 to |l|
      invariant end == p + |OutAll(l[..k])| && (k > 0 ==> end <= ep)
      invariant end <= ep ==> buf[p..end] == OutAll(l[..k])
      invariant forall i :: 0 <= i < buf.Length && (i < p || ep <= i || end <= i) ==> buf[i] == old(buf[i])
    {
      ghost var before := buf[..];
      OutAllLast(l, k);
      OutAllSplit(l, k + 1);
      var s := CopyOutOption(buf, end, ep, l[k]);
      if s < 0 {
        return -1;
      }
      Extended(before, buf[..], p, end, end + s);
      end := end + s;
    }
    assert l[..|l|] == l;
  }

  lemma {:induction false} Extended(a: seq<byte>, b: seq<byte>, i: nat, j: nat, k: nat)
    requires |a| == |b| && i <= j <= k <= |a| && forall x :: i <= x < j ==> a[x] == b[x]
    ensures b[i..k] == a[i..j] + b[j..k]
  {
  }

  method CopyHead(buf: array<byte>, p: nat, h: seq<byte>)
    requires p + |h| <= buf.Length
    modifies buf
    ensures buf[p..p + |h|] == h
    ensures forall i :: 0 <= i < buf.Length && (i < p || p + |h| <= i) ==> buf[i] == old(buf[i])
  {
    forall i | 0 <= i < |h| {
      buf[p + i] := h[i];
    }
  }

  /** The IAs of a set: each is counted, written into a buffer of that size, and
      appended. */
  method SetIas(l: seq<ListVal>) returns (out: seq<byte>)
    ensures out == OutAll(l)
  {
    hide Out, OutAll;
    out := [];
    OutAllNone(l);
    for k := 0 to |l|
      invariant out == OutAll(l[..k])
    {
      var n := CountOption(l[k]);
      var tmp := new byte[n];
      var m := CopyOutOption(tmp, 0, n, l[k]);
      assert tmp[..n] == tmp[0..0 + m];
      OutAllLast(l, k);
      out := out + tmp[..n];
    }
    assert l[..|l|] == l;
  }

  method SetStatus(l: seq<uint16>) returns (out: seq<byte>)
    ensures out == StatusBytes(l)
  {
    hide Opt;
    out := [];
    for k := 0 to |l|
      invariant out + StatusBytes(l[k..]) == StatusBytes(l)
    {
      assert l[k..][1..] == l[k + 1..];
      out := out + Opt(STATUS_CODE, U16(l[k]));
    }
  }

  method SetNums(l: seq<uint16>) returns (out: seq<byte>)
    ensures out == Nums(l)
  {
    out := [];
    for k := 0 to |l|
      invariant out + Nums(l[k..]) == Nums(l)
    {
      assert l[k..][1..] == l[k + 1..];
      out := out + U16(l[k]);
    }
  }

  /** dhcp6_set_addr */
  method SetAddr(l: seq<Addr>) returns (out: seq<byte>)
    ensures out == AddrBytes(l)
  {
    out := [];
    for k := 0 to |l|
      invariant out + AddrBytes(l[k..]) == AddrBytes(l)
    {
      assert l[k..][1..] == l[k + 1..];
      out := out + l[k];
    }
  }

  // The names of a slot can be encoded.
  predicate Encodable(o: OptInfo, s: Slot) {
    s.NameList? && s.i < |o.names| ==> EncodeAll(o.names[s.i]).Some?
  }

  /** One of the blocks of dhcp6_set_options. */
  method SetSlot(o: OptInfo, s: Slot) returns (r: Option<seq<byte>>)
    requires Shaped(o) && IsSlot(s)
    ensures r == if Encodable(o, s) then Some(WriteSlot(o, s)) else None
  {
    hide Opt, OutAll, StatusBytes, Nums, AddrBytes, EncodeAll;
    match s
    case IaList(t) =>
      var out := SetIas(Ias(o, t));
      r := Some(out);
    case Status =>
      var out := SetStatus(o.stcodes);
      r := Some(out);
    case Oro =>
      var out := SetNums(o.reqopts);
      r := Some(if o.reqopts == [] then [] else Opt(ORO, out));
    case NameList(i) =>
      var e := SetDomain(o.names[i]);
      if o.names[i] == [] {
        EncodeNone();
      }
      r := if e.None? then None else if o.names[i] == [] then Some([]) else Some(Opt(NameCode(i), e.value));
    case AddrList(i) =>
      var out := SetAddr(o.addrs[i]);
      r := Some(if o.addrs[i] == [] then [] else Opt(AddrCode(i), out));
    case _ =>
      r := Some(WriteSlot(o, s));
  }

  lemma {:induction false} EncodeNone()
    ensures EncodeAll([]) == Some([])
  {
  }

  lemma {:induction false} WriteSlotsLast(o: OptInfo, ss: seq<Slot>, k: nat)
    requires k < |ss|
    ensures WriteSlots(o, ss[..k + 1]) == WriteSlots(o, ss[..k]) + WriteSlot(o, ss[k])
    decreases k
  {
    hide WriteSlot;
    if k == 0 {
      assert ss[..1][1..] == [] && ss[..0] == [];
      assert WriteSlots(o, ss[..1]) == WriteSlot(o, ss[0]) + [];
    } else {
      assert ss[..k + 1][1..] == ss[1..][..k] && ss[..k][1..] == ss[1..][..k - 1];
      WriteSlotsLast(o, ss[1..], k - 1);
    }
  }

  // What dhcp6_set_options refuses.
  predicate CanWrite(o: OptInfo) {
    && (forall k :: 0 <= k < |PLAIN| ==> Encodable(o, PLAIN[k]))
    && (o.auth.Some? && o.auth.value.info.Some? ==> o.auth.value.proto == DELAYED)
  }

  /** dhcp6_set_options, its blocks taken in order: the bytes, and the
      authentication state with the MAC offset filled in. */
  method SetOptions(o: OptInfo) returns (r: Option<(seq<byte>, Option<Auth>)>)
    requires Shaped(o) && (o.auth.Some? ==> |o.auth.value.rd| == 8)
    ensures r == if CanWrite(o) then Some((Write(o), Placed(o.auth, |WriteSlots(o, PLAIN)|))) else None
  {
    hide WriteSlot, WriteSlots, Opt, Encodable;
    PlainSlots();
    var out: seq<byte> := [];
    NoSlots(o);
    for k := 0 to |PLAIN|
      invariant out == WriteSlots(o, PLAIN[..k])
      invariant forall j :: 0 <= j < k ==> Encodable(o, PLAIN[j])
    {
      var b := SetSlot(o, PLAIN[k]);
      if b.None? {
        return None;
      }
      WriteSlotsLast(o, PLAIN, k);
      out := out + b.value;
    }
    assert PLAIN[..|PLAIN|] == PLAIN;
    if o.auth.None? {
      assert out + [] == out;
      return Some((out, None));
    }
    var a := o.auth.value;
    if a.info.None? {
      assert AuthHead(a) + [] == AuthHead(a);
      return Some((out + Opt(AUTH, AuthHead(a)), o.auth));
    }
    if a.proto != DELAYED {
      return None;
    }
    var info := a.info.value;
    var authlen := 15 + |info.realm| + 4 + 16;
    var off := |out| + authlen - 16;
    r := Some((out + Opt(AUTH, AuthHead(a) + Zeros(16)), Some(a.(info := Some(info.(offset := off))))));
  }

  lemma {:induction false} NoSlots(o: OptInfo)
    ensures WriteSlots(o, PLAIN[..0]) == []
  {
  }
}
