/** Domain names in options (common.c): the self-delimiting label encoding of
    section 3.1 of RFC 1035, for single names and for lists of them. */
module Names {
  import opened Bytes

  const MAXDNAME: nat := 255
  const DOT: byte := 46
  const HYPHEN: byte := 45

  // ---- characters --------------------------------------------------------

  predicate IsUpper(c: byte) { 65 <= c <= 90 }

  predicate IsAlpha(c: byte) { IsUpper(c) || 97 <= c <= 122 }

  predicate IsAlnum(c: byte) { IsAlpha(c) || 48 <= c <= 57 }

  predicate IsPrint(c: byte) { 32 <= c <= 126 }

  function Lower(c: byte): byte { if IsUpper(c) then c + 32 else c }

  function LowerAll(s: seq<byte>): (r: seq<byte>)
    ensures |r| == |s| && forall k :: 0 <= k < |s| ==> r[k] == Lower(s[k])
  {
    seq(|s|, i requires 0 <= i < |s| => Lower(s[i]))
  }

  // ---- encoding ----------------------------------------------------------

  /** The length of the first label: up to a dot or the end. */
  function LabelLen(s: seq<byte>): (i: nat)
    ensures i <= |s| && (i < |s| ==> s[i] == DOT) && forall k :: 0 <= k < i ==> s[k] != DOT
  {
    if s == [] || s[0] == DOT then 0
    else
      assert forall k :: 1 <= k < |s| ==> s[k] == s[1..][k - 1];
      1 + LabelLen(s[1..])
  }

  /** A label as dnsencode takes it: 1 to 63 letters, digits and hyphens, a
      letter first and a letter or digit last. */
  predicate ValidLabel(l: seq<byte>) {
    && 1 <= |l| <= 63 && IsAlpha(l[0]) && IsAlnum(l[|l| - 1])
    && forall k :: 0 <= k < |l| ==> IsAlnum(l[k]) || l[k] == HYPHEN
  }

  // What follows the first label and its dot.
  function AfterLabel(s: seq<byte>): (r: seq<byte>)
    requires s != []
    ensures |r| < |s| || LabelLen(s) == 0
  {
    if LabelLen(s) < |s| then s[LabelLen(s) + 1..] else []
  }

  /** A label on the wire: its length, then its characters in lower case. */
  function Emit(l: seq<byte>): (e: seq<byte>)
    requires |l| <= 63
    ensures |e| == |l| + 1
  {
    [|l|] + LowerAll(l)
  }

  /** Every label with its length in front, lower-cased; None if one is not valid. */
  function EncodeLabels(s: seq<byte>): Option<seq<byte>>
    decreases |s|
  {
    if s == [] then Some([])
    else
      var l := s[..LabelLen(s)];
      if !ValidLabel(l) then None
      else
        var r := EncodeLabels(AfterLabel(s));
        if r.None? then None else Some(Emit(l) + r.value)
  }

  /** dnsencode with its 255-byte buffer: an empty name gives no bytes at all. */
  function DnsEncode(s: seq<byte>): Option<seq<byte>> {
    if s == [] then Some([])
    else
      var r := EncodeLabels(s);
      if r.None? || |r.value| + 1 >= MAXDNAME then None else Some(r.value + [0])
  }

  // ---- decoding ----------------------------------------------------------

  predicate AllPrint(s: seq<byte>) {
    forall k :: 0 <= k < |s| ==> IsPrint(s[k])
  }

  /** dnsdecode from a point inside a name: `acc` is the text so far, its buffer
      holds MAXDNAME + 1 bytes with the terminator. */
  function DecodeFrom(b: seq<byte>, first: bool, acc: seq<byte>): (r: Option<(seq<byte>, seq<byte>)>)
    ensures r.Some? ==> |r.value.1| < |b|
    decreases |b|
  {
    if b == [] then None
    else
      var i := b[0];
      var acc1 := if i == 0 || !first then acc + [DOT] else acc;
      if |acc1| > MAXDNAME then None
      else if i == 0 then Some((acc1, b[1..]))
      else if i > 63 || i > |b| - 1 then None
      else if !AllPrint(b[1..i + 1]) || |acc1| + i > MAXDNAME then None
      else DecodeFrom(b[i + 1..], false, acc1 + b[1..i + 1])
  }

  function DnsDecode(b: seq<byte>): (r: Option<(seq<byte>, seq<byte>)>)
    ensures r.Some? ==> |r.value.1| < |b|
  {
    DecodeFrom(b, true, [])
  }

  // ---- one name there and back -------------------------------------------

  /** A name lower-cased, every label followed by a dot. */
  function Canon(s: seq<byte>): seq<byte>
    decreases |s|
  {
    if s == [] || LabelLen(s) == 0 then []
    else LowerAll(s[..LabelLen(s)]) + [DOT] + Canon(AfterLabel(s))
  }

  // The first label of an encodable name and what follows it.
  lemma {:induction false} Peel(s: seq<byte>)
    requires s != [] && EncodeLabels(s).Some?
    ensures var l, t := s[..LabelLen(s)], AfterLabel(s);
            && ValidLabel(l) && 1 <= |l| <= 63 && |t| < |s| && EncodeLabels(t).Some?
            && EncodeLabels(s).value == Emit(l) + EncodeLabels(t).value
            && Canon(s) == LowerAll(l) + [DOT] + Canon(t)
  {
    hide LowerAll, LabelLen;
  }

  lemma {:induction false} PeelText(s: seq<byte>)
    requires s != []
    ensures LabelLen(s) < |s| ==> s == s[..LabelLen(s)] + ([DOT] + AfterLabel(s))
    ensures LabelLen(s) == |s| ==> s == s[..LabelLen(s)] && AfterLabel(s) == []
    ensures DOT !in s[..LabelLen(s)]
  {
    SplitAt(s, LabelLen(s));
  }

  lemma {:induction false} SplitAt(s: seq<byte>, i: nat)
    requires i <= |s|
    ensures i < |s| ==> s == s[..i] + ([s[i]] + s[i + 1..])
    ensures i == |s| ==> s == s[..i]
  {
  }

  lemma {:induction false} LowerConcat(s: seq<byte>, t: seq<byte>)
    ensures LowerAll(s + t) == LowerAll(s) + LowerAll(t)
    ensures LowerAll([DOT] + t) == [DOT] + LowerAll(t)
  {
  }

  lemma {:induction false} CanonIsLower(s: seq<byte>)
    requires s != [] && EncodeLabels(s).Some?
    ensures Canon(s) == LowerAll(s) + if s[|s| - 1] == DOT then [] else [DOT]
    decreases |s|
  {
    hide *;
    Peel(s);
    PeelText(s);
    EmptyCanon();
    var l, t := s[..LabelLen(s)], AfterLabel(s);
    if LabelLen(s) == |s| {
      assert l == s;
      assert s[|s| - 1] in l;
    } else {
      LowerConcat(l, [DOT] + t);
      LowerConcat([], t);
      if t == [] {
        assert s[|s| - 1] == DOT;
        assert LowerAll(l) + ([DOT] + []) + [] == LowerAll(l) + [DOT] + [];
      } else {
        CanonIsLower(t);
        assert s[|s| - 1] == t[|t| - 1];
        Regroup(LowerAll(l), [DOT], LowerAll(t), if s[|s| - 1] == DOT then [] else [DOT]);
        Associate(LowerAll(l) + [DOT], LowerAll(t), if s[|s| - 1] == DOT then [] else [DOT]);
      }
    }
  }

  lemma {:induction false} EmptyCanon()
    ensures Canon([]) == [] && LowerAll([]) == []
  {
  }

  lemma {:induction false} CanonLength(s: seq<byte>)
    requires EncodeLabels(s).Some?
    ensures |Canon(s)| == |EncodeLabels(s).value|
    ensures |EncodeLabels(s).value| <= |s| + 1
    decreases |s|
  {
    if s == [] {
    } else {
      CanonLength(AfterLabel(s));
    }
  }

  lemma {:induction false} LowerLabel(l: seq<byte>)
    requires ValidLabel(l)
    ensures ValidLabel(LowerAll(l)) && LowerAll(LowerAll(l)) == LowerAll(l) && AllPrint(LowerAll(l))
    ensures DOT !in LowerAll(l)
  {
  }

  lemma {:induction false} DecodeOne(l: seq<byte>, tail: seq<byte>, first: bool, acc: seq<byte>)
    requires 1 <= |l| <= 63 && AllPrint(LowerAll(l)) && |acc| + 1 + |l| <= MAXDNAME
    ensures DecodeFrom(Emit(l) + tail, first, acc) ==
            DecodeFrom(tail, false, (if first then acc else acc + [DOT]) + LowerAll(l))
  {
    var b := Emit(l) + tail;
    assert b[0] == |l| && b[1..|l| + 1] == LowerAll(l) && b[|l| + 1..] == tail;
  }

  lemma {:induction false} DecodeEnd(rest: seq<byte>, acc: seq<byte>)
    requires |acc| + 1 <= MAXDNAME
    ensures DecodeFrom([0] + rest, false, acc) == Some((acc + [DOT], rest))
  {
  }

  // Decoding resumes after a label exactly where encoding left off.
  lemma {:induction false} DecodeLabels(s: seq<byte>, rest: seq<byte>, first: bool, acc: seq<byte>)
    requires EncodeLabels(s).Some? && (first ==> s != [])
    requires |acc| + 1 + |EncodeLabels(s).value| <= MAXDNAME
    ensures var text := if first then acc + Canon(s) else acc + [DOT] + Canon(s);
            DecodeFrom(EncodeLabels(s).value + [0] + rest, first, acc) == Some((text, rest))
    decreases |s|
  {
    if s == [] {
      assert [] + [0] + rest == [0] + rest;
      assert acc + [DOT] == acc + [DOT] + [];
      DecodeEnd(rest, acc);
    } else {
      hide *;
      Peel(s);
      var l, t := s[..LabelLen(s)], AfterLabel(s);
      LowerLabel(l);
      var tail := EncodeLabels(t).value + [0] + rest;
      Regroup(Emit(l), EncodeLabels(t).value, [0], rest);
      DecodeOne(l, tail, first, acc);
      var acc1 := (if first then acc else acc + [DOT]) + LowerAll(l);
      DecodeLabels(t, rest, false, acc1);
      Regroup(if first then acc else acc + [DOT], LowerAll(l), [DOT], Canon(t));
    }
  }

  lemma {:induction false} Regroup(p: seq<byte>, e: seq<byte>, z: seq<byte>, r: seq<byte>)
    ensures p + e + z + r == p + (e + z + r)
  {
  }

  /** Decoding an encoded name gives it back lower-cased with one trailing dot, and
      stops right behind it. */
  lemma {:induction false} NameRoundTrip(s: seq<byte>, rest: seq<byte>)
    requires s != [] && DnsEncode(s).Some?
    ensures DnsDecode(DnsEncode(s).value + rest) == Some((Canon(s), rest))
    ensures Canon(s) == LowerAll(s) + if s[|s| - 1] == DOT then [] else [DOT]
  {
    DecodeLabels(s, rest, true, []);
    CanonIsLower(s);
    assert [] + Canon(s) == Canon(s);
  }

  lemma {:induction false} CanonLabel(s: seq<byte>)
    requires s != [] && LabelLen(s) > 0 && ValidLabel(s[..LabelLen(s)])
    ensures var c := Canon(s);
            && c != [] && LabelLen(c) == LabelLen(s) && c[..LabelLen(c)] == LowerAll(s[..LabelLen(s)])
            && AfterLabel(c) == Canon(AfterLabel(s))
  {
    var i := LabelLen(s);
    LowerLabel(s[..i]);
    var c := Canon(s);
    var l := LowerAll(s[..i]);
    assert c == l + [DOT] + Canon(AfterLabel(s));
    assert c[i] == DOT;
    assert forall k :: 0 <= k < i ==> c[k] == l[k] && l[k] in l;
    assert c[i + 1..] == Canon(AfterLabel(s));
  }

  /** Encoding the canonical form again gives the same bytes. */
  lemma {:induction false} CanonEncodesAlike(s: seq<byte>)
    requires EncodeLabels(s).Some?
    ensures EncodeLabels(Canon(s)) == EncodeLabels(s)
    decreases |s|
  {
    if s == [] {
    } else {
      CanonLabel(s);
      LowerLabel(s[..LabelLen(s)]);
      CanonEncodesAlike(AfterLabel(s));
    }
  }

  // ---- lists of names ----------------------------------------------------

  /** dhcp6_set_domain: the encodings one after the other. */
  function EncodeAll(names: seq<seq<byte>>): Option<seq<byte>> {
    if names == [] then Some([])
    else
      var e, r := DnsEncode(names[0]), EncodeAll(names[1..]);
      if e.None? || r.None? then None else Some(e.value + r.value)
  }

  /** dhcp6_get_domain: names until the bytes are used up. */
  function DecodeAll(b: seq<byte>): Option<seq<seq<byte>>>
    decreases |b|
  {
    if b == [] then Some([])
    else
      var d := DnsDecode(b);
      if d.None? then None
      else
        var r := DecodeAll(d.value.1);
        if r.None? then None else Some([d.value.0] + r.value)
  }

  /** The canonical forms of the names that are not empty. */
  function CanonAll(names: seq<seq<byte>>): seq<seq<byte>> {
    if names == [] then []
    else (if names[0] == [] then [] else [Canon(names[0])]) + CanonAll(names[1..])
  }

  /** Every list of encodable names comes back lower-cased, one trailing dot each,
      in order; an empty name takes no bytes and is the only kind that is lost. */
  lemma {:induction false} ListRoundTrip(names: seq<seq<byte>>)
    requires EncodeAll(names).Some?
    ensures DecodeAll(EncodeAll(names).value) == Some(CanonAll(names))
  {
    if names == [] {
    } else {
      ListRoundTrip(names[1..]);
      var e, r := DnsEncode(names[0]).value, EncodeAll(names[1..]).value;
      if names[0] == [] {
        assert e + r == r;
        assert [] + CanonAll(names[1..]) == CanonAll(names[1..]);
      } else {
        NameRoundTrip(names[0], r);
        assert e + r != [];
      }
    }
  }

  /** Re-encoding what was decoded gives identical bytes. */
  lemma {:induction false} ListReencodes(names: seq<seq<byte>>)
    requires EncodeAll(names).Some?
    ensures EncodeAll(CanonAll(names)) == EncodeAll(names)
  {
    if names == [] {
    } else {
      ListReencodes(names[1..]);
      if names[0] == [] {
        assert [] + CanonAll(names[1..]) == CanonAll(names[1..]);
        assert [] + EncodeAll(names[1..]).value == EncodeAll(names[1..]).value;
      } else {
        CanonEncodesAlike(names[0]);
        CanonLength(names[0]);
        assert CanonAll(names)[1..] == CanonAll(names[1..]);
      }
    }
  }

  /** The number of bytes dhcp6_set_domain allots: length with terminator, plus one, per name. */
  function Estimate(names: seq<seq<byte>>): nat {
    if names == [] then 0 else |names[0]| + 2 + Estimate(names[1..])
  }

  /** The estimate is always enough. */
  lemma {:induction false} EstimateSuffices(names: seq<seq<byte>>)
    requires EncodeAll(names).Some?
    ensures |EncodeAll(names).value| <= Estimate(names)
  {
    if names == [] {
    } else {
      EstimateSuffices(names[1..]);
      NameFits(names[0]);
    }
  }

  lemma {:induction false} NameFits(s: seq<byte>)
    requires DnsEncode(s).Some?
    ensures |DnsEncode(s).value| <= |s| + 2
  {
    if s != [] {
      CanonLength(s);
    }
  }

  // ---- the loops ---------------------------------------------------------

  // The bytes already written put in front of what is still to come.
  function Behind(out: seq<byte>, r: Option<seq<byte>>): Option<seq<byte>> {
    if r.None? then None else Some(out + r.value)
  }

  /** The label loop of dnsencode. */
  method EncodeName(s: seq<byte>) returns (r: Option<seq<byte>>)
    ensures r == DnsEncode(s)
  {
    if s == [] {
      return Some([]);
    }
    hide *;
    DnsEncodeIs(s);
    var out: seq<byte>, p := [], 0;
    assert s[0..] == s;
    EmptyBehind(EncodeLabels(s));
    while p < |s|
      invariant 0 <= p <= |s| && |out| < MAXDNAME
      invariant Behind(out, EncodeLabels(s[p..])) == EncodeLabels(s)
    {
      var q := ScanLabel(s, p);
      var i := q - p;
      LabelIs(s, p, q);
      NextLabel(out, s, p, q);
      if |out| + i + 1 >= MAXDNAME {
        TooLong(out, s[p..]);
        return None;
      }
      if i > 63 || !ValidLabel(s[p..q]) {
        return None;
      }
      out := out + Emit(s[p..q]);
      p := Next(s, q);
    }
    assert s[p..] == [];
    EncodeNothing(out);
    if |out| + 1 >= MAXDNAME {
      return None;
    }
    r := Some(out + [0]);
  }

  lemma {:induction false} EncodeNothing(out: seq<byte>)
    ensures Behind(out, EncodeLabels([])) == Some(out)
  {
    assert out + [] == out;
  }

  // The position behind a label and its dot.
  function Next(s: seq<byte>, q: nat): (p: nat)
    requires q <= |s|
    ensures q <= p <= |s| && (q < |s| ==> p == q + 1)
  {
    if q < |s| then q + 1 else q
  }

  // The end of the label that starts at `p`.
  method ScanLabel(s: seq<byte>, p: nat) returns (q: nat)
    requires p <= |s|
    ensures p <= q <= |s| && (q < |s| ==> s[q] == DOT) && forall k :: p <= k < q ==> s[k] != DOT
  {
    q := p;
    while q < |s| && s[q] != DOT
      invariant p <= q <= |s| && forall k :: p <= k < q ==> s[k] != DOT
    {
      q := q + 1;
    }
  }

  lemma {:induction false} DnsEncodeIs(s: seq<byte>)
    requires s != []
    ensures var e := EncodeLabels(s);
            DnsEncode(s) == if e.None? || |e.value| + 1 >= MAXDNAME then None else Some(e.value + [0])
  {
  }

  lemma {:induction false} EmptyBehind(r: Option<seq<byte>>)
    ensures Behind([], r) == r
  {
    assert r.Some? ==> [] + r.value == r.value;
  }

  lemma {:induction false} LabelIs(s: seq<byte>, p: nat, q: nat)
    requires p <= q <= |s| && p < |s| && (q < |s| ==> s[q] == DOT) && forall k :: p <= k < q ==> s[k] != DOT
    ensures LabelLen(s[p..]) == q - p && s[p..][..q - p] == s[p..q]
    ensures AfterLabel(s[p..]) == s[Next(s, q)..]
  {
    var t := s[p..];
    assert forall k :: 0 <= k < q - p ==> t[k] == s[p + k];
    assert q < |s| ==> t[q - p] == DOT;
    assert q == |s| ==> s[q..] == [];
  }

  lemma {:induction false} TooLong(out: seq<byte>, t: seq<byte>)
    requires t != [] && |out| + LabelLen(t) + 1 >= MAXDNAME
    ensures Behind(out, EncodeLabels(t)).Some? ==> |Behind(out, EncodeLabels(t)).value| + 1 >= MAXDNAME
    ensures EncodeLabels(t) == None ==> Behind(out, EncodeLabels(t)) == None
  {
  }

  lemma {:induction false} NextLabel(out: seq<byte>, s: seq<byte>, p: nat, q: nat)
    requires p <= q <= |s| && p < |s| && LabelLen(s[p..]) == q - p && s[p..][..q - p] == s[p..q]
    requires AfterLabel(s[p..]) == s[Next(s, q)..]
    ensures if q - p > 63 || !ValidLabel(s[p..q]) then Behind(out, EncodeLabels(s[p..])) == None
            else Behind(out, EncodeLabels(s[p..])) == Behind(out + Emit(s[p..q]), EncodeLabels(s[Next(s, q)..]))
  {
    if ValidLabel(s[p..q]) {
      BehindTwice(out, s[p..]);
    }
  }

  lemma {:induction false} BehindTwice(out: seq<byte>, t: seq<byte>)
    requires t != [] && ValidLabel(t[..LabelLen(t)])
    ensures Behind(out, EncodeLabels(t)) ==
            Behind(out + Emit(t[..LabelLen(t)]), EncodeLabels(AfterLabel(t)))
  {
    var r := EncodeLabels(AfterLabel(t));
    if r.Some? {
      Associate(out, Emit(t[..LabelLen(t)]), r.value);
    }
  }

  lemma {:induction false} Associate(a: seq<byte>, b: seq<byte>, c: seq<byte>)
    ensures a + (b + c) == a + b + c
  {
  }

  /** The loop of dnsdecode: the name and the position behind it. */
  method DecodeName(b: seq<byte>) returns (r: Option<(seq<byte>, nat)>)
    ensures r.None? <==> DnsDecode(b).None?
    ensures r.Some? ==> r.value.1 <= |b| && DnsDecode(b) == Some((r.value.0, b[r.value.1..]))
  {
    hide DecodeFrom, AllPrint;
    var cp, buf: seq<byte> := 0, [];
    assert b[0..] == b;
    while cp < |b|
      invariant 0 <= cp <= |b| && (cp == 0 ==> buf == [])
      invariant DecodeFrom(b[cp..], cp == 0, buf) == DnsDecode(b)
    {
      var i := b[cp];
      DecodeHere(b, cp, buf);
      if i == 0 || cp != 0 {
        buf := buf + [DOT];
        if |buf| > MAXDNAME {
          return None;
        }
      }
      if i == 0 {
        return Some((buf, cp + 1));
      }
      cp := cp + 1;
      if i > 63 || i > |b| - cp {
        return None;
      }
      var ok := AppendPrintable(b[cp..cp + i], |buf|);
      if !ok {
        return None;
      }
      buf := buf + b[cp..cp + i];
      cp := cp + i;
    }
    assert b[cp..] == [];
    r := None;
  }

  // One turn of the decoding loop.
  lemma {:induction false} DecodeHere(b: seq<byte>, cp: nat, acc: seq<byte>)
    requires cp < |b|
    ensures var i := b[cp];
            var acc1 := if i == 0 || cp != 0 then acc + [DOT] else acc;
            DecodeFrom(b[cp..], cp == 0, acc) ==
            if |acc1| > MAXDNAME then None
            else if i == 0 then Some((acc1, b[cp + 1..]))
            else if i > 63 || i > |b| - (cp + 1) then None
            else if !AllPrint(b[cp + 1..cp + 1 + i]) || |acc1| + i > MAXDNAME then None
            else DecodeFrom(b[cp + 1 + i..], false, acc1 + b[cp + 1..cp + 1 + i])
  {
    var t, i := b[cp..], b[cp];
    assert t[1..] == b[cp + 1..];
    if i + 1 <= |t| {
      assert t[1..i + 1] == b[cp + 1..cp + 1 + i] && t[i + 1..] == b[cp + 1 + i..];
    }
  }

  method AppendPrintable(l: seq<byte>, have: nat) returns (ok: bool)
    requires have <= MAXDNAME
    ensures ok <==> AllPrint(l) && have + |l| <= MAXDNAME
  {
    for k := 0 to |l|
      invariant AllPrint(l[..k]) && have + k <= MAXDNAME
    {
      if !IsPrint(l[k]) {
        return false;
      }
      if have + k + 1 > MAXDNAME {
        return false;
      }
    }
    assert l[..|l|] == l;
    ok := true;
  }

  /** dhcp6_set_domain: the check against the allotted space never fails. */
  method SetDomain(names: seq<seq<byte>>) returns (r: Option<seq<byte>>)
    ensures r == EncodeAll(names)
  {
    var optlen := 0;
    for k := 0 to |names|
      invariant optlen + Estimate(names[k..]) == Estimate(names)
    {
      assert names[k..][1..] == names[k + 1..];
      optlen := optlen + |names[k]| + 2;
    }
    var out := [];
    EmptyBehind(EncodeAll(names));
    assert names[0..] == names;
    for k := 0 to |names|
      invariant Behind(out, EncodeAll(names[k..])) == EncodeAll(names)
      invariant optlen == Estimate(names) && |out| + Estimate(names[k..]) <= optlen
    {
      assert names[k..][1..] == names[k + 1..];
      var e := EncodeName(names[k]);
      if e.None? {
        return None;
      }
      NameFits(names[k]);
      assert |e.value| <= |names[k]| + 2 <= optlen - |out|;
      var rest := EncodeAll(names[k + 1..]);
      assert rest.Some? ==> out + (e.value + rest.value) == out + e.value + rest.value;
      out := out + e.value;
    }
    assert names[|names|..] == [] && out + [] == out;
    r := Some(out);
  }

  /** dhcp6_get_domain */
  method GetDomain(b: seq<byte>) returns (r: Option<seq<seq<byte>>>)
    ensures r == DecodeAll(b)
  {
    var names, i := [], 0;
    assert b[0..] == b;
    assert DecodeAll(b).Some? ==> [] + DecodeAll(b).value == DecodeAll(b).value;
    while i < |b|
      invariant 0 <= i <= |b|
      invariant DecodeAll(b) == var d := DecodeAll(b[i..]); if d.None? then None else Some(names + d.value)
    {
      var d := DecodeName(b[i..]);
      if d.None? {
        return None;
      }
      var n := i + d.value.1;
      assert b[i..][d.value.1..] == b[n..];
      var rest := DecodeAll(b[n..]);
      assert rest.Some? ==> names + ([d.value.0] + rest.value) == names + [d.value.0] + rest.value;
      names, i := names + [d.value.0], n;
    }
    assert b[|b|..] == [] && names + [] == names;
    r := Some(names);
  }
}
