/** Address pools (config.c): byte-wise comparison and increment of addresses
    and the search for a free address in a range. */
module Pool {
  import opened Bytes
  import opened Lease

  datatype Range = Range(min: Addr, max: Addr)

  function Ones(n: nat): (s: seq<byte>)
    ensures |s| == n && forall k :: 0 <= k < n ==> s[k] == 255
  {
    seq(n, i => 255)
  }

  const ALL_ONES: Addr := Ones(16)

  predicate IsMulticast(a: Addr) { a[0] == 0xff }

  predicate IsLinkLocal(a: Addr) { a[0] == 0xfe && 0x80 <= a[1] < 0xc0 }

  predicate IsSiteLocal(a: Addr) { a[0] == 0xfe && 0xc0 <= a[1] }

  /** An address the server may hand out: not leased and of global scope. */
  predicate Usable(a: Addr, leases: map<Addr, bool>) {
    a !in leases && !IsMulticast(a) && !IsLinkLocal(a) && !IsSiteLocal(a)
  }

  predicate InRange(r: Range, a: Addr) {
    Num(r.min) <= Num(a) <= Num(r.max)
  }

  // ---- comparison ------------------------------------------------------

  /** A difference in a leading byte decides, whatever follows. */
  lemma {:induction false} LeadingByteDecides(s: seq<byte>, t: seq<byte>, i: nat)
    requires i < |s| == |t| && s[..i] == t[..i] && s[i] < t[i]
    ensures Num(s) < Num(t)
  {
    var n := |s| - 1;
    assert s[..n][..i] == s[..i] && t[..n][..i] == t[..i];
    if i < n {
      LeadingByteDecides(s[..n], t[..n], i);
    }
  }

  /** Comparing the bytes from the left compares the 128-bit numbers. */
  method In6AddrCmp(a: Addr, b: Addr) returns (c: int)
    ensures -1 <= c <= 1 && (c < 0 <==> Num(a) < Num(b)) && (c > 0 <==> Num(a) > Num(b))
  {
    for i := 0 to 16
      invariant a[..i] == b[..i]
    {
      if a[i] != b[i] {
        if a[i] > b[i] {
          LeadingByteDecides(b, a, i);
          return 1;
        }
        LeadingByteDecides(a, b, i);
        return -1;
      }
    }
    assert a == a[..16] && b == b[..16];
    c := 0;
  }

  // ---- increment -------------------------------------------------------

  function Inc(s: seq<byte>): (r: seq<byte>)
    ensures |r| == |s|
  {
    if s == [] then []
    else if s[|s| - 1] < 255 then s[..|s| - 1] + [s[|s| - 1] + 1]
    else Inc(s[..|s| - 1]) + [0]
  }

  /** Incrementing adds one, and wraps from all ones to zero. */
  lemma {:induction false} IncIsPlusOne(s: seq<byte>)
    ensures Num(Inc(s)) == if Num(s) + 1 == Pow256(|s|) then 0 else Num(s) + 1
  {
    if s == [] {
    } else {
      var n := |s| - 1;
      NumBound(s[..n]);
      if s[n] < 255 {
        assert Inc(s)[..n] == s[..n];
      } else {
        assert Inc(s)[..n] == Inc(s[..n]);
        IncIsPlusOne(s[..n]);
      }
    }
  }

  // Trailing 255s become zeros and the byte before them takes the carry.
  lemma {:induction false} IncCarries(s: seq<byte>, i: int)
    requires -1 <= i < |s| && (forall k :: i < k < |s| ==> s[k] == 255) && (i >= 0 ==> s[i] < 255)
    ensures forall k :: i < k < |s| ==> Inc(s)[k] == 0
    ensures i >= 0 ==> Inc(s)[i] == s[i] + 1
    ensures forall k :: 0 <= k < i ==> Inc(s)[k] == s[k]
  {
    if i < |s| - 1 {
      IncCarries(s[..|s| - 1], i);
    }
  }

  /** in6_addr_inc works in place, carrying from the last byte; it adds one modulo 2^128. */
  method In6AddrInc(a: array<byte>)
    requires a.Length == 16
    modifies a
    ensures a[..] == Inc(old(a[..]))
  {
    ghost var was := a[..];
    var i := 15;
    while i >= 0
      invariant -1 <= i <= 15
      invariant forall k :: 0 <= k <= i ==> a[k] == was[k]
      invariant forall k :: i < k < 16 ==> was[k] == 255 && a[k] == 0
    {
      if a[i] < 255 {
        a[i] := a[i] + 1;
        break;
      }
      a[i] := 0;
      i := i - 1;
    }
    IncCarries(was, i);
  }

  // ---- the search ------------------------------------------------------

  ghost predicate IsLeast(a: Addr, lo: nat, hi: nat, leases: map<Addr, bool>) {
    && lo <= Num(a) <= hi && Usable(a, leases)
    && (forall b: Addr :: lo <= Num(b) <= hi && Usable(b, leases) ==> Num(a) <= Num(b))
  }

  /** The least usable address numbered between `lo` and `hi`, if there is any. */
  ghost function LeastIn(lo: nat, hi: nat, leases: map<Addr, bool>): (r: Option<Addr>)
    ensures r.Some? ==> IsLeast(r.value, lo, hi, leases)
  {
    if exists a :: IsLeast(a, lo, hi, leases) then
      var a: Addr :| IsLeast(a, lo, hi, leases); Some(a)
    else None
  }

  /** The answer of the pool search: the least usable address of the range.  A
      range ending in all ones never ends the scan, which then starts again at
      zero and leaves the range. */
  ghost function Search(r: Range, leases: map<Addr, bool>): (s: Option<Addr>)
    ensures s.Some? ==> Usable(s.value, leases)
  {
    var inside := LeastIn(Num(r.min), Num(r.max), leases);
    if inside.Some? || r.max != ALL_ONES then inside else LeastIn(0, Num(ALL_ONES), leases)
  }

  lemma {:induction false} LeastUnique(a: Addr, lo: nat, hi: nat, leases: map<Addr, bool>)
    requires IsLeast(a, lo, hi, leases)
    ensures LeastIn(lo, hi, leases) == Some(a)
  {
    NumInjective(a, LeastIn(lo, hi, leases).value);
  }

  lemma {:induction false} OnesNum(n: nat)
    ensures Num(Ones(n)) == Pow256(n) - 1
  {
    if n > 0 {
      OnesNum(n - 1);
      assert Ones(n)[..n - 1] == Ones(n - 1);
    }
  }

  lemma {:induction false} AllOnesIsLargest(a: Addr)
    ensures Num(a) <= Num(ALL_ONES) == Pow256(16) - 1
    ensures a != ALL_ONES ==> Num(a) < Num(ALL_ONES)
  {
    OnesNum(16);
    assert ALL_ONES == Ones(16);
    NumBound(a);
    if Num(a) == Num(ALL_ONES) {
      NumInjective(a, ALL_ONES);
    }
  }

  // No usable address is numbered from `lo` up to but excluding `hi`.
  ghost predicate NoneBelow(lo: nat, hi: nat, leases: map<Addr, bool>) {
    forall b: Addr :: lo <= Num(b) < hi ==> !Usable(b, leases)
  }

  lemma {:induction false} NoneBelowStep(lo: nat, a: Addr, leases: map<Addr, bool>)
    requires NoneBelow(lo, Num(a), leases) && !Usable(a, leases)
    ensures NoneBelow(lo, Num(a) + 1, leases)
  {
    forall b: Addr | lo <= Num(b) < Num(a) + 1
      ensures !Usable(b, leases)
    {
      if Num(b) == Num(a) {
        NumInjective(a, b);
      }
    }
  }

  // How far a scan has come: no usable address from `lo` up to `n`; after the
  // wrap, none in the range either.
  ghost predicate Scanned(r: Range, n: nat, lo: nat, wrapped: bool, leases: map<Addr, bool>) {
    && n <= Num(ALL_ONES)
    && NoneBelow(lo, n, leases)
    && lo <= n
    && (if wrapped then lo == 0 && r.max == ALL_ONES && NoneBelow(Num(r.min), Num(ALL_ONES) + 1, leases)
        else lo == Num(r.min))
  }

  lemma {:induction false} ScanStart(r: Range, leases: map<Addr, bool>)
    ensures Num(r.min) <= Num(ALL_ONES) && Scanned(r, Num(r.min), Num(r.min), false, leases)
  {
    AllOnesIsLargest(r.min);
  }

  lemma {:induction false} ScanNext(r: Range, a: Addr, lo: nat, wrapped: bool, leases: map<Addr, bool>)
    returns (n': nat, lo': nat, wrapped': bool)
    requires Scanned(r, Num(a), lo, wrapped, leases) && !Usable(a, leases) && Num(a) <= Num(r.max)
    requires r.max != ALL_ONES || exists x :: Usable(x, leases)
    ensures n' == Num(Inc(a)) <= Num(ALL_ONES) && Scanned(r, n', lo', wrapped', leases)
    ensures if wrapped' == wrapped then n' == Num(a) + 1 else wrapped'
  {
    n', lo', wrapped' := Num(Inc(a)), lo, wrapped;
    NoneBelowStep(lo, a, leases);
    AllOnesIsLargest(a);
    AllOnesIsLargest(r.max);
    IncIsPlusOne(a);
    if Num(a) == Num(ALL_ONES) {
      NumInjective(r.max, ALL_ONES);
      SomeUsableLeft(lo, leases);
      lo', wrapped' := 0, true;
    }
  }

  // A scan from zero cannot run past every address when one of them is usable.
  lemma {:induction false} SomeUsableLeft(lo: nat, leases: map<Addr, bool>)
    requires NoneBelow(lo, Num(ALL_ONES) + 1, leases)
    requires exists a :: Usable(a, leases)
    ensures lo != 0
  {
    var a :| Usable(a, leases);
    AllOnesIsLargest(a);
  }

  lemma {:induction false} ScanFound(r: Range, a: Addr, lo: nat, wrapped: bool, leases: map<Addr, bool>)
    requires Scanned(r, Num(a), lo, wrapped, leases) && Usable(a, leases) && Num(a) <= Num(r.max)
    ensures Search(r, leases) == Some(a)
  {
    AllOnesIsLargest(r.max);
    assert IsLeast(a, lo, Num(r.max), leases);
    LeastUnique(a, lo, Num(r.max), leases);
  }

  method IsUsable(a: Addr, lt: LeaseTable) returns (yes: bool)
    requires lt.Valid()
    ensures yes == Usable(a, lt.leases)
  {
    var leased := lt.IsLeased(a);
    yes := !leased && !IsMulticast(a) && !IsLinkLocal(a) && !IsSiteLocal(a);
  }

  lemma {:induction false} ScanNone(r: Range, n: nat, lo: nat, wrapped: bool, leases: map<Addr, bool>)
    requires Scanned(r, n, lo, wrapped, leases) && Num(r.max) < n
    ensures Search(r, leases) == None
  {
  }

  /** get_free_address_from_pool.  The scan ends because the range does, or, for
      a range ending in all ones, because some address is usable. */
  method GetFreeAddress(r: Range, lt: LeaseTable) returns (s: Option<Addr>)
    requires lt.Valid()
    requires Num(r.min) <= Num(r.max)
    requires r.max != ALL_ONES || exists a :: Usable(a, lt.leases)
    ensures s == Search(r, lt.leases)
  {
    hide *;
    ghost var leases, lo, wrapped := lt.leases, Num(r.min), false;
    ghost var n, top := Num(r.min), Num(ALL_ONES);
    ScanStart(r, leases);
    var cur := new byte[16](i requires 0 <= i < 16 => r.min[i]);
    var a: Addr := cur[..];
    assert a == r.min;
    var c := In6AddrCmp(a, r.max);
    while c <= 0
      invariant fresh(cur) && cur.Length == 16 && a == cur[..] && n == Num(a) <= top
      invariant c <= 0 <==> n <= Num(r.max)
      invariant Scanned(r, n, lo, wrapped, leases)
      decreases if wrapped then 0 else 1, top - n
    {
      var usable := IsUsable(a, lt);
      if usable {
        ScanFound(r, a, lo, wrapped, leases);
        return Some(a);
      }
      n, lo, wrapped := ScanNext(r, a, lo, wrapped, leases);
      In6AddrInc(cur);
      a := cur[..];
      c := In6AddrCmp(a, r.max);
    }
    ScanNone(r, n, lo, wrapped, leases);
    s := None;
  }

  /** What the search promises of every range: an answer inside the range is the
      least usable address there, and there is one exactly when one exists. */
  lemma {:induction false} SearchIsLeast(r: Range, leases: map<Addr, bool>)
    ensures (exists a :: InRange(r, a) && Usable(a, leases)) <==>
            (Search(r, leases).Some? && InRange(r, Search(r, leases).value))
    ensures Search(r, leases).Some? && InRange(r, Search(r, leases).value) ==>
            IsLeast(Search(r, leases).value, Num(r.min), Num(r.max), leases)
  {
    forall a | InRange(r, a) && Usable(a, leases)
      ensures Search(r, leases).Some? && IsLeast(Search(r, leases).value, Num(r.min), Num(r.max), leases)
    {
      LeastExists(a, Num(r.min), Num(r.max), leases);
    }
  }

  lemma {:induction false} LeastExists(a: Addr, lo: nat, hi: nat, leases: map<Addr, bool>)
    requires lo <= Num(a) <= hi && Usable(a, leases)
    ensures LeastIn(lo, hi, leases).Some?
    decreases Num(a)
  {
    if !IsLeast(a, lo, hi, leases) {
      var b: Addr :| lo <= Num(b) <= hi && Usable(b, leases) && Num(b) < Num(a);
      LeastExists(b, lo, hi, leases);
    }
  }

  /** The answer stays inside the pool exactly when the pool does not end in all
      ones or still has a usable address. */
  lemma {:induction false} SearchStaysInside(r: Range, leases: map<Addr, bool>)
    requires exists a :: Usable(a, leases)
    ensures (Search(r, leases).Some? ==> InRange(r, Search(r, leases).value)) <==>
            (r.max != ALL_ONES || exists a :: InRange(r, a) && Usable(a, leases))
  {
    hide Num, Pow256, Ones;
    SearchIsLeast(r, leases);
    var a :| Usable(a, leases);
    AllOnesIsLargest(a);
    LeastExists(a, 0, Num(ALL_ONES), leases);
  }

  /** A pool that is the single all-ones address hands out `::` instead. */
  lemma {:induction false} AllOnesPoolLeavesRange()
    ensures Search(Range(ALL_ONES, ALL_ONES), map[]) == Some(UNSPECIFIED)
  {
    hide Num, Pow256;
    var r := Range(ALL_ONES, ALL_ONES);
    forall a | InRange(r, a)
      ensures !Usable(a, map[])
    {
      AllOnesIsLargest(a);
    }
    SearchIsLeast(r, map[]);
    ZerosNum(16);
    assert UNSPECIFIED == Zeros(16);
    assert IsLeast(UNSPECIFIED, 0, Num(ALL_ONES), map[]) by { AllOnesIsLargest(UNSPECIFIED); }
    LeastUnique(UNSPECIFIED, 0, Num(ALL_ONES), map[]);
  }

  lemma {:induction false} ZerosNum(n: nat)
    ensures Num(Zeros(n)) == 0
  {
    if n > 0 {
      ZerosNum(n - 1);
      assert Zeros(n)[..n - 1] == Zeros(n - 1);
    }
  }

  /** is_available_in_pool */
  method IsAvailable(r: Range, a: Addr, lt: LeaseTable) returns (yes: bool)
    requires lt.Valid()
    ensures yes == (InRange(r, a) && Usable(a, lt.leases))
  {
    var lo := In6AddrCmp(a, r.min);
    var hi := In6AddrCmp(a, r.max);
    var usable := IsUsable(a, lt);
    yes := lo >= 0 && hi <= 0 && usable;
  }
}
