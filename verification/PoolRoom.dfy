/** There is always a usable address, for any number of leases a server can hold. */
module PoolRoom {
  import opened Bytes
  import opened Pool

  function BigEndian(n: nat, len: nat): (s: seq<byte>)
    ensures |s| == len
  {
    if len == 0 then [] else BigEndian(n / 256, len - 1) + [n % 256]
  }

  lemma {:induction false} Quotient(n: nat, len: nat)
    requires len > 0 && n < Pow256(len)
    ensures n / 256 < Pow256(len - 1) && n / 256 * 256 + n % 256 == n
  {
  }

  lemma {:induction false} NumOfBigEndian(n: nat, len: nat)
    requires n < Pow256(len)
    ensures Num(BigEndian(n, len)) == n
  {
    if len == 0 {
    } else {
      hide Pow256;
      var s := BigEndian(n, len);
      Quotient(n, len);
      NumOfBigEndian(n / 256, len - 1);
      assert s[..len - 1] == BigEndian(n / 256, len - 1);
      assert Num(s) == Num(s[..len - 1]) * 256 + s[len - 1];
    }
  }

  // The addresses 2000::/8, numbered.
  function Global(n: nat): Addr {
    [0x20] + BigEndian(n, 15)
  }

  lemma {:induction false} GlobalDistinct(j: nat, k: nat)
    requires j < k < Pow256(15)
    ensures Global(j) != Global(k)
  {
    hide Pow256, BigEndian, Num;
    NumOfBigEndian(j, 15);
    NumOfBigEndian(k, 15);
    assert Global(j)[1..] == BigEndian(j, 15) && Global(k)[1..] == BigEndian(k, 15);
  }

  function Globals(n: nat): set<Addr> {
    if n == 0 then {} else Globals(n - 1) + {Global(n - 1)}
  }

  lemma {:induction false} GlobalNumber(n: nat, a: Addr) returns (k: nat)
    requires a in Globals(n)
    ensures k < n && a == Global(k)
  {
    hide Global;
    if a == Global(n - 1) {
      k := n - 1;
    } else {
      k := GlobalNumber(n - 1, a);
    }
  }

  lemma {:induction false} ManyGlobals(n: nat)
    requires n <= Pow256(15)
    ensures |Globals(n)| == n
  {
    hide Pow256, Global;
    if n == 0 {
    } else {
      ManyGlobals(n - 1);
      if Global(n - 1) in Globals(n - 1) {
        var k := GlobalNumber(n - 1, Global(n - 1));
        GlobalDistinct(k, n - 1);
      }
    }
  }

  /** With fewer than 2^120 leases some address is usable, so the search of a pool that
      ends in all ones ends as well. */
  lemma {:induction false} UsableExists(leases: map<Addr, bool>)
    requires |leases| < Pow256(15)
    ensures exists a :: Usable(a, leases)
  {
    hide Pow256, Globals, Global;
    var n := |leases| + 1;
    var s := Globals(n);
    ManyGlobals(n);
    if s <= leases.Keys {
      SubsetSize(s, leases.Keys);
      assert false;
    }
    var a :| a in s && a !in leases;
    var k := GlobalNumber(n, a);
    GlobalIsGlobal(k);
    assert Usable(a, leases);
  }

  lemma {:induction false} GlobalIsGlobal(k: nat)
    ensures Global(k)[0] == 0x20
  {
  }

  lemma {:induction false} SubsetSize(s: set<Addr>, t: set<Addr>)
    requires s <= t
    ensures |s| <= |t|
  {
    if s == {} {
    } else {
      var x :| x in s;
      SubsetSize(s - {x}, t - {x});
    }
  }

  /** A pool that ends in all ones and has no usable address left: the search wraps
      round and hands out the least usable address of all, which lies below the pool. */
  lemma {:induction false} FullPoolWraps(r: Range, leases: map<Addr, bool>)
    requires r.max == ALL_ONES && |leases| < Pow256(15)
    requires !exists a :: InRange(r, a) && Usable(a, leases)
    ensures var s := Search(r, leases);
            s.Some? && Num(s.value) < Num(r.min) && IsLeast(s.value, 0, Num(ALL_ONES), leases)
  {
    hide Pow256, Num;
    UsableExists(leases);
    var a :| Usable(a, leases);
    AllOnesIsLargest(a);
    LeastExists(a, 0, Num(ALL_ONES), leases);
    var b := Search(r, leases).value;
    AllOnesIsLargest(b);
    assert !InRange(r, b);
  }
}
