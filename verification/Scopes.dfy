/** The addresses a pool never hands out, as the prefixes they are defined by. */
module Scopes {
  import opened Bytes
  import opened Pool
  import opened Wire

  /** Two bytes and fourteen zeros. */
  function Leading(x: byte, y: byte): Addr {
    [x, y] + Zeros(14)
  }

  lemma {:induction false} FirstTwo(a: Addr, n: int, x: byte, y: byte)
    requires 0 <= n <= 16
    ensures Masked(a, n) == Leading(x, y) <==> Masked(a, n)[0] == x && Masked(a, n)[1] == y
  {
    hide MaskByte;
    var m := Masked(a, n);
    forall k | 2 <= k < 16 ensures m[k] == 0 {
      NoBits(a[k]);
    }
    assert Leading(x, y)[0] == x && Leading(x, y)[1] == y;
    assert forall k :: 2 <= k < 16 ==> Leading(x, y)[k] == 0;
  }

  lemma {:induction false} NoBits(b: byte)
    ensures MaskByte(b, 0) == 0
  {
  }

  /** Multicast is ff00::/8, link-local fe80::/10 and site-local fec0::/10; an address is
      usable if and only if it is in none of the three and not leased. */
  lemma {:induction false} UsableIs(a: Addr, leases: map<Addr, bool>)
    ensures IsMulticast(a) <==> Masked(a, 8) == Leading(0xff, 0)
    ensures IsLinkLocal(a) <==> Masked(a, 10) == Leading(0xfe, 0x80)
    ensures IsSiteLocal(a) <==> Masked(a, 10) == Leading(0xfe, 0xc0)
    ensures Usable(a, leases) <==>
            && a !in leases && Masked(a, 8) != Leading(0xff, 0)
            && Masked(a, 10) != Leading(0xfe, 0x80) && Masked(a, 10) != Leading(0xfe, 0xc0)
  {
    FirstTwo(a, 8, 0xff, 0);
    FirstTwo(a, 10, 0xfe, 0x80);
    FirstTwo(a, 10, 0xfe, 0xc0);
  }
}
