/** The server's renewal times as the client takes them (dhcp6s.c, dhcp6c_ia.c). */
module Renewal {
  import opened Bytes
  import opened ListVals
  import opened Bindings
  import opened ClientIa

  const WRAP: nat := 0x4000_0000

  // T1 and T2 of the IA option offered for a list of addresses or prefixes.
  function Offered(t: IaType, iaid: uint32, vals: seq<Value>): Times {
    var ia := IaOption(t, iaid, vals).val;
    Times(ia.t1, ia.t2)
  }

  lemma {:induction false} WrappedTimes(base: uint32)
    requires base >= WRAP
    ensures var t2 := base * 4 % TWO32 / 5;
            (t2 == 0 <==> base % WRAP <= 1) && (t2 != 0 ==> t2 < base / 2)
  {
    var k, r := base / WRAP, base % WRAP;
    assert base == k * WRAP + r && 1 <= k <= 3;
    assert base * 4 == k * TWO32 + 4 * r;
    assert base * 4 % TWO32 == 4 * r;
  }

  /** The client takes the server's T1 and T2 exactly when the least preferred
      lifetime is infinite, is below 2^30 seconds, or wraps to a T2 of zero;
      otherwise the wrapped T2 is below T1 and the client drops the whole IA. */
  lemma {:induction false} OfferAccepted(t: IaType, iaid: uint32, vals: seq<Value>)
    ensures var base := MinPltime(vals);
            Acceptable(Offered(t, iaid, vals)) <==> base == INFINITE || base < WRAP || base % WRAP <= 1
  {
    var base := MinPltime(vals);
    if base >= WRAP {
      WrappedTimes(base);
    }
  }

  /** For lifetimes between 38 and 2^30 seconds the client keeps the server's times,
      a half and four fifths of the least preferred lifetime, so it starts Renew and
      Rebind before anything it was given is deprecated. */
  lemma {:induction false} RenewedInTime(t: IaType, iaid: uint32, vals: seq<Value>, duration: Option<uint32>)
    requires 38 <= MinPltime(vals) < WRAP
    ensures var base := MinPltime(vals);
            var times := Adjusted(Offered(t, iaid, vals), duration);
            && times == Times(base / 2, base * 4 / 5)
            && forall k :: 0 <= k < |vals| ==> times.t1 <= times.t2 < Pltime(vals[k])
  {
    var base := MinPltime(vals);
    assert base * 4 % TWO32 == base * 4;
    forall k | 0 <= k < |vals| ensures base * 4 / 5 < Pltime(vals[k]) {
      assert base <= Pltime(vals[k]);
    }
  }
}
