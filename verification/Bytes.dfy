/** Fixed-width integers, byte strings and IPv6 addresses shared by every module. */
module Bytes {

  type byte = n: int | 0 <= n < 0x100
  type uint16 = n: int | 0 <= n < 0x1_0000
  type uint32 = n: int | 0 <= n < 0x1_0000_0000
  type uint64 = n: int | 0 <= n < 0x1_0000_0000_0000_0000

  const TWO32: int := 0x1_0000_0000
  const TWO64: int := 0x1_0000_0000_0000_0000

  datatype Option<+T> = None | Some(value: T)

  /** `n` zero bytes. */
  function Zeros(n: nat): (s: seq<byte>)
    ensures |s| == n && forall k :: 0 <= k < n ==> s[k] == 0
  {
    seq(n, i => 0)
  }

  /** An IPv6 address: the sixteen bytes of `struct in6_addr`. */
  type Addr = a: seq<byte> | |a| == 16 witness Zeros(16)

  const UNSPECIFIED: Addr := Zeros(16)

  /** A DHCP unique identifier is an opaque byte string. */
  type Duid = seq<byte>

  function RemoveAt<T>(s: seq<T>, i: nat): (r: seq<T>)
    requires i < |s|
    ensures |r| == |s| - 1
  {
    s[..i] + s[i + 1..]
  }

  ghost predicate Distinct<T>(s: seq<T>) {
    forall i, j :: 0 <= i < j < |s| ==> s[i] != s[j]
  }

  /** The big-endian value of a byte string. */
  function Num(s: seq<byte>): (n: nat)
  {
    if s == [] then 0 else Num(s[..|s| - 1]) * 256 + s[|s| - 1]
  }

  function Pow256(n: nat): (p: nat)
    ensures p > 0
  {
    if n == 0 then 1 else 256 * Pow256(n - 1)
  }

  lemma {:induction false} NumBound(s: seq<byte>)
    ensures Num(s) < Pow256(|s|)
  {
    if s == [] {
    } else {
      NumBound(s[..|s| - 1]);
    }
  }

  /** Byte strings of one length are determined by their value. */
  lemma {:induction false} NumInjective(s: seq<byte>, t: seq<byte>)
    requires |s| == |t| && Num(s) == Num(t)
    ensures s == t
  {
    if s == [] {
    } else {
      var n := |s| - 1;
      NumInjective(s[..n], t[..n]);
      assert s == s[..n] + [s[n]] && t == t[..n] + [t[n]];
    }
  }
}
