/** The table of dynamic host configurations (config.c): one entry per client
    seen on a pool interface, kept in order of use and bounded in size. */
module Hosts {
  import opened Bytes

  const HOSTCONF_MAX: nat := 1024

  datatype DynHost = DynHost(duid: Duid, hasKey: bool)

  function Without(s: seq<Duid>, d: Duid): (r: seq<Duid>) {
    if s == [] then []
    else if s[|s| - 1] == d then Without(s[..|s| - 1], d)
    else Without(s[..|s| - 1], d) + [s[|s| - 1]]
  }

  lemma {:induction false} WithoutMembers(s: seq<Duid>, d: Duid, x: Duid)
    ensures x in Without(s, d) <==> x in s && x != d
  {
    if s == [] {
    } else {
      WithoutMembers(s[..|s| - 1], d, x);
      assert s == s[..|s| - 1] + [s[|s| - 1]];
    }
  }

  /** The clients of a history of uses, the latest used first. */
  function Recency(uses: seq<Duid>): seq<Duid> {
    if uses == [] then [] else [uses[|uses| - 1]] + Without(Recency(uses[..|uses| - 1]), uses[|uses| - 1])
  }

  /** The at most 1024 most recently used clients. */
  function Recent(uses: seq<Duid>): (t: seq<Duid>)
    ensures |t| <= HOSTCONF_MAX
  {
    var r := Recency(uses);
    if |r| <= HOSTCONF_MAX then r else r[..HOSTCONF_MAX]
  }

  // ---- what the recency order is ----------------------------------------

  /** One past the position of the last use; zero for a client never seen. */
  function LastUse(uses: seq<Duid>, d: Duid): nat {
    if uses == [] then 0
    else if uses[|uses| - 1] == d then |uses|
    else LastUse(uses[..|uses| - 1], d)
  }

  ghost predicate ByLastUse(s: seq<Duid>, uses: seq<Duid>) {
    && (forall i, j :: 0 <= i < j < |s| ==> LastUse(uses, s[i]) > LastUse(uses, s[j]))
    && (forall i :: 0 <= i < |s| ==> 0 < LastUse(uses, s[i]) <= |uses|)
  }

  lemma {:induction false} WithoutKeepsOrder(s: seq<Duid>, d: Duid, uses: seq<Duid>)
    requires ByLastUse(s, uses)
    ensures ByLastUse(Without(s, d), uses)
  {
    if s == [] {
    } else {
      var n := |s| - 1;
      WithoutKeepsOrder(s[..n], d, uses);
      var r := Without(s[..n], d);
      forall i | 0 <= i < |r| ensures LastUse(uses, r[i]) > LastUse(uses, s[n]) {
        WithoutMembers(s[..n], d, r[i]);
        var j :| 0 <= j < n && s[..n][j] == r[i];
        assert s[j] == r[i];
      }
    }
  }

  /** The recency list holds exactly the clients used, ordered by their last use;
      so no client is in it twice. */
  lemma {:induction false} RecencyByLastUse(uses: seq<Duid>)
    ensures ByLastUse(Recency(uses), uses)
    ensures forall d :: d in Recency(uses) <==> d in uses
  {
    if uses == [] {
    } else {
      var n := |uses| - 1;
      var init, d := uses[..n], uses[n];
      RecencyByLastUse(init);
      WithoutKeepsOrder(Recency(init), d, init);
      forall x ensures x in Without(Recency(init), d) <==> x in init && x != d {
        WithoutMembers(Recency(init), d, x);
      }
      FrontByLastUse(Without(Recency(init), d), init, d);
      assert uses == init + [d];
    }
  }

  // A new use goes in front of the others.
  lemma {:induction false} FrontByLastUse(r: seq<Duid>, init: seq<Duid>, d: Duid)
    requires ByLastUse(r, init) && d !in r
    ensures ByLastUse([d] + r, init + [d])
  {
    var uses := init + [d];
    assert uses[..|init|] == init;
    forall i | 0 <= i < |r| ensures LastUse(uses, r[i]) == LastUse(init, r[i]) {
      assert r[i] in r;
    }
  }

  // ---- the steps of the table -------------------------------------------

  lemma {:induction false} WithoutAt(s: seq<Duid>, i: nat)
    requires i < |s| && Distinct(s)
    ensures Without(s, s[i]) == RemoveAt(s, i)
  {
    var n := |s| - 1;
    if i < n {
      WithoutAt(s[..n], i);
      assert RemoveAt(s, i) == RemoveAt(s[..n], i) + [s[n]];
    } else {
      WithoutAbsent(s[..n], s[n]);
      assert RemoveAt(s, n) == s[..n];
    }
  }

  lemma {:induction false} WithoutAbsent(s: seq<Duid>, d: Duid)
    requires d !in s
    ensures Without(s, d) == s
  {
    if s == [] {
    } else {
      assert s == s[..|s| - 1] + [s[|s| - 1]];
      WithoutAbsent(s[..|s| - 1], d);
    }
  }

  lemma {:induction false} WithoutSplit(s: seq<Duid>, t: seq<Duid>, d: Duid)
    ensures Without(s + t, d) == Without(s, d) + Without(t, d)
  {
    if t == [] {
      assert s + t == s;
    } else {
      WithoutSplit(s, t[..|t| - 1], d);
      assert (s + t)[..|s + t| - 1] == s + t[..|t| - 1];
    }
  }

  lemma {:induction false} RecencyDistinct(uses: seq<Duid>)
    ensures Distinct(Recency(uses)) && Distinct(Recent(uses))
  {
    RecencyByLastUse(uses);
  }

  /** Using a client of the table moves it to the front and changes nothing else. */
  lemma {:induction false} UseKnown(uses: seq<Duid>, i: nat)
    requires i < |Recent(uses)|
    ensures var t := Recent(uses); Recent(uses + [t[i]]) == [t[i]] + RemoveAt(t, i)
  {
    var all, t := Recency(uses), Recent(uses);
    var d := t[i];
    RecencyDistinct(uses);
    assert (uses + [d])[..|uses|] == uses;
    WithoutAt(all, i);
    assert Recency(uses + [d]) == [d] + RemoveAt(all, i);
    assert |all| > HOSTCONF_MAX ==> ([d] + RemoveAt(all, i))[..HOSTCONF_MAX] == [d] + RemoveAt(t, i);
  }

  /** Using a client not in the table puts it in front, at the cost of the least
      recently used one when the table is full. */
  lemma {:induction false} UseNew(uses: seq<Duid>, d: Duid)
    requires d !in Recent(uses)
    ensures var t := Recent(uses);
            Recent(uses + [d]) == [d] + if |t| < HOSTCONF_MAX then t else t[..HOSTCONF_MAX - 1]
  {
    var all, t := Recency(uses), Recent(uses);
    assert (uses + [d])[..|uses|] == uses;
    var rest := all[|t|..];
    assert all == t + rest;
    WithoutSplit(t, rest, d);
    WithoutAbsent(t, d);
    assert Recency(uses + [d]) == [d] + (t + Without(rest, d));
    if |t| < HOSTCONF_MAX {
      assert rest == [];
    } else {
      assert ([d] + (t + Without(rest, d)))[..HOSTCONF_MAX] == [d] + t[..HOSTCONF_MAX - 1];
    }
  }

  /** The entry given up by a full table: the last one without a key, or the last. */
  method Victim(hosts: seq<DynHost>) returns (i: nat)
    requires hosts != []
    ensures i < |hosts|
    ensures if forall k :: 0 <= k < |hosts| ==> hosts[k].hasKey then i == |hosts| - 1
            else !hosts[i].hasKey && forall k :: i < k < |hosts| ==> hosts[k].hasKey
  {
    var j := |hosts| - 1;
    while j >= 0 && hosts[j].hasKey
      invariant -1 <= j < |hosts|
      invariant forall k :: j < k < |hosts| ==> hosts[k].hasKey
    {
      j := j - 1;
    }
    i := if j < 0 then |hosts| - 1 else j;
  }

  function DuidsOf(hosts: seq<DynHost>): (r: seq<Duid>)
    ensures |r| == |hosts| && forall k :: 0 <= k < |r| ==> r[k] == hosts[k].duid
  {
    seq(|hosts|, i requires 0 <= i < |hosts| => hosts[i].duid)
  }

  lemma {:induction false} DuidsMoved(hosts: seq<DynHost>, i: nat, h: DynHost)
    requires i < |hosts|
    ensures DuidsOf([h] + RemoveAt(hosts, i)) == [h.duid] + RemoveAt(DuidsOf(hosts), i)
    ensures DuidsOf([h] + hosts) == [h.duid] + DuidsOf(hosts)
  {
  }

  ghost predicate Keyless(hosts: seq<DynHost>) {
    forall k :: 0 <= k < |hosts| ==> !hosts[k].hasKey
  }

  lemma {:induction false} KeylessMoved(hosts: seq<DynHost>, i: nat)
    requires i < |hosts| && Keyless(hosts)
    ensures Keyless([hosts[i]] + RemoveAt(hosts, i))
  {
  }

  lemma {:induction false} LastRemoved(hosts: seq<DynHost>)
    requires hosts != [] && Keyless(hosts)
    ensures var n := |hosts| - 1;
            DuidsOf(RemoveAt(hosts, n)) == DuidsOf(hosts)[..n] && Keyless(RemoveAt(hosts, n)) && !hosts[n].hasKey
  {
  }

  class HostTable {
    var hosts: seq<DynHost>
    var count: nat
    // Every use so far: a lookup that succeeded or a creation.
    ghost var uses: seq<Duid>

    ghost predicate Valid()
      reads this
    {
      count == |hosts| && DuidsOf(hosts) == Recent(uses) && Keyless(hosts)
    }

    constructor ()
      ensures Valid() && uses == []
    {
      hosts, count, uses := [], 0, [];
    }

    /** find_dynamic_hostconf: a hit moves the entry to the front. */
    method Find(d: Duid) returns (found: bool)
      requires Valid()
      modifies this
      ensures Valid() && found == (d in Recent(old(uses)))
      ensures uses == if found then old(uses) + [d] else old(uses)
    {
      hide Recent, RemoveAt;
      var i := 0;
      while i < |hosts|
        invariant 0 <= i <= |hosts|
        invariant forall k :: 0 <= k < i ==> hosts[k].duid != d
      {
        if hosts[i].duid == d {
          UseKnown(uses, i);
          DuidsMoved(hosts, i, hosts[i]);
          KeylessMoved(hosts, i);
          hosts := [hosts[i]] + RemoveAt(hosts, i);
          uses := uses + [d];
          return true;
        }
        i := i + 1;
      }
      assert d !in DuidsOf(hosts);
      found := false;
    }

    /** create_dynamic_hostconf, for a client that is not in the table: a full
        table gives up the last entry that has no key, or the last one. */
    method Create(d: Duid)
      requires Valid() && d !in Recent(uses)
      modifies this
      ensures Valid() && uses == old(uses) + [d] && hosts[0].duid == d
    {
      hide Recent, RemoveAt;
      UseNew(uses, d);
      var h := DynHost(d, false);
      if count >= HOSTCONF_MAX {
        var i := Victim(hosts);
        LastRemoved(hosts);
        hosts := RemoveAt(hosts, i);
        count := count - 1;
      }
      assert DuidsOf([h] + hosts) == [d] + DuidsOf(hosts);
      hosts := [h] + hosts;
      count := count + 1;
      uses := uses + [d];
    }
  }

}
