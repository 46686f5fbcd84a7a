/** The table of leased addresses (lease.c): 256 hash buckets of entries, each
    an address with a mark saying whether a client has declined it. */
module Lease {
  import opened Bytes

  const TABLE_SIZE: nat := 256

  datatype Entry = Entry(addr: Addr, declined: bool)

  function SumBytes(s: seq<byte>): (n: nat)
    ensures n <= 255 * |s|
  {
    if s == [] then 0 else SumBytes(s[..|s| - 1]) + s[|s| - 1]
  }

  function BucketOf(a: Addr): (i: nat)
    ensures i < TABLE_SIZE
  {
    SumBytes(a) % TABLE_SIZE
  }

  /** The hash is the sum of the sixteen bytes; it never reaches 2^32. */
  method In6AddrHash(a: Addr) returns (h: uint32)
    ensures h == SumBytes(a)
  {
    var sum: nat := 0;
    for i := 0 to 16
      invariant sum == SumBytes(a[..i])
    {
      assert a[..i + 1][..i] == a[..i];
      sum := sum + a[i];
    }
    assert a[..16] == a;
    h := sum;
  }

  // What one operation does to the abstract table, and what it answers.
  datatype Op = OpLease(addr: Addr) | OpRelease(addr: Addr) | OpDecline(addr: Addr) | OpIsLeased(addr: Addr)

  function Apply(m: map<Addr, bool>, op: Op): (r: map<Addr, bool>) {
    match op
    case OpLease(a) => if a in m then m else m[a := false]
    case OpRelease(a) => m - {a}
    case OpDecline(a) => if a in m then m[a := true] else m
    case OpIsLeased(a) => m
  }

  predicate Answer(m: map<Addr, bool>, op: Op) {
    match op
    case OpLease(a) => a !in m
    case OpRelease(a) => true
    case OpDecline(a) => true
    case OpIsLeased(a) => a in m
  }

  function ApplyAll(m: map<Addr, bool>, ops: seq<Op>): (r: map<Addr, bool>) {
    if ops == [] then m else Apply(ApplyAll(m, ops[..|ops| - 1]), ops[|ops| - 1])
  }

  lemma {:induction false} ApplyNone(m: map<Addr, bool>, ops: seq<Op>)
    ensures ApplyAll(m, ops[..0]) == m
  {
    assert ops[..0] == [];
  }

  lemma {:induction false} ApplyNext(m: map<Addr, bool>, ops: seq<Op>, i: nat)
    requires i < |ops|
    ensures ApplyAll(m, ops[..i + 1]) == Apply(ApplyAll(m, ops[..i]), ops[i])
  {
    assert ops[..i + 1][..i] == ops[..i];
  }

  ghost predicate Present(b: seq<Entry>, a: Addr) {
    exists k :: 0 <= k < |b| && b[k].addr == a
  }

  // An entry sits in the bucket of its own hash and agrees with the abstract table.
  ghost predicate EntryOk(i: nat, e: Entry, m: map<Addr, bool>) {
    BucketOf(e.addr) == i && e.addr in m && m[e.addr] == e.declined
  }

  /** Bucket `i` holds exactly the members of `m` that hash to `i`, each once. */
  ghost predicate BucketOk(i: nat, b: seq<Entry>, m: map<Addr, bool>) {
    && (forall k :: 0 <= k < |b| ==> EntryOk(i, b[k], m))
    && (forall j, k :: 0 <= j < k < |b| ==> b[j].addr != b[k].addr)
    && (forall a :: a in m && BucketOf(a) == i ==> Present(b, a))
  }

  // The two tables say the same of every address but `a`.
  ghost predicate SameElsewhere(a: Addr, m: map<Addr, bool>, m': map<Addr, bool>) {
    forall x :: x != a ==> (x in m <==> x in m') && (x in m && x in m' ==> m[x] == m'[x])
  }

  lemma {:induction false} OtherBuckets(a: Addr, m: map<Addr, bool>, m': map<Addr, bool>, i: nat, b: seq<Entry>)
    requires SameElsewhere(a, m, m') && BucketOf(a) != i && BucketOk(i, b, m)
    ensures BucketOk(i, b, m')
  {
    assert forall k :: 0 <= k < |b| ==> EntryOk(i, b[k], m) && b[k].addr != a;
  }

  lemma {:induction false} BucketAdd(a: Addr, b: seq<Entry>, m: map<Addr, bool>)
    requires a !in m && BucketOk(BucketOf(a), b, m)
    ensures BucketOk(BucketOf(a), [Entry(a, false)] + b, m[a := false])
  {
    var b' := [Entry(a, false)] + b;
    forall k | 0 <= k < |b'|
      ensures EntryOk(BucketOf(a), b'[k], m[a := false]) && (k > 0 ==> b'[k].addr != a)
    {
      assert k > 0 ==> EntryOk(BucketOf(a), b[k - 1], m);
    }
    forall x | x in m[a := false] && BucketOf(x) == BucketOf(a)
      ensures Present(b', x)
    {
      if x == a {
        assert b'[0].addr == x;
      } else {
        var k :| 0 <= k < |b| && b[k].addr == x;
        assert b'[k + 1].addr == x;
      }
    }
  }

  // Cutting out position `k` renumbers what follows it.
  lemma {:induction false} RemoveAtIndex(b: seq<Entry>, k: nat)
    requires k < |b|
    ensures forall j :: 0 <= j < |b| - 1 ==> RemoveAt(b, k)[j] == b[if j < k then j else j + 1]
    ensures forall a :: Present(b, a) && b[k].addr != a ==> Present(RemoveAt(b, k), a)
  {
    var b' := RemoveAt(b, k);
    forall a | Present(b, a) && b[k].addr != a ensures Present(b', a) {
      var j :| 0 <= j < |b| && b[j].addr == a;
      assert b'[if j < k then j else j - 1].addr == a;
    }
  }

  lemma {:induction false} BucketRemove(a: Addr, b: seq<Entry>, k: nat, m: map<Addr, bool>)
    requires BucketOk(BucketOf(a), b, m) && k < |b| && b[k].addr == a
    ensures BucketOk(BucketOf(a), RemoveAt(b, k), m - {a})
  {
    hide RemoveAt, BucketOf, Present;
    RemoveAtIndex(b, k);
    var b' := RemoveAt(b, k);
    forall j | 0 <= j < |b'| ensures EntryOk(BucketOf(a), b'[j], m - {a}) {
      assert EntryOk(BucketOf(a), b[if j < k then j else j + 1], m);
    }
  }

  lemma {:induction false} BucketDecline(a: Addr, b: seq<Entry>, k: nat, m: map<Addr, bool>)
    requires BucketOk(BucketOf(a), b, m) && k < |b| && b[k].addr == a
    ensures BucketOk(BucketOf(a), b[k := b[k].(declined := true)], m[a := true])
  {
    var b' := b[k := b[k].(declined := true)];
    assert forall j :: 0 <= j < |b| ==> EntryOk(BucketOf(a), b[j], m);
    forall x | x in m[a := true] && BucketOf(x) == BucketOf(a)
      ensures Present(b', x)
    {
      var j :| 0 <= j < |b| && b[j].addr == x;
      assert b'[j].addr == x;
    }
  }

  class LeaseTable {
    var table: array<seq<Entry>>
    // The abstract table: leased address to its declined mark.
    ghost var leases: map<Addr, bool>

    ghost predicate Valid()
      reads this, table
    {
      && table.Length == TABLE_SIZE
      && (forall i :: 0 <= i < TABLE_SIZE ==> BucketOk(i, table[i], leases))
    }

    constructor ()
      ensures Valid() && fresh(table) && leases == map[]
    {
      table := new seq<Entry>[TABLE_SIZE](i => []);
      leases := map[];
    }

    /** hash_table_find: the bucket and the position in it, or -1. */
    method Find(a: Addr) returns (i: nat, k: int)
      requires Valid()
      ensures i == BucketOf(a) && -1 <= k < |table[i]|
      ensures k >= 0 <==> a in leases
      ensures k >= 0 ==> table[i][k].addr == a
    {
      var h := In6AddrHash(a);
      i := h % TABLE_SIZE;
      assert BucketOk(i, table[i], leases);
      k := 0;
      while k < |table[i]|
        invariant 0 <= k <= |table[i]|
        invariant forall j :: 0 <= j < k ==> table[i][j].addr != a
      {
        if table[i][k].addr == a {
          assert EntryOk(i, table[i][k], leases);
          return;
        }
        k := k + 1;
      }
      k := -1;
    }

    // Replace the bucket of `a` and the abstract table together.
    method Put(a: Addr, b: seq<Entry>, ghost m: map<Addr, bool>)
      requires Valid() && SameElsewhere(a, leases, m) && BucketOk(BucketOf(a), b, m)
      modifies this, table
      ensures Valid() && table == old(table) && leases == m
    {
      var h := In6AddrHash(a);
      var i := h % TABLE_SIZE;
      forall j | 0 <= j < TABLE_SIZE && j != i
        ensures BucketOk(j, table[j], m)
      {
        OtherBuckets(a, leases, m, j, table[j]);
      }
      table[i] := b;
      leases := m;
    }

    /** hash_table_add: insert at the head of the bucket. */
    method Add(a: Addr)
      requires Valid() && a !in leases
      modifies this, table
      ensures Valid() && table == old(table)
      ensures leases == old(leases)[a := false]
    {
      var h := In6AddrHash(a);
      var i := h % TABLE_SIZE;
      BucketAdd(a, table[i], leases);
      Put(a, [Entry(a, false)] + table[i], leases[a := false]);
    }

    /** hash_table_remove */
    method Remove(a: Addr)
      requires Valid()
      modifies this, table
      ensures Valid() && table == old(table)
      ensures leases == old(leases) - {a}
    {
      var i, k := Find(a);
      if k < 0 {
        assert leases == leases - {a};
        return;
      }
      BucketRemove(a, table[i], k, leases);
      Put(a, RemoveAt(table[i], k), leases - {a});
    }

    /** lease_address: refused for an address already in the table, declined or not. */
    method LeaseAddress(a: Addr) returns (ok: bool)
      requires Valid()
      modifies this, table
      ensures Valid() && table == old(table)
      ensures ok == Answer(old(leases), OpLease(a))
      ensures leases == Apply(old(leases), OpLease(a))
    {
      var _, k := Find(a);
      if k >= 0 {
        return false;
      }
      Add(a);
      ok := true;
    }

    method ReleaseAddress(a: Addr)
      requires Valid()
      modifies this, table
      ensures Valid() && table == old(table)
      ensures leases == Apply(old(leases), OpRelease(a))
    {
      Remove(a);
    }

    /** decline_address: mark the entry; an unknown address is ignored. */
    method DeclineAddress(a: Addr)
      requires Valid()
      modifies this, table
      ensures Valid() && table == old(table)
      ensures leases == Apply(old(leases), OpDecline(a))
    {
      var i, k := Find(a);
      if k < 0 {
        return;
      }
      BucketDecline(a, table[i], k, leases);
      Put(a, table[i][k := table[i][k].(declined := true)], leases[a := true]);
    }

    method IsLeased(a: Addr) returns (yes: bool)
      requires Valid()
      ensures yes == (a in leases)
    {
      var _, k := Find(a);
      yes := k >= 0;
    }

    method Do(op: Op) returns (ok: bool)
      requires Valid()
      modifies this, table
      ensures Valid() && table == old(table)
      ensures leases == Apply(old(leases), op) && ok == Answer(old(leases), op)
    {
      ok := true;
      match op {
        case OpLease(a) => ok := LeaseAddress(a);
        case OpRelease(a) => ReleaseAddress(a);
        case OpDecline(a) => DeclineAddress(a);
        case OpIsLeased(a) => ok := IsLeased(a);
      }
    }

    /** Any sequence of operations acts on the buckets as it does on the map,
        and answers as the map would. */
    method Replay(ops: seq<Op>) returns (answers: seq<bool>)
      requires Valid()
      modifies this, table
      ensures Valid() && table == old(table)
      ensures leases == ApplyAll(old(leases), ops)
      ensures |answers| == |ops|
      ensures forall i :: 0 <= i < |ops| ==> answers[i] == Answer(ApplyAll(old(leases), ops[..i]), ops[i])
    {
      hide *;
      answers := [];
      ApplyNone(leases, ops);
      for i := 0 to |ops|
        invariant Valid() && table == old(table)
        invariant leases == ApplyAll(old(leases), ops[..i])
        invariant |answers| == i
        invariant forall j :: 0 <= j < i ==> answers[j] == Answer(ApplyAll(old(leases), ops[..j]), ops[j])
      {
        ApplyNext(old(leases), ops, i);
        var ok := Do(ops[i]);
        answers := answers + [ok];
      }
      assert ops[..|ops|] == ops;
    }
  }
}
