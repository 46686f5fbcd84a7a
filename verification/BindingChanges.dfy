/** What each change of a binding comes to (dhcp6s.c): removing one, taking values out
    of one, and restarting its lifetimes. */
module BindingChanges {
  import opened Bytes
  import opened ListVals
  import opened Bindings
  import opened BindingInvariants
  import opened ServerRuns
  import opened ServerReplies
  import opened ServerMessages
  import opened Twinless

  // ---- removal -----------------------------------------------------------

  // A binding under another key is found as before.
  lemma {:induction false} OthersFound(bs: seq<Binding>, i: nat, duid: Duid, t: IaType, iaid: uint32)
    requires i < |bs| && !HasKey(bs[i], duid, t, iaid)
    ensures var j, k := FindBinding(bs, duid, t, iaid), FindBinding(RemoveAt(bs, i), duid, t, iaid);
            (k >= 0 <==> j >= 0) && (j >= 0 ==> RemoveAt(bs, i)[k] == bs[j])
  {
    hide FindBinding;
    FindRemoved(bs, i, duid, t, iaid);
    assert FindBinding(bs, duid, t, iaid) != i;
  }

  lemma {:induction false} RemovedNotFound(bs: seq<Binding>, i: nat)
    requires i < |bs| && UniqueKeys(bs)
    ensures FindBinding(RemoveAt(bs, i), bs[i].duid, bs[i].iatype, bs[i].iaid) < 0
  {
    hide FindBinding;
    var b, r := bs[i], RemoveAt(bs, i);
    forall k | 0 <= k < |r| ensures !HasKey(r[k], b.duid, b.iatype, b.iaid) {
      var j := if k < i then k else k + 1;
      assert r[k] == bs[j];
      assert if j < i then !SameKey(bs[j], bs[i]) else !SameKey(bs[i], bs[j]);
    }
  }

  /** remove_binding: the binding is gone, every other one is found as before, and
      exactly the addresses it held as an IA_NA are free again. */
  lemma {:induction false} RemovalIsExact(st: State, i: nat, duid: Duid, t: IaType, iaid: uint32, a: Addr)
    requires Inv(st) && i < |st.bindings|
    ensures var b, st' := st.bindings[i], RemoveBinding(st, i);
            var j, k := FindBinding(st.bindings, duid, t, iaid), FindBinding(st'.bindings, duid, t, iaid);
            && |st'.bindings| == |st.bindings| - 1
            && (HasKey(b, duid, t, iaid) ==> k < 0)
            && (!HasKey(b, duid, t, iaid) ==>
                  (k >= 0 <==> j >= 0) && (j >= 0 ==> st'.bindings[k] == st.bindings[j]))
            && (a in st.leases && a !in st'.leases <==> b.iatype == NA && a in AddrSet(b.vals))
            && (a in st'.leases ==> a in st.leases && st'.leases[a] == st.leases[a])
  {
    hide FindBinding, AddrSet, Held;
    var b := st.bindings[i];
    if HasKey(b, duid, t, iaid) {
      RemovedNotFound(st.bindings, i);
    } else {
      OthersFound(st.bindings, i, duid, t, iaid);
    }
    if b.iatype == NA {
      HeldIsLeased(st, i, a);
      CountPositive(b.vals, a);
    }
  }

  /** The control command "remove": the client's IA_PD of that identifier goes if there is
      one, otherwise its IA_NA; after two of them neither is left. */
  lemma {:induction false} RemoveTwice(st: State, duid: Duid, iaid: uint32)
    requires Inv(st)
    ensures var st1 := Step(st, Remove(duid, iaid));
            var st2 := Step(st1, Remove(duid, iaid));
            && FindBinding(st1.bindings, duid, PD, iaid) < 0
            && (FindBinding(st.bindings, duid, PD, iaid) < 0 ==> FindBinding(st1.bindings, duid, NA, iaid) < 0)
            && FindBinding(st2.bindings, duid, PD, iaid) < 0 && FindBinding(st2.bindings, duid, NA, iaid) < 0
  {
    hide Inv;
    var st1 := Step(st, Remove(duid, iaid));
    RemoveOnce(st, duid, iaid);
    RemoveOnce(st1, duid, iaid);
  }

  lemma {:induction false} RemoveOnce(st: State, duid: Duid, iaid: uint32)
    requires Inv(st)
    ensures var st' := Step(st, Remove(duid, iaid));
            && Inv(st') && FindBinding(st'.bindings, duid, PD, iaid) < 0
            && (FindBinding(st.bindings, duid, PD, iaid) < 0 ==> FindBinding(st'.bindings, duid, NA, iaid) < 0)
  {
    hide Inv, FindBinding, RemoveBinding, Sound;
    StepSound(st, Remove(duid, iaid));
    IsSound(st, Step(st, Remove(duid, iaid)));
    var i := RemoveTarget(st.bindings, duid, iaid);
    if i >= 0 {
      RemovalIsExact(st, i, duid, PD, iaid, UNSPECIFIED);
      RemovalIsExact(st, i, duid, NA, iaid, UNSPECIFIED);
    }
  }

  // ---- values taken out --------------------------------------------------

  predicate IsNamed(v: Value, hints: seq<Value>) {
    exists k :: 0 <= k < |hints| && Matches(v, hints[k])
  }

  /** The values no hint names, in their order. */
  function Unnamed(vals: seq<Value>, hints: seq<Value>): seq<Value> {
    if vals == [] then []
    else if IsNamed(vals[0], hints) then Unnamed(vals[1..], hints)
    else [vals[0]] + Unnamed(vals[1..], hints)
  }

  lemma {:induction false} NamedMore(v: Value, hints: seq<Value>, h: Value)
    ensures IsNamed(v, hints + [h]) <==> IsNamed(v, hints) || Matches(v, h)
  {
    var all := hints + [h];
    assert all[|hints|] == h && forall k :: 0 <= k < |hints| ==> all[k] == hints[k];
  }

  lemma {:induction false} UnnamedIn(vals: seq<Value>, hints: seq<Value>, v: Value)
    ensures v in Unnamed(vals, hints) <==> v in vals && !IsNamed(v, hints)
  {
    hide IsNamed;
    if vals == [] {
    } else {
      UnnamedIn(vals[1..], hints, v);
      assert vals == [vals[0]] + vals[1..];
    }
  }

  lemma {:induction false} AllUnnamed(vals: seq<Value>)
    ensures Unnamed(vals, []) == vals
  {
    if vals == [] {
    } else {
      AllUnnamed(vals[1..]);
    }
  }

  lemma {:induction false} SameKind(v: Value, w: Value, h: Value, t: IaType)
    requires Typed([v], t) && Typed([w], t) && Matches(v, h) && Matches(w, h)
    ensures Matches(v, w)
  {
    assert [v][0] == v && [w][0] == w;
  }

  lemma {:induction false} NotTwins(vals: seq<Value>, j: nat, k: nat)
    requires NoTwins(vals) && j < k < |vals|
    ensures !Matches(vals[j], vals[k])
  {
  }

  // Two values of a list that answer to one key would be twins.
  lemma {:induction false} KeyOnce(vals: seq<Value>, t: IaType, j: nat, k: nat, h: Value)
    requires NoTwins(vals) && Typed(vals, t) && j < |vals| && k < |vals|
    requires Matches(vals[j], h) && Matches(vals[k], h)
    ensures j == k
  {
    hide NoTwins, Matches;
    SameKind(vals[j], vals[k], h, t);
    SameKind(vals[k], vals[j], h, t);
    if j < k {
      NotTwins(vals, j, k);
    } else if k < j {
      NotTwins(vals, k, j);
    }
  }

  lemma {:induction false} TailNoTwins(vals: seq<Value>)
    requires vals != [] && NoTwins(vals)
    ensures NoTwins(vals[1..])
  {
    hide Matches;
  }

  lemma {:induction false} FindBehind(v: Value, u: seq<Value>, h: Value)
    requires !Matches(v, h)
    ensures Find([v] + u, h) == if Find(u, h) < 0 then -1 else Find(u, h) + 1
  {
    hide Matches;
    assert ([v] + u)[1..] == u;
  }

  lemma {:induction false} RemoveBehind(v: Value, u: seq<Value>, h: Value)
    requires !Matches(v, h)
    ensures RemoveMatch([v] + u, h) == [v] + RemoveMatch(u, h)
  {
    hide Matches, Find;
    FindBehind(v, u, h);
    var i := Find(u, h);
    if i >= 0 {
      assert RemoveAt([v] + u, i + 1) == [v] + RemoveAt(u, i);
    }
  }

  lemma {:induction false} RemoveFirst(v: Value, u: seq<Value>, h: Value)
    requires Matches(v, h)
    ensures RemoveMatch([v] + u, h) == u
  {
    assert RemoveAt([v] + u, 0) == u;
  }

  // With the first value taken, the key finds nothing else.
  lemma {:induction false} NothingElse(vals: seq<Value>, hints: seq<Value>, h: Value, t: IaType)
    requires vals != [] && NoTwins(vals) && Typed(vals, t) && Matches(vals[0], h)
    ensures var u := Unnamed(vals[1..], hints); RemoveMatch(u, h) == u
  {
    hide IsNamed, NoTwins, Matches, Unnamed;
    var u := Unnamed(vals[1..], hints);
    if Find(u, h) >= 0 {
      UnnamedIn(vals[1..], hints, u[Find(u, h)]);
      var k :| 0 < k < |vals| && vals[k] == u[Find(u, h)];
      KeyOnce(vals, t, 0, k, h);
    }
  }

  lemma {:induction false} OneMoreNamed(vals: seq<Value>, hints: seq<Value>, h: Value, t: IaType)
    requires NoTwins(vals) && Typed(vals, t)
    ensures RemoveMatch(Unnamed(vals, hints), h) == Unnamed(vals, hints + [h])
  {
    if vals == [] {
    } else {
      hide IsNamed, NoTwins, Matches, RemoveMatch;
      TailNoTwins(vals);
      OneMoreNamed(vals[1..], hints, h, t);
      NamedMore(vals[0], hints, h);
      if IsNamed(vals[0], hints) {
      } else if Matches(vals[0], h) {
        RemoveFirst(vals[0], Unnamed(vals[1..], hints), h);
        NothingElse(vals, hints, h, t);
      } else {
        RemoveBehind(vals[0], Unnamed(vals[1..], hints), h);
      }
    }
  }

  /** Taking the hints of a Release or Decline out of a binding, one after the other,
      leaves exactly the values no hint names, in their order. */
  lemma {:induction false} CutLeaves(vals: seq<Value>, hints: seq<Value>, t: IaType)
    requires NoTwins(vals) && Typed(vals, t)
    ensures Cut(vals, hints).0 == Unnamed(vals, hints)
  {
    hide NoTwins, Unnamed;
    if hints == [] {
      AllUnnamed(vals);
    } else {
      var n := |hints| - 1;
      CutLeaves(vals, hints[..n], t);
      OneMoreNamed(vals, hints[..n], hints[n], t);
      assert hints == hints[..n] + [hints[n]];
    }
  }

  /** The same for the configured values, when an IA is answered from its binding. */
  lemma {:induction false} ConfiguredLeft(conf: seq<Value>, keys: seq<Value>, t: IaType)
    requires NoTwins(conf) && Typed(conf, t)
    ensures RemoveMatches(conf, keys) == Unnamed(conf, keys)
  {
    hide NoTwins, Unnamed, RemoveMatch;
    if keys == [] {
      AllUnnamed(conf);
    } else {
      var n := |keys| - 1;
      ConfiguredLeft(conf, keys[..n], t);
      OneMoreNamed(conf, keys[..n], keys[n], t);
      assert keys == keys[..n] + [keys[n]];
    }
  }

  /** A Release of addresses or prefixes: the client's IA keeps exactly the values not
      named, and if there is none it is gone; nothing else about it changes.  Releasing
      prefixes touches no lease, and an IA without a binding nothing at all. */
  lemma {:induction false} ReleaseLeaves(st: State, duid: Duid, ia: IaSpec)
    requires Inv(st) && NoTwinPrefixes(st)
    ensures var i, st' := FindBinding(st.bindings, duid, ia.iatype, ia.iaid), ReleaseIa(st, duid, ia);
            && (i < 0 ==> st' == st)
            && (ia.iatype == PD ==> st'.leases == st.leases)
            && (i >= 0 ==>
                  var left := Unnamed(st.bindings[i].vals, ia.hints);
                  st'.bindings == if left == [] then RemoveAt(st.bindings, i)
                                  else st.bindings[i := st.bindings[i].(vals := left)])
  {
    hide Inv, NoTwinPrefixes, FindBinding, Cut, Unnamed, AddrSet;
    var i := FindBinding(st.bindings, duid, ia.iatype, ia.iaid);
    if i >= 0 {
      InvTyped(st, i);
      BindingNoTwins(st, i);
      CutLeaves(st.bindings[i].vals, ia.hints, ia.iatype);
    }
  }

  /** Releasing all that an IA holds removes it. */
  lemma {:induction false} ReleaseAll(st: State, duid: Duid, ia: IaSpec)
    requires Inv(st) && NoTwinPrefixes(st) && FindBinding(st.bindings, duid, ia.iatype, ia.iaid) >= 0
    requires forall v ::
      v in st.bindings[FindBinding(st.bindings, duid, ia.iatype, ia.iaid)].vals ==> IsNamed(v, ia.hints)
    ensures FindBinding(ReleaseIa(st, duid, ia).bindings, duid, ia.iatype, ia.iaid) < 0
  {
    hide Inv, NoTwinPrefixes, ReleaseIa, Unnamed, IsNamed, FindBinding;
    ReleaseLeaves(st, duid, ia);
    var i := FindBinding(st.bindings, duid, ia.iatype, ia.iaid);
    var left := Unnamed(st.bindings[i].vals, ia.hints);
    if left != [] {
      UnnamedIn(st.bindings[i].vals, ia.hints, left[0]);
    }
    KeysUnique(st);
    RemovedNotFound(st.bindings, i);
  }

  lemma {:induction false} KeysUnique(st: State)
    requires Inv(st)
    ensures UniqueKeys(st.bindings)
  {
  }

  // ---- lifetimes restarted -----------------------------------------------

  /** A renewed binding: its lifetimes count from now and it keeps its key and values.
      Its timer is set for the first finite lifetime to run out if and only if there is
      one and none of them is zero; if all are infinite the timer is left alone. */
  lemma {:induction false} RenewalIsExact(b: Binding, now: int)
    requires b.vals != []
    ensures var r := Renewed(b, now);
            && r.updatetime == now && SameKey(r, b) && r.vals == b.vals
            && (IsNextExpiry(r, 0, now) <==>
                  HasFinite(b.vals) && forall k :: 0 <= k < |b.vals| ==> Vltime(b.vals[k]) > 0)
            && (!HasFinite(b.vals) ==> r.duration == INFINITE && r.timer == b.timer)
  {
    if forall k :: 0 <= k < |b.vals| ==> Vltime(b.vals[k]) > 0 {
      forall v | v in b.vals ensures !Expired(v, 0) {
      }
      NextExpiry(b.vals, 0);
      MinLifetimeIsLeast(b.vals);
    }
  }

  /** A new binding counts its lifetimes from now and expects the first to run out after
      the same time as a renewed one, but its timer is never set for that: it is set for
      the largest 32-bit number of seconds, or not at all if every lifetime is infinite. */
  lemma {:induction false} FirstTimerLate(duid: Duid, t: IaType, iaid: uint32, vals: seq<Value>, now: int)
    requires vals != []
    ensures var b := NewBinding(duid, t, iaid, vals, now);
            && HasKey(b, duid, t, iaid) && b.vals == vals && b.updatetime == now
            && b.duration == Renewed(b, now).duration && !IsNextExpiry(b, 0, now)
            && (HasFinite(vals) && (forall k :: 0 <= k < |vals| ==> Vltime(vals[k]) > 0) ==>
                  b.timer == Some(now + INFINITE) && b.duration < INFINITE)
            && (!HasFinite(vals) ==> b.timer == None)
  {
    if forall k :: 0 <= k < |vals| ==> Vltime(vals[k]) > 0 {
      forall v | v in vals ensures !Expired(v, 0) {
      }
      NextExpiry(vals, 0);
      MinLifetimeIsLeast(vals);
    }
  }

  /** A value lasts its full lifetime from the last update of its binding: the timer,
      whenever it runs, drops a finite one if and only if that much time has passed. */
  lemma {:induction false} LastsItsTime(st: State, i: nat, later: int, v: Value)
    requires Inv(st) && i < |st.bindings| && v in st.bindings[i].vals
    requires st.bindings[i].updatetime <= later < st.bindings[i].updatetime + TWO32
    ensures var st' := Timeout(st, i, later);
            (Vltime(v) == INFINITE || later < st.bindings[i].updatetime + Vltime(v)) <==>
              |st'.bindings| == |st.bindings| && v in st'.bindings[i].vals
  {
    hide Inv, Live, ExpiredAddrs, Duration;
    var b := st.bindings[i];
    TimeoutIsExact(st, i, later);
    assert (later - b.updatetime) % TWO32 == later - b.updatetime;
    if |Timeout(st, i, later).bindings| < |st.bindings| {
      assert Expired(v, Past(later, b.updatetime));
    }
  }

  /** The times offered with an IA are taken from the least preferred lifetime in it. */
  lemma {:induction false} LeastPreferred(vals: seq<Value>)
    requires vals != []
    ensures exists k :: 0 <= k < |vals| && Pltime(vals[k]) == MinPltime(vals)
    ensures forall k :: 0 <= k < |vals| ==> MinPltime(vals) <= Pltime(vals[k])
  {
    var n := |vals| - 1;
    if n == 0 {
      assert vals[..0] == [];
      assert Pltime(vals[0]) == MinPltime(vals);
    } else {
      LeastPreferred(vals[..n]);
      var k :| 0 <= k < n && Pltime(vals[..n][k]) == MinPltime(vals[..n]);
      assert vals[..n][k] == vals[k];
      assert MinPltime(vals) == Pltime(vals[n]) || MinPltime(vals) == Pltime(vals[k]);
    }
  }
}
