/** Renew, Rebind, Confirm and the reports of Release and Decline (dhcp6s.c): which
    bindings are renewed, when a message is dropped, and what the client is told. */
module ServerUpdates {
  import opened Bytes
  import opened ListVals
  import opened Bindings
  import opened BindingInvariants
  import opened ServerRuns
  import opened ServerMessages
  import opened Server

  // ---- Renew and Rebind --------------------------------------------------

  lemma {:induction false} UpdateRenewsOne(st: State, duid: Duid, ia: IaSpec, now: int)
    requires UniqueKeys(st.bindings)
    ensures OnlyRenewed(st, UpdateIa(st, duid, ia, now), duid, [ia], now)
  {
    hide Renewed;
    var i := FindBinding(st.bindings, duid, ia.iatype, ia.iaid);
    forall j | 0 <= j < |st.bindings| ensures NamedBy(st.bindings[j], duid, [ia]) <==> i == j {
      assert [ia][0] == ia;
      assert i < j && i >= 0 ==> !SameKey(st.bindings[i], st.bindings[j]);
    }
  }

  // An IA of the message has no binding.
  predicate Unbound(bs: seq<Binding>, duid: Duid, ia: IaSpec) {
    FindBinding(bs, duid, ia.iatype, ia.iaid) < 0
  }

  // The IAs in front of the first one without a binding, or all of them.
  function BoundFirst(bs: seq<Binding>, duid: Duid, ias: seq<IaSpec>): (n: nat)
    ensures n <= |ias|
    ensures forall k :: 0 <= k < n ==> !Unbound(bs, duid, ias[k])
    ensures n < |ias| ==> Unbound(bs, duid, ias[n])
  {
    if ias == [] || Unbound(bs, duid, ias[0]) then 0 else 1 + BoundFirst(bs, duid, ias[1..])
  }

  lemma {:induction false} BoundAll(bs: seq<Binding>, duid: Duid, ias: seq<IaSpec>, n: nat)
    requires n <= |ias|
    ensures var k, m := BoundFirst(bs, duid, ias), BoundFirst(bs, duid, ias[..n]); m == if k < n then k else n
  {
    hide Unbound;
    var k, m := BoundFirst(bs, duid, ias), BoundFirst(bs, duid, ias[..n]);
    assert m < n ==> ias[..n][m] == ias[m];
    assert k < n ==> ias[..n][k] == ias[k];
  }

  /** A Renew renews exactly the bindings its IAs name.  A Rebind does so up to the first
      IA without a binding, where it is dropped, and is answered if and only if there is
      none.  No lease, key or value changes. */
  lemma {:induction false} UpdateRenews(st: State, duid: Duid, ias: seq<IaSpec>, stop: bool, now: int)
    requires UniqueKeys(st.bindings)
    ensures var r := UpdateIas(st, duid, ias, stop, now);
            var n := if stop then BoundFirst(st.bindings, duid, ias) else |ias|;
            && OnlyRenewed(st, r.0, duid, ias[..n], now)
            && (r.1 <==> n == |ias|)
  {
    hide OnlyRenewed, UniqueKeys, BoundFirst, UpdateIa;
    if ias == [] {
      NoneRenewed(st, duid, now);
    } else {
      var k := |ias| - 1;
      var n := BoundFirst(st.bindings, duid, ias);
      UpdateRenews(st, duid, ias[..k], stop, now);
      BoundAll(st.bindings, duid, ias, k);
      var st1 := UpdateIas(st, duid, ias[..k], stop, now).0;
      AnswerKept(st, duid, ias[..k], stop, now, ias[k]);
      if stop && n <= k {
        assert ias[..k][..n] == ias[..n];
      } else {
        assert ias[..k][..k] == ias[..k];
        RenewedKeys(st, st1, duid, ias[..k], now);
        UpdateRenewsOne(st1, duid, ias[k], now);
        RenewsAdd(st, st1, UpdateIa(st1, duid, ias[k], now), duid, ias[..k], [ias[k]], now);
        assert ias[..k] + [ias[k]] == ias && ias[..|ias|] == ias;
      }
    }
  }

  /** The same for the whole events. */
  lemma {:induction false} UpdateSteps(st: State, duid: Duid, ias: seq<IaSpec>, now: int)
    requires Inv(st)
    ensures OnlyRenewed(st, Step(st, Renew(duid, ias, now)), duid, ias, now)
    ensures OnlyRenewed(st, Step(st, Rebind(duid, ias, now)), duid, ias[..BoundFirst(st.bindings, duid, ias)], now)
  {
    hide OnlyRenewed, UpdateIas, BoundFirst;
    UpdateRenews(st, duid, ias, false, now);
    UpdateRenews(st, duid, ias, true, now);
    assert ias[..|ias|] == ias;
  }

  // ---- Confirm -----------------------------------------------------------

  /** The first eight bytes agree. */
  predicate SameLink(a: Addr, link: Addr) {
    forall b :: 0 <= b < 8 ==> a[b] == link[b]
  }

  /** An IA that names addresses, all of them on the link. */
  predicate Local(ia: IaSpec, link: Addr) {
    ia.hints != [] && forall k :: 0 <= k < |ia.hints| ==> SameLink(HintAddr(ia.hints[k]), link)
  }

  lemma {:induction false} LocalIs(ia: IaSpec, link: Addr)
    ensures Local(ia, link) <==> IaOnLink(ia, link)
  {
    hide HintAddr;
    forall k | 0 <= k < |ia.hints|
      ensures SameLink(HintAddr(ia.hints[k]), link) <==> HintAddr(ia.hints[k])[..8] == link[..8]
    {
      LinkBytes(HintAddr(ia.hints[k]), link);
    }
  }

  lemma {:induction false} LinkBytes(a: Addr, link: Addr)
    ensures SameLink(a, link) <==> a[..8] == link[..8]
  {
    if a[..8] == link[..8] {
      assert forall b :: 0 <= b < 8 ==> a[..8][b] == a[b] && link[..8][b] == link[b];
    }
  }

  // The first IA that is not on the link.
  predicate FirstForeign(ias: seq<IaSpec>, link: Addr, i: int) {
    0 <= i < |ias| && !Local(ias[i], link) && forall j :: 0 <= j < i ==> Local(ias[j], link)
  }

  lemma {:induction false} LinkDecided(ias: seq<IaSpec>, link: Addr)
    ensures LinkCheck(ias, link) == On <==> forall j :: 0 <= j < |ias| ==> Local(ias[j], link)
    ensures LinkCheck(ias, link) == Off <==> exists i :: FirstForeign(ias, link, i) && ias[i].hints != []
  {
    hide Local, IaOnLink;
    if ias == [] {
    } else {
      var rest := ias[1..];
      LocalIs(ias[0], link);
      NoHintsIsOff(ias[0], link);
      LinkDecided(rest, link);
      assert forall j :: 1 <= j < |ias| ==> ias[j] == rest[j - 1];
      if !Local(ias[0], link) {
        assert FirstForeign(ias, link, 0);
      } else {
        Foreign(ias, link);
      }
    }
  }

  lemma {:induction false} Foreign(ias: seq<IaSpec>, link: Addr)
    requires ias != [] && Local(ias[0], link)
    ensures forall i :: FirstForeign(ias, link, i) <==> FirstForeign(ias[1..], link, i - 1)
  {
    hide Local;
    assert forall j :: 1 <= j < |ias| ==> ias[j] == ias[1..][j - 1];
    forall i ensures FirstForeign(ias, link, i) <==> FirstForeign(ias[1..], link, i - 1) {
      if FirstForeign(ias[1..], link, i - 1) {
        forall j | 0 <= j < i ensures Local(ias[j], link) {
          assert j > 0 ==> Local(ias[1..][j - 1], link);
        }
      }
      if FirstForeign(ias, link, i) {
        forall j | 0 <= j < i - 1 ensures Local(ias[1..][j], link) {
          assert Local(ias[j + 1], link);
        }
      }
    }
  }

  /** A Confirm is answered NotOnLink if and only if the first IA that is not wholly on the
      link names an address at all, and with success if and only if there are IAs, all on
      the link, and each could be met.  Unless all are on the link nothing changes. */
  lemma {:induction false} ConfirmDecided(st: State, host: Host, pools: Pools, iana: seq<IaSpec>, link: Addr, now: int)
    ensures var r := ConfirmAnswer(st, host, pools, iana, link, now);
            var made := MakeIas(st, host.addrs, iana, host, pools, true, true, now).replies;
            && (r == NotOnLink <==> exists i :: FirstForeign(iana, link, i) && iana[i].hints != [])
            && (r.Answered? <==>
                  iana != [] && (forall j :: 0 <= j < |iana| ==> Local(iana[j], link)) && None !in made)
            && ((exists j :: 0 <= j < |iana| && !Local(iana[j], link)) ==>
                  Step(st, Confirm(host, pools, iana, link, now)) == st)
  {
    hide Local, IaOnLink, MakeIas, LinkCheck;
    LinkDecided(iana, link);
    OnLinkIs(iana, link);
    NoIasOnLink(link);
  }

  lemma {:induction false} NoIasOnLink(link: Addr)
    ensures LinkCheck([], link) == On
  {
  }

  // All but the last of the options were made.
  predicate StoppedLast(replies: seq<Option<ListVal>>) {
    forall k :: 0 <= k < |replies| - 1 ==> replies[k].Some?
  }

  // One more IA when the message may stop.
  lemma {:induction false} StopNext(st: State, conf: seq<Value>, ias: seq<IaSpec>, host: Host, pools: Pools, now: int)
    requires ias != []
    ensures var r := MakeIas(st, conf, ias[..|ias| - 1], host, pools, true, true, now);
            MakeIas(st, conf, ias, host, pools, true, true, now) ==
            if None in r.replies then r
            else
              var m := MakeIa(r.st, r.conf, ias[|ias| - 1], host, pools, true, now);
              MadeAll(m.st, m.conf, r.replies + [m.reply])
  {
    hide MakeIa;
  }

  lemma {:induction false} NoneToStop(st: State, conf: seq<Value>, host: Host, pools: Pools, now: int)
    ensures MakeIas(st, conf, [], host, pools, true, true, now) == MadeAll(st, conf, [])
    ensures MakeIas(st, conf, [], host, pools, true, false, now) == MadeAll(st, conf, []) && StoppedLast([])
  {
  }

  lemma {:induction false} StoppedNext(replies: seq<Option<ListVal>>, reply: Option<ListVal>)
    requires None !in replies
    ensures StoppedLast(replies + [reply])
  {
    forall k | 0 <= k < |replies| ensures (replies + [reply])[k].Some? {
      assert replies[k] in replies;
    }
  }

  /** The IAs of a Confirm are met like those of a Request, one after the other, up to and
      including the first that cannot be. */
  lemma {:induction false} ConfirmStops(st: State, conf: seq<Value>, ias: seq<IaSpec>, host: Host, pools: Pools,
                                        now: int)
    ensures var r := MakeIas(st, conf, ias, host, pools, true, true, now);
            var n := |r.replies|;
            && n <= |ias| && r == MakeIas(st, conf, ias[..n], host, pools, true, false, now)
            && StoppedLast(r.replies) && (n < |ias| ==> None in r.replies)
  {
    hide *;
    if ias == [] {
      NoneToStop(st, conf, host, pools, now);
    } else {
      var k := |ias| - 1;
      ConfirmStops(st, conf, ias[..k], host, pools, now);
      StopNext(st, conf, ias, host, pools, now);
      var r := MakeIas(st, conf, ias[..k], host, pools, true, true, now);
      assert ias[..k][..|r.replies|] == ias[..|r.replies|];
      if None !in r.replies {
        var m := MakeIa(r.st, r.conf, ias[k], host, pools, true, now);
        StoppedNext(r.replies, m.reply);
        MakeIasFirst(st, conf, ias, host, pools, true, now);
        assert ias[..|ias|] == ias;
      }
    }
  }

  // ---- Release and Decline -----------------------------------------------

  /** A Release or Decline reports on an IA if and only if there is no binding for it, and
      then with the IA's identity and the one status NoBinding. */
  lemma {:induction false} ReportCases(st: State, duid: Duid, ia: IaSpec)
    ensures var r := NoBindingStatus(st, duid, ia);
            && (r.Some? <==> forall k :: 0 <= k < |st.bindings| ==> !HasKey(st.bindings[k], duid, ia.iatype, ia.iaid))
            && (r.Some? ==>
                  && r.value.val == Ia(ia.iatype, ia.iaid, 0, 0)
                  && r.value.sub == [ListVal(StCode(3), [])])
  {
    var i := FindBinding(st.bindings, duid, ia.iatype, ia.iaid);
    assert i >= 0 ==> HasKey(st.bindings[i], duid, ia.iatype, ia.iaid);
  }
}
