/** The client's message exchanges (common.c, dhcp6c.c): retransmission times,
    transaction identifiers and giving up.  Times are in milliseconds. */
module Retransmit {

  datatype State = Init | Solicit | InfoReq | Request | Renew | Rebind | Release

  /** Initial and maximum retransmission time and maximum number of transmissions;
      0 stands for no maximum. */
  datatype Params = Params(irt: nat, mrt: nat, mrc: nat)

  /** dhcp6_set_timeoparam */
  function ParamsOf(s: State): Params {
    match s
    case Init => Params(0, 0, 0)
    case Solicit => Params(1000, 120000, 0)
    case InfoReq => Params(1000, 120000, 0)
    case Request => Params(1000, 30000, 10)
    case Renew => Params(10000, 600000, 0)
    case Rebind => Params(10000, 600000, 0)
    case Release => Params(1000, 0, 5)
  }

  const MAX_DELAY: nat := 1000
  const XIDS: nat := 0x100_0000

  // The random factor, in ten-thousandths.
  function Factor(s: State, timeouts: nat, rand: nat): int {
    if s == Solicit && timeouts == 0 then rand % 1000 + 1 else rand % 2000 - 1000
  }

  /** dhcp6_reset_timer */
  function NextRt(s: State, timeouts: nat, rt: nat, p: Params, rand: nat): (n: nat) {
    if s == Init then rand % MAX_DELAY
    else
      var r := Factor(s, timeouts, rand);
      var n := if timeouts == 0 then p.irt * (10000 + r) else rt * (20000 + r);
      Positive(if timeouts == 0 then p.irt else rt, if timeouts == 0 then 10000 + r else 20000 + r);
      Positive(p.mrt, 10000 + r);
      (if p.mrt != 0 && n > p.mrt * 10000 then p.mrt * (10000 + r) else n) / 10000
  }

  lemma {:induction false} Positive(x: nat, a: nat)
    ensures x * a >= 0
  {
  }

  lemma {:induction false} Scaled(x: nat, a: nat, lo: nat, hi: nat)
    requires lo <= a <= hi
    ensures x * lo <= x * a <= x * hi
  {
  }

  datatype Sent = Sent(state: State, xid: nat)

  /** struct dhcp6_event: `wait` is how long the timer runs in all since it was last
      armed, `servers` how many servers have been heard, `log` what has been
      transmitted, and `since` where in it the current message exchange begins. */
  datatype Event = Event(
    state: State, timeouts: nat, rt: nat, wait: nat, params: Params, xid: nat,
    alive: bool, servers: nat, log: seq<Sent>, since: nat)

  // client6_send: a new transaction identifier only for a first transmission.
  function Transmit(e: Event, xid: nat): Event {
    var x := if e.timeouts == 0 then xid % XIDS else e.xid;
    e.(xid := x, log := e.log + [Sent(e.state, x)])
  }

  function Rearm(e: Event, rand: nat): Event {
    var n := NextRt(e.state, e.timeouts, e.rt, e.params, rand);
    e.(rt := n, wait := n)
  }

  // A new kind of message: counters and parameters start over.
  function Begin(e: Event, s: State, xid: nat, rand: nat): Event {
    Rearm(Transmit(e.(state := s, timeouts := 0, rt := 0, params := ParamsOf(s), since := |e.log|), xid), rand)
  }

  function Again(e: Event, xid: nat, rand: nat): Event {
    Rearm(Transmit(e, xid), rand)
  }

  // The first server heard: the client collects others until its initial time is over.
  function Collect(e: Event, elapsed: nat): Event {
    var t := if elapsed <= e.rt then elapsed else e.rt;
    e.(wait := if t <= e.params.irt then e.params.irt else t)
  }

  /** What can happen to an event: its timer fires, or an Advertise with its
      transaction identifier arrives from a server not heard before, with the
      highest preference or a lower one.  The inputs are the random numbers, the
      configuration, whether data are left, and how long the timer has run. */
  datatype Input =
    | Timer(rand: nat, xid: nat, infoOnly: bool, data: bool)
    | Preferred(rand: nat, xid: nat)
    | Advertise(elapsed: nat)

  /** client6_timo and client6_recvadvert; the latter goes on in every state. */
  function Step(e: Event, i: Input): Event {
    if !e.alive then e
    else match i
      case Preferred(rand, xid) => Begin(e.(servers := e.servers + 1), Request, xid, rand)
      case Advertise(elapsed) =>
        (if e.servers == 0 then Collect(e, elapsed) else e).(servers := e.servers + 1)
      case Timer(rand, xid, infoOnly, data) =>
        var e1 := e.(timeouts := e.timeouts + 1);
        if e1.params.mrc != 0 && e1.timeouts >= e1.params.mrc then e1.(alive := false)
        else match e.state
          case Init => Begin(e1, if infoOnly then InfoReq else Solicit, xid, rand)
          case Solicit => if e.servers > 0 then Begin(e1, Request, xid, rand) else Again(e1, xid, rand)
          case Renew => if data then Again(e1, xid, rand) else e1.(alive := false)
          case Rebind => if data then Again(e1, xid, rand) else e1.(alive := false)
          case _ => Again(e1, xid, rand)
  }

  function Run(e: Event, inputs: seq<Input>): Event
    decreases |inputs|
  {
    if inputs == [] then e else Run(Step(e, inputs[0]), inputs[1..])
  }

  // An event as it is created: delayed at first, or sent at once.
  function Fresh(rand: nat): Event {
    Event(Init, 0, rand % MAX_DELAY, rand % MAX_DELAY, ParamsOf(Init), 0, true, 0, [], 0)
  }

  predicate SentAtOnce(s: State) {
    s == Request || s == Renew || s == Rebind || s == Release
  }

  function Start(s: State, xid: nat, rand: nat): Event {
    Begin(Fresh(0), s, xid, rand)
  }

  predicate IsStart(e: Event, rand: nat, xid: nat) {
    e == Fresh(rand) || (SentAtOnce(e.state) && e == Start(e.state, xid, rand))
  }

  // ---- retransmission times ----------------------------------------------

  // A lower bound of the retransmission time after `k` timeouts.
  function Low(irt: nat, k: nat): nat {
    if k == 0 then irt * 9 / 10 else Low(irt, k - 1) * 19 / 10
  }

  predicate NearMax(rt: nat, p: Params) {
    9 * p.mrt <= 10 * rt <= 11 * p.mrt
  }

  /** Never below nine tenths of the initial time, never above eleven tenths of the
      maximum, and growing until it is near the maximum. */
  predicate RtOk(s: State, timeouts: nat, rt: nat) {
    var p := ParamsOf(s);
    && 10 * rt >= 9 * p.irt
    && (p.mrt != 0 ==> 10 * rt <= 11 * p.mrt && (NearMax(rt, p) || rt >= Low(p.irt, timeouts)))
  }

  lemma {:induction false} FirstRt(s: State, rand: nat)
    requires s != Init
    ensures RtOk(s, 0, NextRt(s, 0, 0, ParamsOf(s), rand))
    ensures var p := ParamsOf(s);
            9 * p.irt <= 10 * NextRt(s, 0, 0, p, rand) <= 11 * p.irt
  {
    var p, r := ParamsOf(s), Factor(s, 0, rand);
    Scaled(p.irt, 10000 + r, 9000, 11000);
  }

  /** The first wait of a Solicit is meant to be above its initial time; it is so
      unless truncation to milliseconds brings it back. */
  lemma {:induction false} FirstSolicit(rand: nat)
    ensures NextRt(Solicit, 0, 0, ParamsOf(Solicit), rand) > 1000 <==> rand % 1000 >= 9
    ensures 1000 <= NextRt(Solicit, 0, 0, ParamsOf(Solicit), rand) <= 1100
  {
  }

  lemma {:induction false} RtIs(s: State, timeouts: nat, rt: nat, rand: nat)
    requires s != Init && timeouts > 0
    ensures var p, r := ParamsOf(s), Factor(s, timeouts, rand);
            NextRt(s, timeouts, rt, p, rand) ==
            (if p.mrt != 0 && rt * (20000 + r) > p.mrt * 10000 then p.mrt * (10000 + r) else rt * (20000 + r)) / 10000
    ensures -1000 <= Factor(s, timeouts, rand) <= 1000
  {
  }

  lemma {:induction false} Tenths(rt: nat, n: nat)
    requires rt * 19000 <= n <= rt * 21000
    ensures rt * 19 / 10 <= n / 10000 && 10 * (n / 10000) <= 21 * rt
  {
  }

  /** Each wait is about twice the one before, truncated, or near the maximum. */
  lemma {:induction false} Backoff(s: State, timeouts: nat, rt: nat, rand: nat)
    requires s != Init && timeouts > 0
    ensures var p := ParamsOf(s);
            var n := NextRt(s, timeouts, rt, p, rand);
            (p.mrt != 0 && NearMax(n, p)) || (rt * 19 / 10 <= n && 10 * n <= 21 * rt)
    ensures var p := ParamsOf(s);
            p.mrt != 0 ==> NearMax(NextRt(s, timeouts, rt, p, rand), p) || NextRt(s, timeouts, rt, p, rand) <= p.mrt
  {
    var p, r := ParamsOf(s), Factor(s, timeouts, rand);
    Scaled(rt, 20000 + r, 19000, 21000);
    Scaled(p.mrt, 10000 + r, 9000, 11000);
    RtIs(s, timeouts, rt, rand);
    hide NextRt, Factor;
    Tenths(rt, rt * (20000 + r));
  }

  /** The waits exactly, in milliseconds truncated: the first one is the initial time
      changed by up to a tenth, a Solicit's first upwards only; a later one is twice the
      one before, changed by up to a tenth of it, unless that is above the maximum, when
      it is the maximum changed by up to a tenth. */
  lemma {:induction false} RtExact(s: State, timeouts: nat, rt: nat, rand: nat)
    requires s != Init
    ensures var p := ParamsOf(s);
            var n := NextRt(s, timeouts, rt, p, rand);
            var r := if s == Solicit && timeouts == 0 then rand % 1000 + 1 else rand % 2000 - 1000;
            var raw := if timeouts == 0 then p.irt * 10000 + p.irt * r else rt * 20000 + rt * r;
            var x := if p.mrt != 0 && raw > p.mrt * 10000 then p.mrt * 10000 + p.mrt * r else raw;
            10000 * n <= x < 10000 * (n + 1)
  {
    var p := ParamsOf(s);
    var r := Factor(s, timeouts, rand);
    Distributes(p.irt, 10000, r);
    Distributes(rt, 20000, r);
    Distributes(p.mrt, 10000, r);
    Scaled(rt, 20000 + r, 19000, 21000);
    Truncated(if timeouts == 0 then p.irt * (10000 + r) else rt * (20000 + r));
    Truncated(p.mrt * (10000 + r));
  }

  lemma {:induction false} Distributes(x: int, a: int, b: int)
    ensures x * (a + b) == x * a + x * b
  {
  }

  lemma {:induction false} Truncated(x: int)
    ensures 10000 * (x / 10000) <= x < 10000 * (x / 10000 + 1)
  {
  }

  lemma {:induction false} StaysNearMax(s: State, timeouts: nat, rt: nat, rand: nat)
    requires s != Init && timeouts > 0 && ParamsOf(s).mrt != 0 && NearMax(rt, ParamsOf(s))
    ensures NearMax(NextRt(s, timeouts, rt, ParamsOf(s), rand), ParamsOf(s))
  {
    var p, r := ParamsOf(s), Factor(s, timeouts, rand);
    Scaled(rt, 20000 + r, 19000, 21000);
    Scaled(p.mrt, 10000 + r, 9000, 11000);
  }

  lemma {:induction false} NextRtOk(s: State, timeouts: nat, rt: nat, rand: nat)
    requires s != Init && timeouts > 0 && RtOk(s, timeouts - 1, rt)
    ensures RtOk(s, timeouts, NextRt(s, timeouts, rt, ParamsOf(s), rand))
  {
    hide NextRt;
    Backoff(s, timeouts, rt, rand);
    if ParamsOf(s).mrt != 0 && NearMax(rt, ParamsOf(s)) {
      StaysNearMax(s, timeouts, rt, rand);
    }
  }

  lemma {:induction false} LowGrows(irt: nat, k: nat)
    requires k >= 8 && irt >= 1000
    ensures Low(irt, k) >= 108 * irt
  {
    if k == 8 {
      LowEight(irt);
    } else {
      LowGrows(irt, k - 1);
    }
  }

  lemma {:induction false} LowEight(irt: nat)
    requires irt >= 1000
    ensures Low(irt, 8) >= 108 * irt
  {
    assert 10 * Low(irt, 1) >= 17 * irt;
    assert 10 * Low(irt, 2) >= 32 * irt;
    assert 10 * Low(irt, 3) >= 60 * irt;
    assert 10 * Low(irt, 4) >= 113 * irt;
    assert 10 * Low(irt, 5) >= 214 * irt;
    assert 10 * Low(irt, 6) >= 406 * irt;
    assert 10 * Low(irt, 7) >= 771 * irt;
  }

  /** From the eighth timeout on every wait is near the maximum. */
  lemma {:induction false} SettlesNearMax(s: State, timeouts: nat, rt: nat)
    requires s != Init && RtOk(s, timeouts, rt) && timeouts >= 8 && ParamsOf(s).mrt != 0
    ensures NearMax(rt, ParamsOf(s))
  {
    LowGrows(ParamsOf(s).irt, timeouts);
  }

  /** What the table gives: a positive initial time, a maximum that is missing or at
      least thirty times as long, and a limit of transmissions for Request and
      Release alone. */
  lemma {:induction false} ParamsTable(s: State)
    requires s != Init
    ensures var p := ParamsOf(s);
            && p.irt >= 1000 && (p.mrt == 0 <==> s == Release) && (p.mrt != 0 ==> p.mrt >= 30 * p.irt)
            && (p.mrc != 0 <==> s == Request || s == Release) && (s == Request ==> p.mrc == 10)
            && (s == Release ==> p.mrc == 5)
  {
  }

  // ---- every exchange ----------------------------------------------------

  // The timer runs for the computed time, or was set back by the first Advertise.
  predicate WaitOk(e: Event) {
    e.wait == e.rt || e.wait == e.params.irt || e.params.irt <= e.wait <= e.rt
  }

  ghost predicate Inv(e: Event) {
    && e.params == ParamsOf(e.state) && e.since <= |e.log|
    && (e.state == Init ==> e.alive && e.log == [])
    && (e.state != Init ==>
         && (forall k :: e.since <= k < |e.log| ==> e.log[k] == Sent(e.state, e.xid))
         && |e.log| - e.since == (if e.alive then e.timeouts + 1 else e.timeouts)
         && (e.params.mrc != 0 ==> if e.alive then e.timeouts < e.params.mrc else e.timeouts == e.params.mrc)
         && (e.alive ==> RtOk(e.state, e.timeouts, e.rt) && WaitOk(e)))
  }

  lemma {:induction false} BeginKeepsInv(e: Event, s: State, xid: nat, rand: nat)
    requires e.alive && s != Init
    ensures Inv(Begin(e, s, xid, rand))
  {
    hide NextRt, RtOk;
    FirstRt(s, rand);
  }

  lemma {:induction false} AgainKeepsInv(e: Event, xid: nat, rand: nat)
    requires e.alive && e.state != Init && e.timeouts > 0 && Inv(e.(timeouts := e.timeouts - 1))
    requires e.params.mrc == 0 || e.timeouts < e.params.mrc
    ensures Inv(Again(e, xid, rand))
  {
    hide NextRt, RtOk;
    NextRtOk(e.state, e.timeouts, e.rt, rand);
  }

  lemma {:induction false} StepKeepsInv(e: Event, i: Input)
    requires Inv(e)
    ensures Inv(Step(e, i))
  {
    hide Begin, Again, RtOk;
    if e.alive {
      match i
      case Preferred(rand, xid) => BeginKeepsInv(e.(servers := e.servers + 1), Request, xid, rand);
      case Advertise(_) =>
      case Timer(rand, xid, infoOnly, data) =>
        var e1 := e.(timeouts := e.timeouts + 1);
        assert e1.(timeouts := e1.timeouts - 1) == e;
        if e1.params.mrc != 0 && e1.timeouts >= e1.params.mrc {
        } else if e.state == Init {
          BeginKeepsInv(e1, if infoOnly then InfoReq else Solicit, xid, rand);
        } else if e.state == Solicit && e.servers > 0 {
          BeginKeepsInv(e1, Request, xid, rand);
        } else if data || (e.state != Renew && e.state != Rebind) {
          AgainKeepsInv(e1, xid, rand);
        }
    }
  }

  lemma {:induction false} RunKeepsInv(e: Event, inputs: seq<Input>)
    requires Inv(e)
    ensures Inv(Run(e, inputs))
    decreases |inputs|
  {
    hide Inv, Step;
    if inputs == [] {
    } else {
      StepKeepsInv(e, inputs[0]);
      RunKeepsInv(Step(e, inputs[0]), inputs[1..]);
    }
  }

  lemma {:induction false} StartInv(e: Event, rand: nat, xid: nat)
    requires IsStart(e, rand, xid)
    ensures Inv(e) && e.since == 0
  {
    hide RtOk, NextRt;
    if e.state != Init {
      BeginKeepsInv(Fresh(0), e.state, xid, rand);
    }
  }

  /** Every message exchange of every run, whatever arrives: since the exchange began
      all transmissions are the same message with the same transaction identifier; a
      Request is transmitted at most ten times and a Release at most five, and exactly
      that often when the client gives up; the computed waits lie between nine tenths
      of the initial and eleven tenths of the maximum time, near the maximum from the
      eighth timeout on; and the timer runs for the computed wait or, set back by the
      first Advertise, for no less than the initial time. */
  lemma {:induction false} Exchange(e: Event, rand: nat, xid: nat, inputs: seq<Input>)
    requires IsStart(e, rand, xid)
    ensures var f := Run(e, inputs);
            && f.since <= |f.log| && f.params == ParamsOf(f.state)
            && (forall k :: f.since <= k < |f.log| ==> f.log[k] == Sent(f.state, f.xid))
            && (f.params.mrc != 0 ==>
                  && |f.log| - f.since <= f.params.mrc
                  && (!f.alive ==> |f.log| - f.since == f.params.mrc))
            && (f.alive && f.state != Init ==>
                  && 9 * f.params.irt <= 10 * f.rt && 9 * f.params.irt <= 10 * f.wait && WaitOk(f)
                  && (f.params.mrt != 0 ==>
                        && 10 * f.rt <= 11 * f.params.mrt && 10 * f.wait <= 11 * f.params.mrt
                        && (f.timeouts >= 8 ==> NearMax(f.rt, f.params))))
  {
    hide Run;
    var f := Run(e, inputs);
    StartInv(e, rand, xid);
    RunKeepsInv(e, inputs);
    if f.alive && f.state != Init && f.params.mrt != 0 && f.timeouts >= 8 {
      SettlesNearMax(f.state, f.timeouts, f.rt);
    }
  }

  /** The first Advertise of a lower preference sets the timer back so that the client
      collects others until its initial time has passed since it transmitted; if it
      has passed already the timer fires at once. */
  lemma {:induction false} FirstAdvertise(e: Event, elapsed: nat)
    requires e.alive && e.servers == 0 && elapsed <= e.rt
    ensures var f := Step(e, Advertise(elapsed));
            && f.wait >= elapsed && f.wait >= e.params.irt && (f.wait == elapsed || f.wait == e.params.irt)
            && f == e.(wait := f.wait, servers := 1)
            && forall later: nat :: Step(f, Advertise(later)) == f.(servers := 2)
  {
  }

  /** What an expiry of the timer does, in every state: the next message of the
      exchange with the same identifier, or the next exchange with a fresh one and the
      counters and times of its own, or the end. */
  lemma {:induction false} Expiry(e: Event, rand: nat, xid: nat, infoOnly: bool, data: bool)
    requires e.alive && e.params == ParamsOf(e.state)
    ensures var f := Step(e, Timer(rand, xid, infoOnly, data));
            var fresh_ := xid % 0x100_0000;
            && (e.state == Init ==>
                  && f.log == e.log + [Sent(if infoOnly then InfoReq else Solicit, fresh_)]
                  && f.state == (if infoOnly then InfoReq else Solicit)
                  && f.timeouts == 0 && f.xid == fresh_ && f.params == Params(1000, 120000, 0))
            && (e.state == Solicit && e.servers > 0 ==>
                  && f.log == e.log + [Sent(Request, fresh_)] && f.state == Request
                  && f.timeouts == 0 && f.xid == fresh_ && f.params == Params(1000, 30000, 10))
            && ((e.state == Solicit && e.servers == 0) || e.state == InfoReq ==>
                  f.log == e.log + [Sent(e.state, e.xid)] && SameExchange(e, f))
            && (e.state == Renew || e.state == Rebind ==>
                  if data then f.log == e.log + [Sent(e.state, e.xid)] && SameExchange(e, f)
                  else !f.alive && f.log == e.log)
            && (e.state == Request || e.state == Release ==>
                  if e.timeouts + 1 < (if e.state == Request then 10 else 5)
                  then f.log == e.log + [Sent(e.state, e.xid)] && SameExchange(e, f)
                  else !f.alive && f.log == e.log)
  {
    hide NextRt;
  }

  // One more timeout of the same exchange.
  predicate SameExchange(e: Event, f: Event) {
    && f.alive && f.state == e.state && f.timeouts == e.timeouts + 1 && f.xid == e.xid && f.params == e.params
    && f.servers == e.servers && f.since == e.since
  }

  /** An Advertise is remembered, and one of the highest preference answered at once
      by a Request with a fresh identifier. */
  lemma {:induction false} AdvertiseHeard(e: Event, i: Input)
    requires e.alive && !i.Timer?
    ensures var f := Step(e, i);
            && f.servers == e.servers + 1
            && (i.Preferred? ==>
                  && f.log == e.log + [Sent(Request, i.xid % 0x100_0000)] && f.state == Request && f.timeouts == 0
                  && f.params == Params(1000, 30000, 10))
            && (i.Advertise? ==> f.log == e.log && f.state == e.state && f.timeouts == e.timeouts && f.xid == e.xid)
  {
    hide NextRt;
  }

  lemma {:induction false} HeardStep(e: Event, i: Input)
    requires e.servers > 0
    ensures var f := Step(e, i);
            && f.servers > 0 && (f.state == Init ==> e.state == Init && f.log == e.log)
            && (f.log == e.log ||
                (|f.log| == |e.log| + 1 && f.log[..|e.log|] == e.log && f.state != Init &&
                 (f.log[|e.log|].state == Solicit ==> e.state == Init)))
  {
    hide NextRt;
  }

  /** Once a server has been heard no Solicit is transmitted any more, whatever happens;
      but for the very first message of an event that heard it while still delayed. */
  lemma {:induction false} SolicitsEnd(e: Event, inputs: seq<Input>)
    requires e.servers > 0
    ensures var log := Run(e, inputs).log;
            forall k :: |e.log| <= k < |log| && log[k].state == Solicit ==> e.state == Init && k == |e.log|
    decreases |inputs|
  {
    if inputs == [] {
    } else {
      var f := Step(e, inputs[0]);
      HeardStep(e, inputs[0]);
      hide Step;
      SolicitsEnd(f, inputs[1..]);
      LogGrows(f, inputs[1..]);
    }
  }

  // ---- whole runs --------------------------------------------------------

  function Count(log: seq<Sent>, s: State): nat {
    if log == [] then 0 else Count(log[..|log| - 1], s) + if log[|log| - 1].state == s then 1 else 0
  }

  // What is left of a log behind `n` is all of one kind.
  lemma {:induction false} CountTail(log: seq<Sent>, n: nat, x: State, s: State)
    requires n <= |log| && forall k :: n <= k < |log| ==> log[k].state == x
    ensures Count(log, s) == Count(log[..n], s) + if x == s then |log| - n else 0
    decreases |log|
  {
    if n == |log| {
      assert log[..n] == log;
    } else {
      var m := |log| - 1;
      CountTail(log[..m], n, x, s);
      assert log[..m][..n] == log[..n];
    }
  }

  predicate OneXid(log: seq<Sent>) {
    forall j, k :: 0 <= j < k < |log| && log[j].state == log[k].state ==> log[j].xid == log[k].xid
  }

  /** What one would expect of a whole run: one transaction identifier for each kind of
      message, at most ten Requests and five Releases. */
  predicate Expected(log: seq<Sent>) {
    OneXid(log) && Count(log, Request) <= 10 && Count(log, Release) <= 5
  }

  // An Advertise of the highest preference that meets a running Request.
  predicate Restarts(e: Event, i: Input) {
    e.alive && e.state == Request && i.Preferred?
  }

  predicate NoRestart(e: Event, inputs: seq<Input>)
    decreases |inputs|
  {
    inputs == [] || (!Restarts(e, inputs[0]) && NoRestart(Step(e, inputs[0]), inputs[1..]))
  }

  // Before a Request there was at most one other exchange.
  ghost predicate Orderly(e: Event) {
    && Inv(e)
    && (e.since > 0 ==>
         && e.state == Request && e.log[0].state != Request
         && (forall k :: 0 <= k < e.since ==> e.log[k] == e.log[0])
         && (ParamsOf(e.log[0].state).mrc != 0 ==> e.since <= ParamsOf(e.log[0].state).mrc))
  }

  lemma {:induction false} StepKeepsOrder(e: Event, i: Input)
    requires Orderly(e) && !Restarts(e, i)
    ensures Orderly(Step(e, i))
  {
    hide RtOk, NextRt;
    StepKeepsInv(e, i);
  }

  lemma {:induction false} RunKeepsOrder(e: Event, inputs: seq<Input>)
    requires Orderly(e) && NoRestart(e, inputs)
    ensures Orderly(Run(e, inputs))
    decreases |inputs|
  {
    hide Orderly, Step, Restarts;
    if inputs == [] {
    } else {
      StepKeepsOrder(e, inputs[0]);
      RunKeepsOrder(Step(e, inputs[0]), inputs[1..]);
    }
  }

  lemma {:induction false} OrderlyIsExpected(e: Event)
    requires Orderly(e)
    ensures Expected(e.log)
  {
    hide RtOk, Count;
    OrderlyCount(e, Request);
    OrderlyCount(e, Release);
  }

  lemma {:induction false} OrderlyCount(e: Event, s: State)
    requires Orderly(e) && ParamsOf(s).mrc != 0
    ensures Count(e.log, s) <= ParamsOf(s).mrc
  {
    hide RtOk;
    if e.log == [] {
    } else {
      CountTail(e.log, e.since, e.state, s);
      var head := e.log[..e.since];
      CountTail(head, 0, e.log[0].state, s);
    }
  }

  // Inputs that differ in nothing but the transaction identifiers drawn.
  predicate SameButXids(a: seq<Input>, b: seq<Input>) {
    && |a| == |b|
    && forall k :: 0 <= k < |a| ==>
         match a[k]
         case Timer(rand, _, infoOnly, data) => b[k].Timer? && b[k] == Timer(rand, b[k].xid, infoOnly, data)
         case Preferred(rand, _) => b[k].Preferred? && b[k] == Preferred(rand, b[k].xid)
         case Advertise(_) => b[k] == a[k]
  }

  predicate SameShape(a: Event, b: Event) {
    && a.state == b.state && a.timeouts == b.timeouts && a.params == b.params
    && a.alive == b.alive && a.servers == b.servers
  }

  lemma {:induction false} ShapeIgnoresXids(e: Event, f: Event, a: seq<Input>, b: seq<Input>)
    requires SameShape(e, f) && SameButXids(a, b)
    ensures NoRestart(e, a) == NoRestart(f, b)
    decreases |a|
  {
    hide NextRt;
    if a == [] {
    } else {
      assert SameButXids(a[1..], b[1..]);
      assert SameShape(Step(e, a[0]), Step(f, b[0]));
      ShapeIgnoresXids(Step(e, a[0]), Step(f, b[0]), a[1..], b[1..]);
    }
  }

  lemma {:induction false} LogGrows(e: Event, inputs: seq<Input>)
    ensures e.log <= Run(e, inputs).log
    decreases |inputs|
  {
    hide NextRt;
    if inputs == [] {
    } else {
      LogGrows(Step(e, inputs[0]), inputs[1..]);
    }
  }

  // A restart, with an identifier that differs from the one in use.
  lemma {:induction false} RestartBreaks(e: Event, inputs: seq<Input>) returns (other: seq<Input>)
    requires Inv(e) && !NoRestart(e, inputs)
    ensures SameButXids(inputs, other) && !OneXid(Run(e, other).log)
    decreases |inputs|
  {
    hide NextRt, RtOk;
    if Restarts(e, inputs[0]) {
      var i := Preferred(inputs[0].rand, (e.xid + 1) % XIDS);
      other := [i] + inputs[1..];
      var f := Step(e, i);
      var n := |e.log|;
      assert e.log[n - 1] == Sent(Request, e.xid) && f.log[n] == Sent(Request, (e.xid + 1) % XIDS);
      assert other[1..] == inputs[1..];
      LogGrows(f, inputs[1..]);
      var log := Run(e, other).log;
      assert log[n - 1].state == log[n].state && log[n - 1].xid != log[n].xid;
    } else {
      StepKeepsInv(e, inputs[0]);
      var rest := RestartBreaks(Step(e, inputs[0]), inputs[1..]);
      other := [inputs[0]] + rest;
      assert other[1..] == rest;
      SameAgain(inputs, rest);
    }
  }

  lemma {:induction false} SameAgain(inputs: seq<Input>, rest: seq<Input>)
    requires inputs != [] && SameButXids(inputs[1..], rest)
    ensures SameButXids(inputs, [inputs[0]] + rest)
  {
    assert inputs == [inputs[0]] + inputs[1..];
  }

  /** Exactly when a whole run is as expected, whatever transaction identifiers are
      drawn in it: when no Advertise of the highest preference meets a running
      Request. */
  lemma {:induction false} WholeRun(e: Event, rand: nat, xid: nat, inputs: seq<Input>)
    requires IsStart(e, rand, xid)
    ensures NoRestart(e, inputs) <==>
              forall other :: SameButXids(inputs, other) ==> Expected(Run(e, other).log)
  {
    hide Run, NoRestart, SameButXids, OneXid, Count;
    StartInv(e, rand, xid);
    if NoRestart(e, inputs) {
      forall other | SameButXids(inputs, other) ensures Expected(Run(e, other).log) {
        ShapeIgnoresXids(e, e, inputs, other);
        RunKeepsOrder(e, other);
        OrderlyIsExpected(Run(e, other));
      }
    } else {
      var other := RestartBreaks(e, inputs);
      assert !Expected(Run(e, other).log);
    }
  }

  /** A Request that meets such an Advertise starts over: two identifiers. */
  lemma {:induction false} RestartedRequest()
    ensures Run(Start(Request, 1, 0), [Preferred(0, 2)]).log == [Sent(Request, 1), Sent(Request, 2)]
  {
    hide NextRt;
    var e := Start(Request, 1, 0);
    assert [Preferred(0, 2)][1..] == [];
    assert Run(e, [Preferred(0, 2)]) == Step(e, Preferred(0, 2));
  }

  /** Nor is there a bound on the Requests then: one more for every such Advertise. */
  lemma {:induction false} RequestsUnbounded(n: nat)
    ensures Count(Run(Start(Request, 1, 0), seq(n, k => Preferred(0, 2))).log, Request) == n + 1
  {
    var e := Start(Request, 1, 0);
    CountTail(e.log, 0, Request, Request);
    RequestsAgain(e, n);
  }

  lemma {:induction false} RequestsAgain(e: Event, n: nat)
    requires e.alive
    ensures Count(Run(e, seq(n, k => Preferred(0, 2))).log, Request) == Count(e.log, Request) + n
    decreases n
  {
    hide NextRt;
    var inputs := seq(n, k => Preferred(0, 2));
    if n == 0 {
    } else {
      var f := Step(e, inputs[0]);
      assert inputs[1..] == seq(n - 1, k => Preferred(0, 2));
      CountTail(f.log, |e.log|, Request, Request);
      assert f.log[..|e.log|] == e.log;
      RequestsAgain(f, n - 1);
    }
  }

  /** The event the client keeps in its list, updated in place. */
  class ClientEvent {
    var state: State
    var timeouts: nat
    var retrans: nat
    var wait: nat
    var params: Params
    var xid: nat
    var alive: bool
    var servers: nat
    ghost var log: seq<Sent>
    ghost var since: nat

    ghost function Abs(): Event
      reads this
    {
      Event(state, timeouts, retrans, wait, params, xid, alive, servers, log, since)
    }

    /** The event created by client6_start. */
    constructor (rand: nat)
      ensures Abs() == Fresh(rand)
    {
      state, timeouts, retrans, wait, params := Init, 0, rand % MAX_DELAY, rand % MAX_DELAY, ParamsOf(Init);
      xid, alive, servers, log, since := 0, true, 0, [], 0;
    }

    method SetTimeoParam()
      modifies `retrans, `params
      ensures retrans == 0 && params == ParamsOf(state)
    {
      retrans := 0;
      params := ParamsOf(state);
    }

    method ResetTimer(rand: nat)
      modifies `retrans, `wait
      ensures Abs() == Rearm(old(Abs()), rand)
    {
      if state == Init {
        retrans := rand % MAX_DELAY;
        wait := retrans;
        return;
      }
      var r := Factor(state, timeouts, rand);
      var n;
      if timeouts == 0 {
        n := params.irt * (10000 + r);
      } else {
        n := retrans * (20000 + r);
      }
      if params.mrt != 0 && n > params.mrt * 10000 {
        n := params.mrt * (10000 + r);
      }
      assert n / 10000 == NextRt(state, timeouts, retrans, params, rand);
      retrans := n / 10000;
      wait := retrans;
    }

    method Send(random: nat)
      modifies `xid, `log
      ensures Abs() == Transmit(old(Abs()), random)
    {
      if timeouts == 0 {
        xid := random % XIDS;
      }
      log := log + [Sent(state, xid)];
    }

    // A new message exchange, begun at once.
    method Enter(s: State, random: nat, rand: nat)
      modifies this
      ensures Abs() == Begin(old(Abs()), s, random, rand)
    {
      hide NextRt;
      since := |log|;
      timeouts := 0;
      state := s;
      SetTimeoParam();
      Send(random);
      ResetTimer(rand);
    }

    /** client6_timo */
    method Timo(i: Input)
      requires alive && i.Timer?
      modifies this
      ensures Abs() == Step(old(Abs()), i)
    {
      hide Begin, Transmit, Rearm;
      timeouts := timeouts + 1;
      if params.mrc != 0 && timeouts >= params.mrc {
        alive := false;
        return;
      }
      if state == Init {
        Enter(if i.infoOnly then InfoReq else Solicit, i.xid, i.rand);
        return;
      }
      if (state == Renew || state == Rebind) && !i.data {
        alive := false;
        return;
      }
      if state == Solicit && servers > 0 {
        Enter(Request, i.xid, i.rand);
        return;
      }
      Send(i.xid);
      ResetTimer(i.rand);
    }

    /** client6_recvadvert, once the Advertise has been matched to the event and found
        to come from a new server. */
    method RecvAdvert(i: Input)
      requires alive && (i.Preferred? || i.Advertise?)
      modifies this
      ensures Abs() == Step(old(Abs()), i)
    {
      hide Begin;
      servers := servers + 1;
      if i.Preferred? {
        Enter(Request, i.xid, i.rand);
      } else if servers == 1 {
        var elapsed := if i.elapsed <= retrans then i.elapsed else retrans;
        wait := if elapsed <= params.irt then elapsed + (params.irt - elapsed) else elapsed;
      }
    }
  }
}
