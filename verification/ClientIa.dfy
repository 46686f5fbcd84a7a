/** The client's renewal times of an IA and the timer that drives Renew and Rebind
    (dhcp6c_ia.c), with the 32-bit products of the source. */
module ClientIa {
  import opened Bytes
  import opened ListVals

  const DURATION_MIN: uint32 := 30
  const DEFAULT_DURATION: uint32 := 1800

  datatype Times = Times(t1: uint32, t2: uint32)

  // The server's values are taken unless T1 is above a given T2.
  predicate Acceptable(g: Times) {
    g.t2 == 0 || g.t1 <= g.t2
  }

  // u_int32_t products wrap.
  function FiveEighths(t: uint32): uint32 {
    t * 5 % TWO32 / 8
  }

  function FourFifths(t: uint32): uint32 {
    t * 4 % TWO32 / 5
  }

  function Derived(g: Times, duration: uint32): Times {
    if g.t1 != 0 && g.t2 != 0 then g
    else
      var t1 := if g.t1 != 0 then g.t1 else if duration == INFINITE then INFINITE else duration / 2;
      var t2 := if g.t2 != 0 then g.t2 else if duration == INFINITE then INFINITE else FourFifths(duration);
      Times(if t1 > t2 then FiveEighths(t2) else t1, t2)
  }

  lemma {:induction false} DerivedKeeps(g: Times)
    ensures g.t1 != 0 && g.t2 != 0 ==> forall d: uint32 :: Derived(g, d) == g
  {
  }

  /** The times the client works with; `duration` is what the IA's own
      configuration reports, if it can. */
  function Adjusted(g: Times, duration: Option<uint32>): Times {
    var t := Derived(g, if duration.Some? then duration.value else DEFAULT_DURATION);
    if t.t2 < DURATION_MIN then Times(FiveEighths(DURATION_MIN), DURATION_MIN) else t
  }

  lemma {:induction false} FiveEighthsBelow(t: uint32)
    ensures FiveEighths(t) <= t
  {
    var p := t * 5 % TWO32;
    if t * 5 < TWO32 {
      assert p == t * 5;
    } else {
      assert p < TWO32 && t >= TWO32 / 8;
    }
  }

  /** Whatever the server sends and however the products wrap: T1 is at most T2, T2
      is at least 30 seconds, and an infinite T1 comes with an infinite T2. */
  lemma {:induction false} TimesOrdered(g: Times, duration: Option<uint32>)
    requires Acceptable(g)
    ensures var t := Adjusted(g, duration);
            t.t1 <= t.t2 && t.t2 >= DURATION_MIN && (t.t1 == INFINITE ==> t.t2 == INFINITE)
  {
    var d := if duration.Some? then duration.value else DEFAULT_DURATION;
    FiveEighthsBelow(Derived(g, d).t2);
    FiveEighthsBelow(DURATION_MIN);
  }

  /** Times the server chose are kept exactly, unless T2 is too small. */
  lemma {:induction false} GivenTimesKept(g: Times, duration: Option<uint32>)
    requires Acceptable(g) && g.t1 != 0 && g.t2 != 0
    ensures Adjusted(g, duration) == g <==> g.t2 >= DURATION_MIN
  {
  }

  /** The locally chosen T2 is four fifths of the duration exactly for durations
      below 2^30 seconds; from there on the product wraps and T2 falls short. */
  lemma {:induction false} LocalT2(duration: uint32)
    requires duration != INFINITE
    ensures FourFifths(duration) == duration * 4 / 5 <==> duration < 0x4000_0000
    ensures duration >= 0x4000_0000 ==> FourFifths(duration) < duration * 4 / 5
  {
    var p, q := duration * 4, duration * 4 % TWO32;
    if p >= TWO32 {
      assert q <= p - TWO32;
      Fifths(p, q);
    }
  }

  lemma {:induction false} Fifths(p: nat, q: nat)
    requires q + 5 <= p
    ensures q / 5 < p / 5
  {
  }

  /** Times left to the client are a half and four fifths of the duration exactly for
      durations from 38 up to 2^30 seconds. */
  lemma {:induction false} LocalTimes(duration: uint32)
    ensures Adjusted(Times(0, 0), Some(duration)) == Times(duration / 2, duration * 4 / 5)
       <==> 38 <= duration < 0x4000_0000
  {
    if duration != INFINITE {
      LocalT2(duration);
    }
  }

  lemma {:induction false} LocalT2Wraps()
    ensures Adjusted(Times(0, 0), Some(0x4000_0000)) == Times(18, 30)
  {
  }

  datatype Phase = Active | Renew | Rebind

  /** What the timer does with an IA: its times, its phase, when the timer fires, and
      whether the client still has the IA. */
  datatype Clock = Clock(times: Times, phase: Phase, timer: Option<nat>, present: bool)

  const FRESH: Clock := Clock(Times(0, 0), Active, None, true)

  function Started(g: Times, duration: Option<uint32>, now: nat): Clock {
    var t := Adjusted(g, duration);
    Clock(t, Active, if t.t1 == INFINITE then None else Some(now + t.t1), true)
  }

  /** An IA in a reply: its times, whether it carries the NoBinding status, whether the
      IA's own configuration is valid after it, and what duration that reports. */
  datatype Reply = Reply(given: Times, noBinding: bool, valid: bool, duration: Option<uint32>)

  /** update_ia for one IA: refused times are ignored, NoBinding for a Renew or Rebind
      makes the client ask anew and stops the timer, an IA without valid configuration
      is removed, and otherwise the times start over. */
  function Updated(c: Clock, r: Reply, now: nat): Clock {
    if !Acceptable(r.given) then c
    else if r.noBinding && c.phase != Active then c.(times := r.given, timer := None)
    else if !r.valid then c.(times := r.given, timer := None, present := false)
    else Started(r.given, r.duration, now)
  }

  // One expiry of the timer at its time.
  function Fire(c: Clock): Clock
    requires c.timer.Some?
  {
    match c.phase
    case Active =>
      var wait := if c.times.t1 < c.times.t2 then c.times.t2 - c.times.t1 else 0;
      c.(phase := Renew, timer := Some(c.timer.value + wait))
    case Renew => c.(phase := Rebind, timer := None)
    case Rebind => c
  }

  /** An IA that gets no answer: with a finite T1 it starts Renew T1 seconds after
      the reply and Rebind exactly T2 seconds after it, then waits without a timer;
      with an infinite T1 nothing is ever started. */
  lemma {:induction false} Unanswered(g: Times, duration: Option<uint32>, now: nat)
    requires Acceptable(g)
    ensures var c := Started(g, duration, now);
            var t := c.times;
            && c.timer == (if t.t1 == INFINITE then None else Some(now + t.t1))
            && (c.timer.Some? ==>
                  && Fire(c) == Clock(t, Renew, Some(now + t.t2), true)
                  && Fire(Fire(c)) == Clock(t, Rebind, None, true))
  {
    TimesOrdered(g, duration);
  }

  // What can happen to an IA: a reply, or its timer fires.
  datatype Input = Answer(r: Reply, now: nat) | Tick

  function Next(c: Clock, i: Input): Clock {
    if !c.present then c
    else match i
      case Answer(r, now) => Updated(c, r, now)
      case Tick => if c.timer.Some? then Fire(c) else c
  }

  function Run(c: Clock, inputs: seq<Input>): Clock
    decreases |inputs|
  {
    if inputs == [] then c else Run(Next(c, inputs[0]), inputs[1..])
  }

  // A running timer belongs to a phase it can end, with times in order.
  predicate Ticking(c: Clock) {
    c.timer.Some? ==>
      c.present && c.phase != Rebind && c.times.t1 <= c.times.t2 && c.times.t2 >= DURATION_MIN
      && c.times.t1 != INFINITE
  }

  lemma {:induction false} NextKeepsTicking(c: Clock, i: Input)
    requires Ticking(c)
    ensures Ticking(Next(c, i))
  {
    hide Adjusted;
    if i.Answer? && Acceptable(i.r.given) {
      TimesOrdered(i.r.given, i.r.duration);
    }
  }

  /** Whatever replies and expiries an IA sees: its timer never fires in Rebind, so the
      invalid state in ia_timo is not reached; while it runs T1 is finite and at most
      T2, and T2 at least 30. */
  lemma {:induction false} TimerIsSound(inputs: seq<Input>)
    ensures Ticking(Run(FRESH, inputs))
  {
    RunKeepsTicking(FRESH, inputs);
  }

  lemma {:induction false} RunKeepsTicking(c: Clock, inputs: seq<Input>)
    requires Ticking(c)
    ensures Ticking(Run(c, inputs))
    decreases |inputs|
  {
    hide Ticking, Next;
    if inputs == [] {
    } else {
      NextKeepsTicking(c, inputs[0]);
      RunKeepsTicking(Next(c, inputs[0]), inputs[1..]);
    }
  }

  /** struct ia, as far as its timer goes. */
  class Ia {
    var t1: uint32
    var t2: uint32
    var phase: Phase
    var timer: Option<nat>
    var present: bool

    ghost function Abs(): Clock
      reads this
    {
      Clock(Times(t1, t2), phase, timer, present)
    }

    constructor ()
      ensures Abs() == FRESH
    {
      t1, t2, phase, timer, present := 0, 0, Active, None, true;
    }

    // T1 or T2 is 0: appropriate values are determined locally.
    method ChooseTimes(d: uint32)
      requires t1 == 0 || t2 == 0
      modifies `t1, `t2
      ensures Times(t1, t2) == Derived(old(Times(t1, t2)), d)
    {
      hide FiveEighths, FourFifths;
      if t1 == 0 {
        t1 := if d == INFINITE then INFINITE else d / 2;
      }
      if t2 == 0 {
        t2 := if d == INFINITE then INFINITE else FourFifths(d);
      }
      if t1 > t2 {
        t1 := FiveEighths(t2);
      }
    }

    /** update_ia for one IA of a reply, its addresses and prefixes apart. */
    method Update(r: Reply, now: nat)
      requires present
      modifies this
      ensures Abs() == Updated(old(Abs()), r, now)
      ensures Acceptable(r.given) && !(r.noBinding && old(phase) != Active) && r.valid ==>
                t1 <= t2 && t2 >= DURATION_MIN
    {
      hide FiveEighths, Derived;
      var g := r.given;
      DerivedKeeps(g);
      if g.t2 != 0 && g.t1 > g.t2 {
        return;
      }
      TimesOrdered(g, r.duration);
      t1, t2 := g.t1, g.t2;
      if r.noBinding && (phase == Renew || phase == Rebind) {
        timer := None;
        return;
      }
      if !r.valid {
        timer := None;
        present := false;
        return;
      }
      StartTimer(r.duration, now);
    }

    // The rest of update_ia: adjust the times and start the timer.
    method StartTimer(duration: Option<uint32>, now: nat)
      requires present
      modifies this
      ensures Abs() == Started(old(Times(t1, t2)), duration, now)
    {
      hide FiveEighths, Derived;
      DerivedKeeps(Times(t1, t2));
      if t1 == 0 || t2 == 0 {
        ChooseTimes(if duration.Some? then duration.value else DEFAULT_DURATION);
      }
      if t2 < DURATION_MIN {
        t2 := DURATION_MIN;
        t1 := FiveEighths(t2);
      }
      timer := if t1 == INFINITE then None else Some(now + t1);
      phase := Active;
    }

    /** ia_timo, when the timer fires at its time. */
    method Timeout()
      requires timer.Some?
      modifies this
      ensures Abs() == Fire(old(Abs()))
    {
      match phase
      case Active =>
        phase := Renew;
        timer := Some(timer.value + if t1 < t2 then t2 - t1 else 0);
      case Renew =>
        phase := Rebind;
        timer := None;
      case Rebind =>
    }
  }

  /** Times of which the server gave one only, and the default for none: what is missing
      comes from the duration, and T1 is never above T2. */
  lemma {:induction false} PartlyGiven(t: uint32, duration: uint32)
    requires 30 <= t < 0x2000_0000 && 38 <= duration < 0x2000_0000
    ensures Adjusted(Times(0, t), Some(duration)) == Times(if duration / 2 <= t then duration / 2 else t * 5 / 8, t)
    ensures var t2 := duration * 4 / 5;
            Adjusted(Times(t, 0), Some(duration)) == Times(if t <= t2 then t else t2 * 5 / 8, t2)
    ensures Adjusted(Times(0, 0), None) == Times(900, 1440)
  {
    assert duration * 4 % TWO32 == duration * 4;
    assert t * 5 % TWO32 == t * 5;
    assert duration * 4 / 5 * 5 % TWO32 == duration * 4 / 5 * 5;
  }

  /** A reply to an IA: times out of order change nothing at all; NoBinding while
      renewing or rebinding stops the timer and keeps the phase, and in the active phase
      is no different from no status; an IA left without configuration is gone with its
      timer; any other starts the active phase over at the adjusted times. */
  lemma {:induction false} ReplyCases(c: Clock, r: Reply, now: nat)
    ensures var d := Updated(c, r, now);
            if r.given.t2 != 0 && r.given.t1 > r.given.t2 then d == c
            else if r.noBinding && (c.phase == Renew || c.phase == Rebind) then
              d.timer.None? && d.phase == c.phase && d.present == c.present && d.times == r.given
            else if !r.valid then d.timer.None? && !d.present
            else
              && d.phase == Active && d.present && d.times == Adjusted(r.given, r.duration)
              && (d.timer.Some? <==> d.times.t1 != 0xffff_ffff) && (d.timer.Some? ==> d.timer.value == now + d.times.t1)
  {
    hide Adjusted;
  }

  // No reply has accepted times and valid configuration.
  predicate NoNews(inputs: seq<Input>) {
    forall k :: 0 <= k < |inputs| && inputs[k].Answer? ==>
      !Acceptable(inputs[k].r.given) || inputs[k].r.noBinding || !inputs[k].r.valid
  }

  /** After NoBinding the IA starts neither Renew nor Rebind by itself: its timer stays
      off until a reply brings it times again. */
  lemma {:induction false} QuietAfterNoBinding(c: Clock, inputs: seq<Input>)
    requires c.phase != Active && c.timer.None? && NoNews(inputs)
    ensures Run(c, inputs).timer.None? && Run(c, inputs).phase == c.phase
    decreases |inputs|
  {
    hide Adjusted;
    if inputs == [] {
    } else {
      assert inputs[0] == inputs[0];
      QuietAfterNoBinding(Next(c, inputs[0]), inputs[1..]);
    }
  }
}
