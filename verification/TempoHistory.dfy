/**
 The tempo history of the reference player: a bounded, sorted list of tempo changes, the
 stepping from one change to the next as time goes on, and the real time counted with it.
 */
module TempoHistory {
  const MAX_HISTORY := 512

  ghost predicate Sorted(s: seq<nat>) {
    forall i, j :: 0 <= i < j < |s| ==> s[i] <= s[j]
  }

  /** First entry later than t, or the length if there is none. */
  function FirstAfter(times: seq<nat>, t: nat): (r: nat)
    ensures r <= |times|
    ensures r < |times| ==> times[r] > t
    ensures forall i :: 0 <= i < r ==> times[i] <= t
  {
    if times == [] || times[0] > t then 0 else 1 + FirstAfter(times[1..], t)
  }

  lemma {:induction false} FirstAfterIs(times: seq<nat>, t: nat, i: nat)
    requires i <= |times| && (i < |times| ==> times[i] > t) && forall k :: 0 <= k < i ==> times[k] <= t
    ensures FirstAfter(times, t) == i
  {
    if times != [] && times[0] <= t {
      FirstAfterIs(times[1..], t, i - 1);
    }
  }

  // ------------------------------------------------------ a history as values

  /** Times and tempi of the changes, in order, the first at time 0. */
  ghost predicate IsHistory(times: seq<nat>, tempi: seq<nat>) {
    |times| == |tempi| && times != [] && times[0] == 0 && Sorted(times)
  }

  /** The entry in force during the tick that starts at t. */
  ghost function Current(times: seq<nat>, t: nat): (j: nat)
    requires times != [] && times[0] == 0
    ensures j < |times| && forall k :: 0 <= k <= j ==> times[k] <= t
    ensures Sorted(times) ==> forall k :: j < k < |times| ==> times[k] > t
  {
    FirstAfter(times, t) - 1
  }

  /** The tempo found on stopping at t: of the first change made at t, else the one in force. */
  ghost function TempoAt(times: seq<nat>, tempi: seq<nat>, t: nat): nat
    requires IsHistory(times, tempi) && t > 0
  {
    var i := FirstAfter(times, t - 1);
    if i < |times| && times[i] == t then tempi[i] else tempi[i - 1]
  }

  /** The stops up to `upto`: every change in (from, upto), and `upto` unless it is the start; in order, once each. */
  ghost predicate Stops(times: seq<nat>, stops: seq<nat>, from: nat, upto: nat) {
    && (forall i, j :: 0 <= i < j < |stops| ==> stops[i] < stops[j])
    && (forall t :: t in stops <==> (from < t <= upto && (t == upto || t in times)))
  }

  /** The tempi found at the stops. */
  ghost predicate TempiAt(times: seq<nat>, tempi: seq<nat>, stops: seq<nat>, found: seq<nat>)
    requires IsHistory(times, tempi)
  {
    |found| == |stops| && forall i :: 0 <= i < |stops| ==> stops[i] > 0 && found[i] == TempoAt(times, tempi, stops[i])
  }

  /** Nothing changes strictly between the two times. */
  ghost predicate Quiet(times: seq<nat>, before: nat, now: nat) {
    forall t :: t in times ==> !(before < t < now)
  }

  /** No two changes at one time later than t. */
  ghost predicate Apart(times: seq<nat>, t: nat) {
    forall i, j :: 0 <= i < j < |times| && times[j] > t ==> times[i] < times[j]
  }

  lemma FoundIs(times: seq<nat>, tempi: seq<nat>, before: nat, now: nat, i: nat)
    requires IsHistory(times, tempi) && before < now && i == FirstAfter(times, before)
    requires i < |times| ==> times[i] >= now
    ensures i > 0 && TempoAt(times, tempi, now) == if i < |times| && times[i] == now then tempi[i] else tempi[i - 1]
  {
    FirstAfterIs(times, now - 1, i);
  }

  /** What one call of `find_tempo` has done, with time left to go. */
  lemma NextStop(times: seq<nat>, tempi: seq<nat>, before: nat, now: nat, limit: nat, found: nat)
    requires IsHistory(times, tempi) && before < limit
    requires var i := FirstAfter(times, before);
             if i < |times| && times[i] <= limit then now == times[i] && found == tempi[i]
             else now == limit && found == tempi[Current(times, before)]
    ensures before < now <= limit && found == TempoAt(times, tempi, now) && Quiet(times, before, now)
    ensures now < limit ==> now in times
    ensures now in times <==> var i := FirstAfter(times, before); i < |times| && times[i] <= limit
  {
    hide TempoAt;
    var i := FirstAfter(times, before);
    FoundIs(times, tempi, before, now, i);
    forall t | t in times ensures !(before < t < now) {
      var k :| 0 <= k < |times| && times[k] == t;
      assert i <= k ==> times[i] <= times[k];
    }
  }

  lemma PassOn(times: seq<nat>, stops: seq<nat>, from: nat, before: nat, now: nat)
    requires from <= before < now && Stops(times, stops, from, before) && Quiet(times, before, now)
    requires before == from || before in times
    ensures Stops(times, stops + [now], from, now)
  {
    var more := stops + [now];
    forall i, j | 0 <= i < j < |more| ensures more[i] < more[j] {
      assert more[i] in stops;
    }
    forall t ensures t in more <==> (from < t <= now && (t == now || t in times)) {
      assert t in more <==> t in stops || t == now;
    }
  }

  // ---------------------------------------------------------------- real time

  /** Real time per tick at a tempo, in 1/16 centiseconds, as `mf_ticks2sec` has it for divisions in ticks. */
  function Rate(division: nat, tempo: nat): real
    requires division > 0
  {
    tempo as real / (division as real * 1000000.0) * 1600.0
  }

  /** Sum, over all ticks before t, of the tempo in force at that tick. */
  ghost function TrueTime(division: nat, times: seq<nat>, tempi: seq<nat>, t: nat): real
    requires division > 0 && IsHistory(times, tempi)
  {
    if t == 0 then 0.0
    else TrueTime(division, times, tempi, t - 1) + Rate(division, tempi[Current(times, t - 1)])
  }

  lemma RateOrder(division: nat, a: nat, b: nat)
    requires division > 0
    ensures a < b ==> Rate(division, a) < Rate(division, b)
  {
    if a < b {
      Scaled(a as real, b as real, division as real * 1000000.0);
    }
  }

  lemma Scaled(x: real, y: real, d: real)
    requires x < y && d > 0.0
    ensures x / d < y / d
  {
  }

  lemma Product(x: real, y: real)
    ensures x * y == 0.0 <==> x == 0.0 || y == 0.0
  {
  }

  /** So many ticks at a rate. */
  function Amount(ticks: int, rate: real): real {
    ticks as real * rate
  }

  lemma AmountStep(ticks: int, rate: real)
    ensures Amount(ticks + 1, rate) == Amount(ticks, rate) + rate
    ensures Amount(0, rate) == 0.0
  {
    assert (ticks + 1) as real == ticks as real + 1.0;
    assert (ticks as real + 1.0) * rate == ticks as real * rate + rate;
  }

  /** The four numbers the real time is counted with: so much, counted on from `base` at `start` with `counted`. */
  datatype Count = Count(realtime: real, base: real, start: nat, counted: nat)

  ghost predicate Counted(division: nat, c: Count, now: nat) {
    division > 0 && c.start <= now && c.realtime == c.base + Amount(now - c.start, Rate(division, c.counted))
  }

  /** What a stop at `now` makes of them when it finds `found`; `saved` was in force since `before`. */
  function Revised(division: nat, c: Count, before: nat, saved: nat, now: nat, found: nat, atChange: bool): Count
    requires division > 0 && c.start <= now
  {
    if found == c.counted then
      c.(realtime := c.base + Amount(now - c.start, Rate(division, found)))
    else if atChange then
      var r := c.base + Amount(now - c.start, Rate(division, saved));
      Count(r, r, now, found)
    else
      Count(c.realtime + Amount(now - before, Rate(division, saved)), c.realtime, before, found)
  }

  /**
   When a stop adds the right amount for the stretch since the one before, for any state the
   clock may be in: what it counts with was in force, or is replaced from here or from there on.
   */
  lemma StopRightIff(division: nat, c: Count, before: nat, saved: nat, now: nat, found: nat, atChange: bool)
    requires Counted(division, c, before) && before < now
    ensures Revised(division, c, before, saved, now, found, atChange).realtime
            == c.realtime + Amount(now - before, Rate(division, saved)) <==>
            saved == c.counted || (found != c.counted && (!atChange || c.start == before))
  {
    hide Rate;
    var x, y := (now - before) as real, (before - c.start) as real;
    var u, v := Rate(division, saved), Rate(division, c.counted);
    var g := Revised(division, c, before, saved, now, found, atChange).realtime;
    assert (now - c.start) as real == x + y;
    RateOrder(division, saved, c.counted);
    RateOrder(division, c.counted, saved);
    if found == c.counted {
      assert g - (c.realtime + x * u) == x * (v - u);
      Product(x, v - u);
    } else if atChange {
      assert g - (c.realtime + x * u) == y * (u - v);
      Product(y, u - v);
    }
  }

  lemma SameCurrent(times: seq<nat>, before: nat, q: nat)
    requires times != [] && times[0] == 0 && Sorted(times) && before <= q
    requires forall t :: t in times ==> !(before < t <= q)
    ensures Current(times, q) == Current(times, before)
  {
    assert times[Current(times, q)] in times;
  }

  /** Between two changes the true time goes on evenly. */
  lemma {:induction false} Steady(division: nat, times: seq<nat>, tempi: seq<nat>, before: nat, now: nat)
    requires division > 0 && IsHistory(times, tempi) && before <= now && Quiet(times, before, now)
    ensures TrueTime(division, times, tempi, now)
         == TrueTime(division, times, tempi, before)
            + Amount(now - before, Rate(division, tempi[Current(times, before)]))
    decreases now
  {
    hide Current, Rate, Amount;
    var u := Rate(division, tempi[Current(times, before)]);
    if before == now {
      AmountStep(0, u);
    } else {
      Steady(division, times, tempi, before, now - 1);
      SameCurrent(times, before, now - 1);
      AmountStep(now - 1 - before, u);
    }
  }

  /** With no two changes at one time, the tempo found at a stop is the one in force from there on. */
  lemma FoundCurrent(times: seq<nat>, tempi: seq<nat>, before: nat, now: nat)
    requires IsHistory(times, tempi) && Apart(times, before) && before < now && Quiet(times, before, now)
    ensures TempoAt(times, tempi, now) == tempi[Current(times, now)]
    ensures now !in times ==> Current(times, now) == Current(times, before)
  {
    var c := Current(times, now);
    if now in times {
      var k :| 0 <= k < |times| && times[k] == now;
      FirstAfterIs(times, now - 1, c);
    } else {
      assert times[c] in times;
      FirstAfterIs(times, now - 1, c + 1);
      SameCurrent(times, before, now);
    }
  }

  /** The clock counts right, and with the tempo in force. */
  ghost predicate Settled(division: nat, times: seq<nat>, tempi: seq<nat>, c: Count, now: nat)
    requires IsHistory(times, tempi)
  {
    Counted(division, c, now) && c.counted == tempi[Current(times, now)]
  }

  /** One stop of a settled clock. */
  lemma StopSettled(division: nat, times: seq<nat>, tempi: seq<nat>, c: Count, before: nat, now: nat, atChange: bool)
    requires IsHistory(times, tempi) && Apart(times, before) && before < now && Quiet(times, before, now)
    requires Settled(division, times, tempi, c, before) && (now in times ==> atChange)
    ensures var found := TempoAt(times, tempi, now);
            var r := Revised(division, c, before, c.counted, now, found, atChange);
            && Settled(division, times, tempi, r, now)
            && r.realtime == c.realtime + (TrueTime(division, times, tempi, now)
                                           - TrueTime(division, times, tempi, before))
  {
    hide *;
    var found := TempoAt(times, tempi, now);
    SettledMeans(division, times, tempi, c, before);
    FoundCurrent(times, tempi, before, now);
    Steady(division, times, tempi, before, now);
    StopRightIff(division, c, before, c.counted, now, found, atChange);
    RevisedCounted(division, c, before, now, found, atChange);
    SettledMeans(division, times, tempi, Revised(division, c, before, c.counted, now, found, atChange), now);
  }

  lemma SettledMeans(division: nat, times: seq<nat>, tempi: seq<nat>, c: Count, now: nat)
    requires IsHistory(times, tempi)
    ensures |tempi| == |times| > 0 && times[0] == 0 && Sorted(times)
    ensures Settled(division, times, tempi, c, now) <==>
            Counted(division, c, now) && c.counted == tempi[Current(times, now)]
    ensures Counted(division, c, now) ==> division > 0 && c.start <= now
  {
  }

  lemma RevisedCounted(division: nat, c: Count, before: nat, now: nat, found: nat, atChange: bool)
    requires Counted(division, c, before) && before <= now && (found == c.counted || atChange)
    ensures var r := Revised(division, c, before, c.counted, now, found, atChange);
            Counted(division, r, now) && r.counted == found
  {
    hide Rate;
  }

  /** What ticks come to at q microseconds to the quarter note, in 1/16 centiseconds. */
  function Lasting(division: nat, q: nat, ticks: nat): real
    requires division > 0
  {
    ticks as real * (q as real * 0.0016) / division as real
  }

  /** A quarter note, as many ticks as the division says, takes q microseconds. */
  lemma QuarterNote(division: nat, q: nat)
    requires division > 0
    ensures Lasting(division, q, division) == q as real * 0.0016
    ensures Lasting(division, q, 0) == 0.0
  {
  }

  lemma TicksLast(division: nat, q: nat, ticks: nat)
    requires division > 0
    ensures Amount(ticks, Rate(division, q)) == Lasting(division, q, ticks)
  {
  }

  /** From one time to another without a change between them, the true time goes on with the tempo in force. */
  lemma Evenly(division: nat, times: seq<nat>, tempi: seq<nat>, before: nat, now: nat)
    requires division > 0 && IsHistory(times, tempi) && before <= now && Quiet(times, before, now)
    ensures TrueTime(division, times, tempi, now)
         == TrueTime(division, times, tempi, before) + Lasting(division, tempi[Current(times, before)], now - before)
  {
    hide Current, Rate, Amount, Lasting, TrueTime;
    Steady(division, times, tempi, before, now);
    TicksLast(division, tempi[Current(times, before)], now - before);
  }

  /**
   The first stop of a second track, one quarter note on.  The history says 500000 from the start
   and 600000 from there on, where the first track has left the clock counting: the first quarter
   note is counted as 0.6 seconds and not as 0.5.
   */
  lemma SecondTrackExample(division: nat)
    requires division > 0
    ensures Revised(division, Count(0.0, 0.0, 0, 600000), 0, 500000, division, 600000, true).realtime == 960.0
    ensures TrueTime(division, [0, division], [500000, 600000], division) == 800.0
  {
    hide Rate, Amount, Lasting, TrueTime, FirstAfter;
    var times: seq<nat>, tempi: seq<nat> := [0, division], [500000, 600000];
    var c := Count(0.0, 0.0, 0, 600000);
    TicksLast(division, 600000, division);
    QuarterNote(division, 600000);
    QuarterNote(division, 500000);
    Evenly(division, times, tempi, 0, division);
    TrueTimeStarts(division, times, tempi);
    FirstAfterIs(times, 0, 1);
  }

  lemma TrueTimeStarts(division: nat, times: seq<nat>, tempi: seq<nat>)
    requires division > 0 && IsHistory(times, tempi)
    ensures TrueTime(division, times, tempi, 0) == 0.0
  {
  }

  class History {
    const tempo: array<nat>
    const time: array<nat>
    const division: nat
    var count: int
    var revisedTime: nat
    var tempoChangeTime: nat
    var currtime: nat
    var currtempo: nat
    /** `Mf_f_realtime`, `old_f_realtime`, `old_currtime` and `old_currtempo`. */
    var realtime: real
    var oldRealtime: real
    var oldCurrtime: nat
    var oldTempo: nat

    /** As set up with the header: one entry, at time 0. */
    constructor (currtempo: nat, division: nat)
      requires division > 0
      ensures Valid() && Times() == [0] && Tempos() == [currtempo] && currtime == 0 && this.division == division
      ensures fresh(tempo) && fresh(time) && this.currtempo == oldTempo == currtempo
    {
      tempo, time, this.division := new nat[MAX_HISTORY], new nat[MAX_HISTORY], division;
      count, revisedTime, tempoChangeTime, currtime, this.currtempo := 0, 0, 0, 0, currtempo;
      realtime, oldRealtime, oldCurrtime, oldTempo := 0.0, 0.0, 0, currtempo;
      new;
      tempo[0] := currtempo;
      time[0] := 0;
    }

    ghost predicate Valid()
      reads this`count, time
    {
      && tempo.Length == time.Length == MAX_HISTORY && tempo != time && 0 <= count < MAX_HISTORY && division > 0
      && Sorted(time[..count + 1]) && time[0] == 0
    }

    ghost function Times(): (r: seq<nat>)
      requires Valid()
      reads this`count, time
      ensures |r| == count + 1
    {
      time[..count + 1]
    }

    ghost function Tempos(): (r: seq<nat>)
      requires Valid()
      reads this`count, time, tempo
      ensures |r| == count + 1
    {
      tempo[..count + 1]
    }

    ghost function Clock(): Count
      reads this`realtime, this`oldRealtime, this`oldCurrtime, this`oldTempo
    {
      Count(realtime, oldRealtime, oldCurrtime, oldTempo)
    }

    lemma Values() returns (times: seq<nat>, tempi: seq<nat>)
      requires Valid()
      ensures times == Times() && tempi == Tempos() && IsHistory(times, tempi) && division > 0
    {
      times, tempi := Times(), Tempos();
    }

    /**
     The 0x51 case of `metaevent`: a new tempo no earlier than the last goes into the
     history.  The tempo is only taken over in the argument of the `Mf_tempo` call, so not
     when that callback is missing.
     */
    method SetTempo(given: nat, callback: bool)
      requires Valid()
      modifies this`count, this`currtempo, tempo, time
      ensures Valid() && currtempo == if callback then given else old(currtempo)
      ensures var last, value := old(count), if callback then given else old(currtempo);
              if old(Tempos())[last] == value || old(Times())[last] > currtime then
                Times() == old(Times()) && Tempos() == old(Tempos())
              else if last < 511 then
                Times() == old(Times()) + [currtime] && Tempos() == old(Tempos()) + [value]
              else
                Times() == old(Times())[last := currtime] && Tempos() == old(Tempos())[last := value]
    {
      if callback {
        currtempo := given;
      }
      if tempo[count] == currtempo {
        return;
      }
      if time[count] > currtime {
        return;
      }
      if count < MAX_HISTORY - 1 {
        count := count + 1;
      }
      tempo[count] := currtempo;
      time[count] := currtime;
    }

    /**
     `find_tempo`: go on to the next change not later than now, or to now, with the last tempo set
     neither later than now nor later than where the clock stands, which may itself be later than now.
     */
    method FindTempo() returns (r: nat)
      requires Valid()
      modifies this`revisedTime, this`tempoChangeTime
      ensures Times()[0] == 0
      ensures var i := FirstAfter(Times(), old(revisedTime));
              if i < |Times()| && Times()[i] <= currtime then
                revisedTime == tempoChangeTime == Times()[i] && r == Tempos()[i]
              else
                && revisedTime == currtime && tempoChangeTime == old(tempoChangeTime)
                && r == Tempos()[Current(Times(), if old(revisedTime) <= currtime then old(revisedTime) else currtime)]
    {
      hide FirstAfter, Current, Sorted;
      var before, newTempo := currtempo, currtempo;
      ghost var times, first := Times(), FirstAfter(Times(), revisedTime);
      ghost var found := Current(times, if revisedTime <= currtime then revisedTime else currtime);
      var i := 0;
      while i <= count
        invariant 0 <= i <= count + 1 && i <= first
        invariant before == if i == 0 then currtempo else tempo[if i <= found then i - 1 else found]
      {
        assert time[i] == times[i] && time[found] == times[found];
        if time[i] <= currtime {
          before := tempo[i];
        }
        newTempo := tempo[i];
        if time[i] > revisedTime {
          break;
        }
        i := i + 1;
      }
      assert i == first;
      if i > count || time[i] > currtime {
        revisedTime := currtime;
        return before;
      }
      revisedTime := time[i];
      tempoChangeTime := time[i];
      return newTempo;
    }

    /**
     The start of `readtrack`: wherever the last track ended, the tempo is the last one set at
     time 0.  What the clock counts with is left over, so it is settled only if that is the same.
     */
    method StartTrack()
      requires Valid()
      modifies this`revisedTime, this`tempoChangeTime, this`currtime, this`currtempo
      modifies this`realtime, this`oldRealtime, this`oldCurrtime
      ensures Valid() && currtime == revisedTime == 0 && realtime == 0.0 && oldCurrtime == 0
      ensures IsHistory(Times(), Tempos()) && currtempo == Tempos()[Current(Times(), 0)]
      ensures Settled(division, Times(), Tempos(), Clock(), 0) <==> oldTempo == currtempo
    {
      hide *;
      ghost var times, tempi := Values();
      currtime := 0;
      realtime, oldRealtime, oldCurrtime := 0.0, 0.0, 0;
      NothingBefore(times, tempi, revisedTime);
      currtempo := FindTempo();
      SettledAtStart(times, tempi, Clock(), currtempo);
      ClockIs();
    }

    lemma ClockIs()
      ensures Clock() == Count(realtime, oldRealtime, oldCurrtime, oldTempo)
    {
    }

    /** One stop of the loop: the real time is counted on. */
    method Revise(before: nat, saved: nat)
      requires division > 0 && before <= revisedTime && oldCurrtime <= revisedTime
      modifies this`realtime, this`oldRealtime, this`oldCurrtime, this`oldTempo
      ensures oldCurrtime <= revisedTime && oldTempo == currtempo
      ensures Clock() == Revised(division, old(Clock()), before, saved, revisedTime, currtempo,
                                 revisedTime == tempoChangeTime)
    {
      if currtempo != oldTempo {
        oldTempo := currtempo;
        if revisedTime != tempoChangeTime {
          oldRealtime := realtime;
          oldCurrtime := before;
        }
        realtime := oldRealtime + Amount(revisedTime - oldCurrtime, Rate(division, saved));
        if revisedTime == tempoChangeTime {
          oldCurrtime := revisedTime;
          oldRealtime := realtime;
        }
      } else {
        realtime := oldRealtime + Amount(revisedTime - oldCurrtime, Rate(division, currtempo));
      }
    }

    /** The body of that loop: on to the next change or to now, and the real time with it. */
    method NextChange(ghost times: seq<nat>, ghost tempi: seq<nat>, ghost settled: bool)
      requires Valid() && Times() == times && Tempos() == tempi && IsHistory(times, tempi)
      requires revisedTime < currtime && oldCurrtime <= revisedTime
      requires settled ==> Apart(times, revisedTime) && currtempo == oldTempo
      requires settled ==> Settled(division, times, tempi, Clock(), revisedTime)
      modifies this`revisedTime, this`tempoChangeTime, this`currtempo
      modifies this`realtime, this`oldRealtime, this`oldCurrtime, this`oldTempo
      ensures Valid() && Times() == times && Tempos() == tempi && division > 0
      ensures old(revisedTime) < revisedTime <= currtime && oldCurrtime <= revisedTime
      ensures currtempo == TempoAt(times, tempi, revisedTime) && Quiet(times, old(revisedTime), revisedTime)
      ensures revisedTime < currtime ==> revisedTime in times
      ensures settled ==>
                && currtempo == oldTempo && Settled(division, times, tempi, Clock(), revisedTime)
                && realtime == old(realtime) + (TrueTime(division, times, tempi, revisedTime)
                                                - TrueTime(division, times, tempi, old(revisedTime)))
    {
      hide *;
      var before, saved := revisedTime, currtempo;
      ghost var t, tt := Values();
      ghost var clock := Clock();
      ClockIs();
      currtempo := FindTempo();
      NextStop(times, tempi, before, revisedTime, currtime, currtempo);
      Revise(before, saved);
      ClockIs();
      if settled {
        StopSettled(division, times, tempi, clock, before, revisedTime, revisedTime == tempoChangeTime);
      }
    }

    /**
     The stepping of `readtrack` over one delta: `stops` are the values `revised_time`
     takes, each strictly later than the one before.  A settled clock with no two changes at one
     time ahead adds the sum of the tempi in force, and stays settled.
     */
    method Advance(deltaTicks: nat) returns (ghost stops: seq<nat>, found: seq<nat>)
      requires Valid() && oldCurrtime <= currtime
      modifies this`revisedTime, this`tempoChangeTime, this`currtime, this`currtempo
      modifies this`realtime, this`oldRealtime, this`oldCurrtime, this`oldTempo
      ensures Valid() && currtime == old(currtime) + deltaTicks && revisedTime == currtime && oldCurrtime <= currtime
      ensures IsHistory(Times(), Tempos()) && Times() == old(Times()) && Tempos() == old(Tempos())
      ensures Stops(Times(), stops, old(currtime), currtime) && TempiAt(Times(), Tempos(), stops, found)
      ensures Apart(Times(), old(currtime)) && old(currtempo == oldTempo)
              && Settled(division, Times(), Tempos(), old(Clock()), old(currtime)) ==>
                && currtempo == oldTempo && Settled(division, Times(), Tempos(), Clock(), currtime)
                && realtime == old(realtime) + (TrueTime(division, Times(), Tempos(), currtime)
                                                - TrueTime(division, Times(), Tempos(), old(currtime)))
      ensures old(Times()) == Times() && Apart(Times(), old(currtime)) && old(currtempo == oldTempo)
              && Settled(division, Times(), Tempos(), old(Clock()), old(currtime))
              && Quiet(Times(), old(currtime), currtime) ==>
                realtime == old(realtime) + Lasting(division, Tempos()[Current(Times(), old(currtime))], deltaTicks)
    {
      hide *;
      ghost var times, tempi := Values();
      revisedTime := currtime;
      currtime := currtime + deltaTicks;
      stops, found := [], [];
      ghost var from := revisedTime;
      ghost var settled := Apart(times, from) && currtempo == oldTempo
          && Settled(division, times, tempi, Clock(), from);
      NoStops(times, tempi, from);
      ClockIs();
      while revisedTime < currtime
        invariant from <= revisedTime <= currtime == from + deltaTicks && Valid() && oldCurrtime <= revisedTime
        invariant Times() == times && Tempos() == tempi
        invariant Stops(times, stops, from, revisedTime) && TempiAt(times, tempi, stops, found)
        invariant revisedTime < currtime ==> revisedTime == from || revisedTime in times
        invariant settled ==> Apart(times, revisedTime)
        invariant settled ==> currtempo == oldTempo && Settled(division, times, tempi, Clock(), revisedTime)
        invariant settled ==> realtime == old(realtime) + (TrueTime(division, times, tempi, revisedTime)
                                                           - TrueTime(division, times, tempi, from))
        decreases currtime - revisedTime
      {
        ghost var before := revisedTime;
        NextChange(times, tempi, settled);
        LaterApart(times, before, revisedTime);
        PassOn(times, stops, from, before, revisedTime);
        TempoOn(times, tempi, stops, found, revisedTime, currtempo);
        stops := stops + [revisedTime];
        found := found + [currtempo];
      }
      if settled && Quiet(times, from, currtime) {
        Evenly(division, times, tempi, from, currtime);
      }
    }
  }

  lemma NothingBefore(times: seq<nat>, tempi: seq<nat>, at: nat)
    requires IsHistory(times, tempi)
    ensures FirstAfter(times, at) < |times| ==> times[FirstAfter(times, at)] > 0
  {
  }

  lemma SettledAtStart(times: seq<nat>, tempi: seq<nat>, c: Count, tempo: nat)
    requires IsHistory(times, tempi) && tempo == tempi[Current(times, 0)]
    ensures forall division: nat :: division > 0 && c.realtime == c.base == 0.0 && c.start == 0 ==>
              (Settled(division, times, tempi, c, 0) <==> c.counted == tempo)
  {
  }

  lemma LaterApart(times: seq<nat>, before: nat, now: nat)
    requires before <= now
    ensures Apart(times, before) ==> Apart(times, now)
  {
  }

  lemma NoStops(times: seq<nat>, tempi: seq<nat>, from: nat)
    requires IsHistory(times, tempi)
    ensures Stops(times, [], from, from) && TempiAt(times, tempi, [], [])
  {
  }

  lemma TempoOn(times: seq<nat>, tempi: seq<nat>, stops: seq<nat>, found: seq<nat>, now: nat, tempo: nat)
    requires IsHistory(times, tempi) && TempiAt(times, tempi, stops, found)
    requires now > 0 && tempo == TempoAt(times, tempi, now)
    ensures TempiAt(times, tempi, stops + [now], found + [tempo])
  {
  }
}
