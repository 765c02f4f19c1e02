/**
 A track of a song: an array of events, updated in place.  Each attached event
 carries its number, its absolute time and the pulses since the previous event.
 */
module SmfTracks {
  import opened Bytes
  import opened Tracks

  class SmfEvent {
    const bytes: seq<Byte>
    var track: SmfTrack?
    var eventNumber: int
    var delta: int
    var time: int
    var seconds: real
    var trackNumber: int

    constructor (bytes: seq<Byte>)
      ensures this.bytes == bytes && Detached() && time == -1 && seconds == -1.0
    {
      this.bytes := bytes;
      track, eventNumber, delta, time, seconds, trackNumber := null, 0, -1, -1, -1.0, -1;
    }

    /** As made, or as left by removal: numbered 0 or -1. */
    predicate Detached()
      reads this`track, this`delta, this`eventNumber
    {
      track == null && delta == -1 && eventNumber <= 0
    }

    /** What removal leaves of the fields. */
    method Reset()
      modifies this`track, this`eventNumber, this`delta, this`time, this`seconds
      ensures Detached() && time == -1 && seconds == -1.0
    {
      track, eventNumber, delta, time, seconds := null, -1, -1, -1, -1.0;
    }
  }

  /** v lists the times and messages of the events es. */
  ghost predicate Mirrors(es: seq<SmfEvent>, v: Track)
    reads es`time
  {
    |v| == |es| && forall i :: 0 <= i < |es| ==> v[i] == Ev(es[i].time, es[i].bytes)
  }

  // ------------------------------------------------------ the pointer array

  ghost function Index<T>(s: seq<T>, x: T): (i: nat)
    requires x in s
    ensures i < |s| && s[i] == x
  {
    var i: nat :| i < |s| && s[i] == x;
    i
  }

  /** No pointer occurs twice. */
  ghost predicate Distinct<T>(s: seq<T>) {
    forall i :: 0 <= i < |s| ==> Index(s, s[i]) == i
  }

  lemma DistinctPairs<T>(s: seq<T>)
    requires forall i, j :: 0 <= i < j < |s| ==> s[i] != s[j]
    ensures Distinct(s)
  {
  }

  lemma DistinctRemove<T>(s: seq<T>, k: nat)
    requires Distinct(s) && k < |s|
    ensures Distinct(RemoveAt(s, k)) && s[k] !in RemoveAt(s, k)
  {
    var r := RemoveAt(s, k);
    forall i | 0 <= i < |r| ensures r[i] == s[if i < k then i else i + 1] {}
    DistinctPairs(r);
  }

  lemma Taken<T>(s: seq<T>, at: nat, k: nat)
    requires Distinct(s) && at < |s| && k < |s| && s[at] == s[k]
    ensures at == k && Distinct(RemoveAt(s, k)) && s[k] !in RemoveAt(s, k)
    ensures |RemoveAt(s, k)| == |s| - 1
    ensures forall i :: 0 <= i < |s| - 1 ==> RemoveAt(s, k)[i] == s[if i < k then i else i + 1]
  {
    assert Index(s, s[at]) == at && Index(s, s[k]) == k;
    DistinctRemove(s, k);
  }

  /** `events_array_compare_function`, as a strict order. */
  predicate Less(a: SmfEvent, b: SmfEvent)
    reads a`time, a`eventNumber, b`time, b`eventNumber
  {
    a.time < b.time || (a.time == b.time && a.eventNumber < b.eventNumber)
  }

  ghost predicate KeySorted(s: seq<SmfEvent>)
    reads s`time, s`eventNumber
  {
    forall i, j :: 0 <= i < j < |s| ==> !Less(s[j], s[i])
  }

  ghost predicate StrictlySorted(s: seq<SmfEvent>)
    reads s`time, s`eventNumber
  {
    forall i, j :: 0 <= i < j < |s| ==> Less(s[i], s[j])
  }

  /** `g_ptr_array_sort` with that comparison: some sorted permutation. */
  method PtrArraySort(s: seq<SmfEvent>) returns (r: seq<SmfEvent>)
    ensures KeySorted(r) && multiset(r) == multiset(s)
  {
    r := [];
    for n := 0 to |s|
      invariant KeySorted(r) && multiset(r) == multiset(s[..n])
    {
      var k := |r|;
      while k > 0 && Less(s[n], r[k - 1])
        invariant 0 <= k <= |r|
        invariant forall i :: k <= i < |r| ==> Less(s[n], r[i])
      {
        k := k - 1;
      }
      InsertSorted(r, k, s[n]);
      InsertMultiset(r, k, s[n]);
      r := InsertAt(r, k, s[n]);
      assert s[..n + 1] == s[..n] + [s[n]];
    }
    assert s[..|s|] == s;
  }

  lemma InsertSorted(r: seq<SmfEvent>, k: nat, e: SmfEvent)
    requires k <= |r| && KeySorted(r)
    requires k > 0 ==> !Less(e, r[k - 1])
    requires forall i :: k <= i < |r| ==> Less(e, r[i])
    ensures KeySorted(InsertAt(r, k, e))
  {
    var t := InsertAt(r, k, e);
    forall i, j | 0 <= i < j < |t| ensures !Less(t[j], t[i]) {
      if i == k {
        assert t[j] == r[j - 1];
      } else if j == k {
        assert i < k - 1 ==> !Less(r[k - 1], r[i]);
      }
    }
  }

  lemma InsertMultiset<T>(r: seq<T>, k: nat, e: T)
    requires k <= |r|
    ensures multiset(InsertAt(r, k, e)) == multiset(r) + multiset{e}
  {
    assert r == r[..k] + r[k..];
  }

  lemma SameHead(a: seq<SmfEvent>, b: seq<SmfEvent>)
    requires KeySorted(a) && StrictlySorted(b) && multiset(a) == multiset(b) && a != [] && b != []
    ensures a[0] == b[0]
  {
    assert a[0] in multiset(b) && b[0] in multiset(a);
    var i :| 0 <= i < |a| && a[i] == b[0];
    var j :| 0 <= j < |b| && b[j] == a[0];
    assert !Less(b[0], a[0]);
  }

  lemma SameTail<T>(a: seq<T>, b: seq<T>)
    requires a != [] && b != [] && a[0] == b[0] && multiset(a) == multiset(b)
    ensures multiset(a[1..]) == multiset(b[1..])
  {
    assert a == [a[0]] + a[1..] && b == [b[0]] + b[1..];
    assert multiset(a[1..]) == multiset(a) - multiset{a[0]};
    assert multiset(b[1..]) == multiset(b) - multiset{b[0]};
  }

  /** Sorting leaves no choice when all keys differ. */
  lemma {:induction false} SortUnique(a: seq<SmfEvent>, b: seq<SmfEvent>)
    requires KeySorted(a) && StrictlySorted(b) && multiset(a) == multiset(b)
    ensures a == b
  {
    assert |a| == |multiset(a)| == |multiset(b)| == |b|;
    if a != [] {
      SameHead(a, b);
      SameTail(a, b);
      SortUnique(a[1..], b[1..]);
      assert a == [a[0]] + a[1..] && b == [b[0]] + b[1..];
    }
  }

  /** `g_ptr_array_remove`: drop the first occurrence, keep the order. */
  method PtrArrayRemove<T(==)>(s: seq<T>, x: T) returns (r: seq<T>, ghost k: nat)
    requires x in s
    ensures k < |s| && s[k] == x && x !in s[..k] && r == RemoveAt(s, k)
    ensures |r| == |s| - 1
  {
    var i := 0;
    while s[i] != x
      invariant 0 <= i < |s| && x !in s[..i] && x in s[i..]
      decreases |s| - i
    {
      i := i + 1;
    }
    k := i;
    r := RemoveAt(s, i);
  }

  // ---------------------------------------------------------------- the track

  class SmfTrack {
    var smf: object?
    var trackNumber: int
    var numberOfEvents: int
    var nextEventNumber: int
    var timeOfNextEvent: int
    var events: seq<SmfEvent>
    /** Where the track's chunk starts in the file buffer, -1 for none, and how long it is. */
    var bufferStart: int
    var bufferLength: int
    /** The loader's place in that chunk, and the first byte of the event before it. */
    var nextEventOffset: int
    var lastStatus: Byte
    /** The events as values: times and messages. */
    ghost var contents: Track

    constructor ()
      ensures Synced() && events == [] && smf == null && nextEventNumber == -1 && contents == []
      ensures bufferStart == -1 && bufferLength == 0 && lastStatus == 0
    {
      bufferStart, bufferLength, nextEventOffset, lastStatus := -1, 0, -1, 0;
      smf, trackNumber, numberOfEvents, nextEventNumber, timeOfNextEvent, events := null, 0, 0, -1, 0, [];
      contents := [];
    }

    ghost predicate Synced()
      reads this`events, this`numberOfEvents, this`trackNumber, this`contents
      reads events`track, events`trackNumber, events`eventNumber, events`delta, events`time
    {
      Valid() && Mirrors(events, contents)
    }

    /** Event i is in its place: numbered, timed and linked to its predecessor. */
    ghost predicate Placed(i: nat)
      requires i < |events|
      reads this`events, this`trackNumber
      reads events`track, events`trackNumber, events`eventNumber, events`delta, events`time
    {
      PlacedIn(events, i)
    }

    ghost predicate Valid()
      reads this`events, this`numberOfEvents, this`trackNumber
      reads events`track, events`trackNumber, events`eventNumber, events`delta, events`time
    {
      && numberOfEvents == |events|
      && forall i :: 0 <= i < |events| ==> Placed(i)
    }

    lemma {:induction false} Ordered(i: nat, j: nat)
      requires Valid() && i <= j < |events|
      ensures events[i].time <= events[j].time
      decreases j
    {
      if i < j {
        assert Placed(j);
        Ordered(i, j - 1);
      }
    }

    /** The stored numbers and deltas are those of the list of times. */
    lemma ContentsValid()
      requires Synced()
      ensures Tracks.Valid(contents)
      ensures forall i :: 0 <= i < |events| ==> events[i].eventNumber == i + 1 && events[i].delta == Delta(contents, i)
    {
      forall i, j | 0 <= i < j < |events| ensures events[i].time <= events[j].time {
        Ordered(i, j);
      }
      forall i | 0 <= i < |events|
        ensures events[i].time >= 0 && events[i].eventNumber == i + 1 && events[i].delta == Delta(contents, i)
      {
        assert Placed(i);
      }
    }

    /** `smf_track_get_last_event`. */
    method GetLastEvent() returns (e: SmfEvent?)
      requires Valid()
      ensures events == [] ==> e == null
      ensures events != [] ==> e == events[|events| - 1]
    {
      if numberOfEvents == 0 {
        return null;
      }
      return events[numberOfEvents - 1];
    }

    /** The array part of `smf_track_add_event`, after a displaced End Of Track has gone. */
    method Insert(event: SmfEvent)
      requires Synced() && event.Detached() && event.time >= 0
      requires events == [] ==> nextEventNumber == -1
      modifies this`events, this`numberOfEvents, this`nextEventNumber
      modifies events`eventNumber, events`delta
      modifies event`track, event`trackNumber, event`eventNumber, event`delta
      ensures Valid()
      ensures events == InsertAt(old(events), Slot(contents, event.time), event)
      ensures event.track == this
      ensures nextEventNumber == if old(events) == [] then 1 else old(nextEventNumber)
    {
      var lastPulses := Claim(event);
      if lastPulses <= event.time {
        Append(event, lastPulses);
      } else {
        InsertInMiddle(event);
      }
    }

    /** Take the event over: its track fields, the first cursor, the count and the time of the last event. */
    method Claim(event: SmfEvent) returns (lastPulses: int)
      requires Synced() && event.Detached()
      modifies this`numberOfEvents, this`nextEventNumber, event`track, event`trackNumber
      ensures event !in events && event.track == this && event.trackNumber == trackNumber
      ensures forall i :: 0 <= i < |events| ==> PlacedIn(events, i)
      ensures numberOfEvents == |events| + 1
      ensures nextEventNumber == if events == [] then 1 else old(nextEventNumber)
      ensures lastPulses == LastTime(contents)
    {
      NotMember(event);
      lastPulses := 0;
      event.track := this;
      event.trackNumber := trackNumber;
      if numberOfEvents == 0 {
        nextEventNumber := 1;
      }
      if numberOfEvents > 0 {
        lastPulses := events[numberOfEvents - 1].time;
      }
      numberOfEvents := numberOfEvents + 1;
      forall i | 0 <= i < |events| ensures PlacedIn(events, i) {
        assert old(Placed(i));
      }
    }

    method InsertInMiddle(event: SmfEvent)
      requires numberOfEvents == |events| + 1 && event !in events
      requires forall i :: 0 <= i < |events| ==> PlacedIn(events, i)
      requires event.track == this && event.trackNumber == trackNumber && event.delta == -1 && event.eventNumber <= 0
      requires Mirrors(events, contents) && 0 <= event.time < LastTime(contents)
      modifies this`events, events`eventNumber, events`delta, event`eventNumber, event`delta
      ensures Valid() && events == InsertAt(old(events), FirstFrom(contents, event.time), event)
    {
      ghost var before := events;
      ghost var slot := FirstFrom(contents, event.time);
      SplitTimes(slot, event.time);
      DistinctInsert(before, slot, event);
      forall i | 0 <= i < |before| ensures UnnumberedPlaced(before, i) {
        assert PlacedIn(before, i);
      }
      SortInMiddle(event, slot);
      PutRight(event, before, slot);
    }

    method PutRight(event: SmfEvent, ghost before: seq<SmfEvent>, ghost slot: nat)
      requires Unnumbered(event, before, slot) && event.delta == -1 && Linked(before)
      modifies events`eventNumber, events`delta
      ensures Valid()
    {
      OthersHaveDeltas(event, before, slot);
      Renumber(slot);
      forall i | 0 <= i < |before| ensures UnnumberedPlaced(before, i) {
        assert old(UnnumberedPlaced(before, i));
        assert before[i] == events[if i < slot then i else i + 1];
      }
      AdjustNext(event, before, slot);
    }

    lemma OthersHaveDeltas(event: SmfEvent, before: seq<SmfEvent>, slot: nat)
      requires Unnumbered(event, before, slot) && Linked(before)
      ensures events[slot] == event
      ensures forall i :: 0 <= i < |events| && i != slot ==> events[i].delta >= 0
    {
      forall i | 0 <= i < |events| && i != slot ensures events[i].delta >= 0 {
        assert UnnumberedPlaced(before, if i < slot then i else i - 1);
      }
    }

    ghost predicate Linked(s: seq<SmfEvent>)
      reads this`trackNumber, s`track, s`trackNumber, s`delta, s`time
    {
      forall i :: 0 <= i < |s| ==> UnnumberedPlaced(s, i)
    }

    method Append(event: SmfEvent, lastPulses: int)
      requires numberOfEvents == |events| + 1 && event !in events
      requires forall i :: 0 <= i < |events| ==> PlacedIn(events, i)
      requires event.track == this && event.trackNumber == trackNumber && event.time >= 0
      requires Mirrors(events, contents) && lastPulses == LastTime(contents) <= event.time
      modifies this`events, event`delta, event`eventNumber
      ensures Valid() && events == InsertAt(old(events), |old(events)|, event)
    {
      ghost var before := events;
      event.delta := event.time - lastPulses;
      events := events + [event];
      event.eventNumber := numberOfEvents;
      forall i | 0 <= i < |events| ensures Placed(i) {
        assert i < |before| ==> old(PlacedIn(before, i));
      }
    }

    lemma SplitTimes(slot: nat, time: int)
      requires forall i :: 0 <= i < |events| ==> PlacedIn(events, i)
      requires Mirrors(events, contents) && slot == FirstFrom(contents, time) && LastTime(contents) > time >= 0
      ensures slot < |events| && Splits(events, slot, time)
    {
      assert contents[|contents| - 1].time > time;
      assert forall i :: 0 <= i < |events| ==> contents[i].time == events[i].time;
    }

    ghost predicate Splits(s: seq<SmfEvent>, slot: nat, time: int)
      reads s`time
    {
      && slot <= |s|
      && (forall i :: 0 <= i < slot ==> s[i].time < time)
      && (slot < |s| ==> s[slot].time >= time)
    }

    lemma NotMember(event: SmfEvent)
      requires Valid() && event.track == null
      ensures event !in events
    {
      forall i | 0 <= i < |events| ensures events[i] != event {
        assert Placed(i);
      }
    }

    /** Append, then sort by time and number: the new event moves before all events not earlier than it. */
    method SortInMiddle(event: SmfEvent, ghost slot: nat)
      requires forall i :: 0 <= i < |events| ==> Placed(i)
      requires event.eventNumber <= 0 && Splits(events, slot, event.time)
      modifies this`events
      ensures events == InsertAt(old(events), slot, event)
    {
      hide *;
      SlotWithin(slot, event.time);
      ghost var expected := InsertAt(events, slot, event);
      InsertMultiset(events, slot, event);
      var sorted := PtrArraySort(events + [event]);
      StrictlyPlaced();
      StrictInsert(events, slot, event);
      SortUnique(sorted, expected);
      events := sorted;
    }

    lemma SlotWithin(slot: nat, time: int)
      requires Splits(events, slot, time)
      ensures slot <= |events|
    {
    }

    lemma StrictlyPlaced()
      requires forall i :: 0 <= i < |events| ==> Placed(i)
      ensures StrictlySorted(events)
      ensures forall i :: 0 <= i < |events| ==> events[i].eventNumber > 0
    {
      forall i, j | 0 <= i < j < |events| ensures Less(events[i], events[j]) {
        OrderedPrefix(events, i, j);
        assert Placed(i) && Placed(j);
      }
      forall i | 0 <= i < |events| ensures events[i].eventNumber > 0 {
        assert Placed(i);
      }
    }

    lemma StrictInsert(before: seq<SmfEvent>, slot: nat, event: SmfEvent)
      requires StrictlySorted(before) && Splits(before, slot, event.time)
      requires forall i :: 0 <= i < |before| ==> before[i].eventNumber > event.eventNumber
      ensures StrictlySorted(InsertAt(before, slot, event))
    {
      var r := InsertAt(before, slot, event);
      forall i, j | 0 <= i < j < |r| ensures Less(r[i], r[j]) {
        if i == slot {
          assert r[j] == before[j - 1];
          assert slot == j - 1 || Less(before[slot], before[j - 1]);
        } else if j == slot {
          assert r[i] == before[i];
        } else {
          assert r[i] == before[if i < slot then i else i - 1] && r[j] == before[if j < slot then j else j - 1];
        }
      }
    }

    lemma DistinctInsert(before: seq<SmfEvent>, slot: nat, event: SmfEvent)
      requires slot <= |before| && event !in before
      requires forall i :: 0 <= i < |before| ==> PlacedIn(before, i)
      ensures Distinct(InsertAt(before, slot, event))
    {
      var r := InsertAt(before, slot, event);
      forall i, j | 0 <= i < j < |r| ensures r[i] != r[j] {
        if i != slot && j != slot {
          var i', j' := if i < slot then i else i - 1, if j < slot then j else j - 1;
          assert PlacedIn(before, i') && PlacedIn(before, j');
        }
      }
      DistinctPairs(r);
    }

    /** The middle of a sorted insertion, before the numbers and deltas are put right. */
    ghost predicate Unnumbered(event: SmfEvent, before: seq<SmfEvent>, slot: nat)
      reads this`events, this`numberOfEvents, this`trackNumber
      reads before`track, before`trackNumber, before`time, event`track, event`trackNumber, event`time
    {
      && slot < |before| && events == InsertAt(before, slot, event) && numberOfEvents == |events|
      && event.track == this && event.trackNumber == trackNumber && event !in before
      && 0 <= event.time <= before[slot].time
      && (slot > 0 ==> before[slot - 1].time <= event.time)
      && Distinct(events)
    }

    /** Renumber everything and give the new event, in place `slot`, its delta. */
    method Renumber(ghost slot: nat)
      requires numberOfEvents == |events| && slot < |events| && events[slot].delta == -1
      requires Distinct(events)
      requires forall k :: 0 <= k < |events| && k != slot ==> events[k].delta >= 0
      modifies events`eventNumber, events`delta
      ensures forall k :: 0 <= k < |events| ==> events[k].eventNumber == k + 1
      ensures forall k :: 0 <= k < |events| && k != slot ==> events[k].delta == old(events[k].delta)
      ensures events[slot].delta == events[slot].time - (if slot == 0 then 0 else events[slot - 1].time)
    {
      ghost var gap := events[slot].time - (if slot == 0 then 0 else events[slot - 1].time);
      var i := 1;
      while i <= numberOfEvents
        invariant 1 <= i <= numberOfEvents + 1
        invariant forall k :: 0 <= k < i - 1 ==> events[k].eventNumber == k + 1
        invariant forall k :: 0 <= k < |events| && k != slot ==> events[k].delta == old(events[k].delta)
        invariant events[slot].delta == if slot < i - 1 then gap else -1
      {
        assert forall k :: 0 <= k < |events| && k != i - 1 ==> events[k] != events[i - 1] by {
          assert Index(events, events[i - 1]) == i - 1;
        }
        Number(events[i - 1], i);
        i := i + 1;
      }
    }

    /** The body of the renumbering loop: set the number and a delta not yet known. */
    method Number(tmp: SmfEvent, i: int)
      requires 1 <= i <= |events| && tmp == events[i - 1]
      modifies tmp`eventNumber, tmp`delta
      ensures tmp.eventNumber == i
      ensures tmp.delta == if old(tmp.delta) != -1 then old(tmp.delta)
                           else if i == 1 then tmp.time else tmp.time - events[i - 2].time
    {
      tmp.eventNumber := i;
      if tmp.delta == -1 {
        if i == 1 {
          tmp.delta := tmp.time;
        } else {
          tmp.delta := tmp.time - events[i - 2].time;
        }
      }
    }

    /** Take the new event's delta off the event that follows it. */
    method AdjustNext(event: SmfEvent, ghost before: seq<SmfEvent>, ghost slot: nat)
      requires Unnumbered(event, before, slot)
      requires forall k :: 0 <= k < |events| ==> events[k].eventNumber == k + 1
      requires Linked(before)
      requires event.delta == event.time - (if slot == 0 then 0 else before[slot - 1].time)
      modifies events`delta
      ensures Valid()
    {
      assert events[slot] == event;
      if event.eventNumber < numberOfEvents {
        var next := events[event.eventNumber];
        assert next == before[slot];
        next.delta := next.delta - event.delta;
      }
      forall k | 0 <= k < |events| ensures Placed(k) {
        if k < slot {
          assert events[k] == before[k] && old(UnnumberedPlaced(before, k));
        } else if k > slot {
          assert events[k] == before[k - 1] && old(UnnumberedPlaced(before, k - 1));
        }
      }
    }

    ghost predicate UnnumberedPlaced(s: seq<SmfEvent>, i: nat)
      requires i < |s|
      reads this`trackNumber, s`track, s`trackNumber, s`delta, s`time
    {
      var e := s[i];
      && e.track == this && e.trackNumber == trackNumber
      && e.delta >= 0 && e.time >= 0
      && e.delta == (if i == 0 then e.time else e.time - s[i - 1].time)
    }

    /** Placed, for a list that is not, or no longer, the track's array. */
    ghost predicate PlacedIn(s: seq<SmfEvent>, i: nat)
      requires i < |s|
      reads this`trackNumber, s`track, s`trackNumber, s`eventNumber, s`delta, s`time
    {
      s[i].eventNumber == i + 1 && UnnumberedPlaced(s, i)
    }

    /** Event i is in its place, as an event of a track numbered n. */
    ghost predicate PlacedAs(i: nat, n: int)
      requires i < |events|
      reads this`events, events`track, events`trackNumber, events`eventNumber, events`delta, events`time
    {
      var e := events[i];
      && e.track == this && e.trackNumber == n && e.eventNumber == i + 1
      && e.delta >= 0 && e.time >= 0
      && e.delta == (if i == 0 then e.time else e.time - events[i - 1].time)
    }

    /** The events are in order among themselves, but carry the number n: what a track is left with once detached. */
    ghost predicate Kept(n: int)
      reads this`events, this`numberOfEvents, this`contents
      reads events`track, events`trackNumber, events`eventNumber, events`delta, events`time
    {
      && numberOfEvents == |events| && Mirrors(events, contents)
      && forall i :: 0 <= i < |events| ==> PlacedAs(i, n)
    }

    lemma KeptIff(n: int)
      ensures Kept(trackNumber) <==> Synced()
      ensures Kept(n) ==> (Synced() <==> events == [] || trackNumber == n)
    {
      assert forall i :: 0 <= i < |events| ==> (Placed(i) <==> PlacedAs(i, trackNumber));
      if Kept(n) && events != [] && trackNumber != n {
        assert PlacedAs(0, n) && !Placed(0);
      }
    }

    lemma KeptOwns(n: int)
      requires Kept(n)
      ensures numberOfEvents == |events| == |contents|
      ensures forall i :: 0 <= i < |events| ==> events[i].track == this
    {
      forall i | 0 <= i < |events| ensures events[i].track == this {
        assert PlacedAs(i, n);
      }
    }

    /** `Insert`, stated on contents. */
    method Add(event: SmfEvent)
      requires Synced() && event.Detached() && event.time >= 0
      requires events == [] ==> nextEventNumber == -1
      modifies this`events, this`numberOfEvents, this`nextEventNumber, this`contents
      modifies events`eventNumber, events`delta
      modifies event`track, event`trackNumber, event`eventNumber, event`delta
      ensures Synced() && events != [] && event.track == this
      ensures events == InsertAt(old(events), Slot(old(contents), event.time), event)
      ensures contents == InsertAt(old(contents), Slot(old(contents), event.time), Ev(event.time, event.bytes))
      ensures nextEventNumber == if old(events) == [] then 1 else old(nextEventNumber)
    {
      hide *;
      SyncedMeans();
      ghost var before := events;
      Insert(event);
      MirrorsInsert(before, contents, Slot(contents, event.time), event);
      contents := InsertAt(contents, Slot(contents, event.time), Ev(event.time, event.bytes));
      NowSynced();
    }

    lemma SyncedMeans()
      requires Synced()
      ensures Valid() && Mirrors(events, contents) && |events| == |contents| == numberOfEvents
    {
    }

    lemma NowSynced()
      requires Valid() && Mirrors(events, contents)
      ensures Synced()
    {
    }

    lemma MirrorsInsert(before: seq<SmfEvent>, c: Track, i: nat, event: SmfEvent)
      requires Mirrors(before, c) && i <= |before| && |before| == |c|
      ensures Mirrors(InsertAt(before, i, event), InsertAt(c, i, Ev(event.time, event.bytes)))
      ensures |InsertAt(before, i, event)| > 0
    {
    }

    // ------------------------------------------------------------- removal

    /** `Extract`, stated on contents. */
    method Remove(event: SmfEvent)
      requires Synced() && event in events
      modifies this`events, this`numberOfEvents, this`nextEventNumber, this`contents, events`delta, events`eventNumber
      ensures Synced() && event !in events
      ensures 1 <= old(event.eventNumber) <= |old(events)| && old(events)[old(event.eventNumber) - 1] == event
      ensures events == RemoveAt(old(events), old(event.eventNumber) - 1)
      ensures contents == RemoveAt(old(contents), old(event.eventNumber) - 1)
      ensures event.eventNumber == old(event.eventNumber) && event.delta == old(event.delta)
      ensures nextEventNumber == if events == [] then -1 else old(nextEventNumber)
    {
      Extract(event);
      contents := RemoveAt(contents, event.eventNumber - 1);
    }

    /** The array part of `smf_event_remove_from_track`. */
    method Extract(event: SmfEvent)
      requires Valid() && event in events
      modifies this`events, this`numberOfEvents, this`nextEventNumber, events`delta, events`eventNumber
      ensures Valid()
      ensures 1 <= old(event.eventNumber) <= |old(events)| && old(events)[old(event.eventNumber) - 1] == event
      ensures events == RemoveAt(old(events), old(event.eventNumber) - 1) && event !in events
      ensures event.eventNumber == old(event.eventNumber) && event.delta == old(event.delta)
      ensures nextEventNumber == if events == [] then -1 else old(nextEventNumber)
    {
      ghost var k := IndexOf(event);
      PassDelta(event, k);
      TakeOut(event, k);
      RenumberFrom(event.eventNumber);
    }

    method TakeOut(event: SmfEvent, ghost k: nat)
      requires k < |events| && events[k] == event && numberOfEvents == |events|
      requires Distinct(events)
      requires forall i :: 0 <= i < |events| ==> events[i].eventNumber == i + 1
      requires Linked(RemoveAt(events, k))
      modifies this`events, this`numberOfEvents, this`nextEventNumber
      ensures events == RemoveAt(old(events), k) && numberOfEvents == |events| && event !in events
      ensures Linked(events)
      ensures Distinct(events)
      ensures forall i :: 0 <= i < k ==> events[i].eventNumber == i + 1
      ensures nextEventNumber == if events == [] then -1 else old(nextEventNumber)
    {
      hide *;
      Taken(events, k, k);
      numberOfEvents := numberOfEvents - 1;
      ghost var at;
      events, at := PtrArrayRemove(events, event);
      Taken(old(events), at, k);
      if numberOfEvents == 0 {
        nextEventNumber := -1;
      }
    }

    /** The event after the one to go takes over its delta. */
    method PassDelta(event: SmfEvent, ghost k: nat)
      requires Valid() && k < |events| && events[k] == event
      requires Distinct(events)
      modifies events`delta
      ensures Linked(RemoveAt(events, k)) && event.delta == old(event.delta)
    {
      assert Placed(k);
      if event.eventNumber < numberOfEvents {
        var tmp := events[event.eventNumber];
        tmp.delta := tmp.delta + event.delta;
      }
      ghost var rest := RemoveAt(events, k);
      forall i | 0 <= i < |rest| ensures UnnumberedPlaced(rest, i) {
        assert old(Placed(if i < k then i else i + 1));
        assert i == k ==> old(Placed(k));
      }
    }

    lemma IndexOf(event: SmfEvent) returns (k: nat)
      requires Valid() && event in events
      ensures k < |events| && events[k] == event && event.eventNumber == k + 1
      ensures Distinct(events)
      ensures forall i :: 0 <= i < |events| ==> events[i].eventNumber == i + 1
    {
      forall i | 0 <= i < |events| ensures events[i].eventNumber == i + 1 {
        assert Placed(i);
      }
      DistinctPairs(events);
      k :| 0 <= k < |events| && events[k] == event;
    }

    /** Number the events from place `from` on, as their places say. */
    method RenumberFrom(from: int)
      requires 1 <= from <= |events| + 1 && numberOfEvents == |events| && Linked(events)
      requires Distinct(events)
      requires forall i :: 0 <= i < from - 1 ==> events[i].eventNumber == i + 1
      modifies events`eventNumber
      ensures Valid()
    {
      var i := from;
      while i <= numberOfEvents
        invariant from <= i <= numberOfEvents + 1 && Linked(events)
        invariant forall k :: 0 <= k < i - 1 ==> events[k].eventNumber == k + 1
      {
        events[i - 1].eventNumber := i;
        i := i + 1;
      }
    }

    /** Give the track another number; its events carry the number too. */
    method SetNumber(n: int)
      requires Synced()
      modifies this`trackNumber, events`trackNumber
      ensures Synced() && trackNumber == n
    {
      ghost var es := events;
      forall i | 0 <= i < |es| ensures PlacedIn(es, i) {
        assert Placed(i);
      }
      trackNumber := n;
      var j := 1;
      while j <= numberOfEvents
        invariant 1 <= j <= numberOfEvents + 1 && trackNumber == n
        invariant forall i :: 0 <= i < j - 1 ==> es[i].trackNumber == n
      {
        events[j - 1].trackNumber := n;
        j := j + 1;
      }
      forall i | 0 <= i < |events| ensures Placed(i) {
        assert old(PlacedIn(events, i));
      }
    }

    // ------------------------------------------------------------- the cursor

    /** The cursor has passed c events, and knows the time of the next one if there is one. */
    ghost predicate CursorAt(c: nat)
      reads this`contents, this`nextEventNumber, this`timeOfNextEvent
    {
      if c < |contents| then nextEventNumber == c + 1 && timeOfNextEvent == contents[c].time
      else c == |contents| && nextEventNumber == -1
    }

    /** The cursor, without the time it remembers. */
    ghost predicate NumberAt(c: nat)
      reads this`contents, this`nextEventNumber
    {
      if c < |contents| then nextEventNumber == c + 1 else c == |contents| && nextEventNumber == -1
    }

    /** `smf_track_get_next_event`. */
    method GetNextEvent(ghost c: nat) returns (event: SmfEvent?)
      requires Synced() && NumberAt(c)
      modifies this`nextEventNumber, this`timeOfNextEvent
      ensures c == |contents| ==> event == null && CursorAt(c)
      ensures c < |contents| ==> event == events[c] && CursorAt(c + 1)
    {
      if nextEventNumber == -1 {
        return null;
      }
      event := events[nextEventNumber - 1];
      if nextEventNumber < numberOfEvents {
        var next := events[nextEventNumber];
        timeOfNextEvent := next.time;
        nextEventNumber := nextEventNumber + 1;
      } else {
        nextEventNumber := -1;
      }
    }

    /** The body of the loop of `smf_rewind`. */
    method Rewind()
      requires Synced()
      modifies this`nextEventNumber, this`timeOfNextEvent
      ensures CursorAt(0) && NumberAt(0)
    {
      if numberOfEvents > 0 {
        nextEventNumber := 1;
        timeOfNextEvent := events[0].time;
      } else {
        nextEventNumber := -1;
        timeOfNextEvent := 0;
      }
    }

    lemma {:induction false} OrderedPrefix(s: seq<SmfEvent>, i: nat, j: nat)
      requires s <= events && forall k :: 0 <= k < |s| ==> Placed(k)
      requires i <= j < |s|
      ensures s[i].time <= s[j].time
      decreases j
    {
      if i < j {
        assert Placed(j);
        OrderedPrefix(s, i, j - 1);
      }
    }
  }
}
