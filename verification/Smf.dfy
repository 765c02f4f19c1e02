/**
 A song: tracks of events, the playback cursors over them and the tempo map.
 */
module SmfSong {
  import opened Bytes
  import opened Playback
  import opened Tracks
  import opened SmfTracks
  import opened TempoMap
  import opened TempoBuild
  import opened Incremental
  import opened Removal
  import opened TempoSettings
  import opened Edits

  ghost predicate InPool(es: seq<SmfEvent>, pool: set<SmfEvent>) {
    forall i :: 0 <= i < |es| ==> es[i] in pool
  }

  /** What each event's time fields were at some earlier moment. */
  type Clock = map<SmfEvent, (int, real)>

  ghost predicate ClockedBy(lists: seq<seq<SmfEvent>>, clock: Clock, m: Map, ppqn: int) {
    ppqn > 0 && forall j, i :: 0 <= j < |lists| && 0 <= i < |lists[j]| ==>
      && lists[j][i] in clock
      && Lookup(m, clock[lists[j][i]].0) >= 0
      && clock[lists[j][i]].1 == SecondsAt(m, ppqn, clock[lists[j][i]].0)
  }

  class Smf {
    var format: int
    var ppqn: int
    var numberOfTracks: int
    var tracks: seq<SmfTrack>
    var tempos: Map
    var lastSeekPosition: real
    /** The file being written or read, and the loader's place in it. */
    var fileBuffer: seq<Byte>
    var nextChunkOffset: int

    /** The tracks as values. */
    ghost var view: seq<Tracks.Track>
    /** The events of each track. */
    ghost var lists: seq<seq<SmfEvent>>
    /** How many events of each track have been played. */
    ghost var cursors: seq<nat>
    /** All events the tracks hold, and possibly events they held before. */
    ghost var pool: set<SmfEvent>

    // ----------------------------------------------------------- structure

    /** Track k is in its place: owned, numbered, mirrored in `view`, and its events are in theirs. */
    ghost predicate Attached(k: nat)
      requires k < |tracks| && k < |view| && k < |lists|
      reads this`tracks, this`view, this`lists, this`pool, tracks`smf, tracks`trackNumber, tracks`numberOfEvents
      reads tracks`events
      reads tracks`contents
      reads tracks[k].events`track, tracks[k].events`trackNumber, tracks[k].events`eventNumber
      reads tracks[k].events`delta, tracks[k].events`time
    {
      && tracks[k].smf == this && tracks[k].trackNumber == k + 1
      && tracks[k].Synced() && view[k] == tracks[k].contents && lists[k] == tracks[k].events
      && InPool(tracks[k].events, pool)
    }

    ghost predicate Structure()
      reads this`tracks, this`numberOfTracks, this`ppqn, this`pool, this`view, this`lists
      reads tracks`smf, tracks`trackNumber, tracks`numberOfEvents, tracks`events, tracks`contents
      reads pool`track, pool`trackNumber, pool`eventNumber, pool`delta, pool`time
    {
      && ppqn > 0 && numberOfTracks == |tracks| == |view| == |lists|
      && (forall k :: 0 <= k < |tracks| ==> InPool(tracks[k].events, pool))
      && (forall e :: e in pool ==> e.track != null)
      && forall k :: 0 <= k < |tracks| ==> assert InPool(tracks[k].events, pool); Attached(k)
    }

    /** An empty track has no next event. */
    ghost predicate EmptyIdle()
      reads this`tracks, tracks`events, tracks`nextEventNumber
    {
      forall k :: 0 <= k < |tracks| && tracks[k].events == [] ==> tracks[k].nextEventNumber == -1
    }

    lemma ViewValid()
      requires Structure()
      ensures ValidTracks(view)
    {
      forall k | 0 <= k < |tracks| ensures Tracks.Valid(view[k]) {
        assert Attached(k);
        tracks[k].ContentsValid();
      }
    }

    lemma DistinctTracks()
      requires Structure()
      ensures Distinct(tracks)
    {
      forall i, j | 0 <= i < j < |tracks| ensures tracks[i] != tracks[j] {
        assert Attached(i) && Attached(j);
      }
      DistinctPairs(tracks);
    }

    ghost predicate HasEvent(p: Pos)
      reads this`lists
    {
      p.track < |lists| && p.index < |lists[p.track]|
    }

    ghost function EventAt(p: Pos): SmfEvent
      requires HasEvent(p)
      reads this`lists
    {
      lists[p.track][p.index]
    }

    // ------------------------------------------------------------ playback

    ghost predicate CursorsReady()
      reads this`tracks, this`cursors, tracks`contents, tracks`nextEventNumber, tracks`timeOfNextEvent
    {
      |cursors| == |tracks| && forall k :: 0 <= k < |tracks| ==> tracks[k].CursorAt(cursors[k])
    }

    /** The abstract cursors make sense for the abstract tracks. */
    ghost predicate Playable()
      reads this`view, this`cursors
    {
      ValidTracks(view) && CursorsOk(SongTimes(view), cursors)
    }

    ghost predicate Ready()
      reads this`tracks, this`cursors, this`view, tracks`contents, tracks`nextEventNumber, tracks`timeOfNextEvent
    {
      Playable() && CursorsReady()
    }

    /** What is still to be played, in order. */
    ghost function Remaining(): seq<Pos>
      requires Playable()
      reads this`view, this`cursors
    {
      Order(SongTimes(view), cursors)
    }

    /** `smf_rewind`. */
    method Rewind()
      requires Structure()
      modifies this`lastSeekPosition, this`cursors, tracks`nextEventNumber, tracks`timeOfNextEvent
      ensures Structure() && Ready() && Playable() && EmptyIdle() && Remaining() == PlayOrder(SongTimes(view))
      ensures lastSeekPosition == 0.0 && forall k :: 0 <= k < |tracks| ==> tracks[k].NumberAt(0)
    {
      hide *;
      Mirrored();
      DistinctTracks();
      lastSeekPosition := 0.0;
      cursors := Start(|tracks|);
      RewindTracks();
      RewoundReady();
    }

    lemma RewoundReady()
      requires Structure() && cursors == Start(|tracks|)
      requires forall k :: 0 <= k < |tracks| ==> tracks[k].CursorAt(0)
      ensures Ready() && Playable() && EmptyIdle() && Remaining() == PlayOrder(SongTimes(view))
    {
      ViewValid();
      EmptyTracksIdle();
    }

    lemma EmptyTracksIdle()
      requires Structure() && CursorsReady()
      ensures EmptyIdle()
    {
      forall k | 0 <= k < |tracks| && tracks[k].events == [] ensures tracks[k].nextEventNumber == -1 {
        assert Attached(k) && tracks[k].CursorAt(cursors[k]);
      }
    }

    method RewindTracks()
      requires Distinct(tracks) && numberOfTracks == |tracks|
      requires forall k :: 0 <= k < |tracks| ==> tracks[k].Synced()
      modifies tracks`nextEventNumber, tracks`timeOfNextEvent
      ensures forall k :: 0 <= k < |tracks| ==> tracks[k].CursorAt(0) && tracks[k].NumberAt(0)
    {
      var i := 1;
      while i <= numberOfTracks
        invariant 1 <= i <= numberOfTracks + 1
        invariant forall k :: 0 <= k < i - 1 ==> tracks[k].CursorAt(0) && tracks[k].NumberAt(0)
      {
        assert Index(tracks, tracks[i - 1]) == i - 1;
        tracks[i - 1].Rewind();
        i := i + 1;
      }
    }

    /** `smf_find_track_with_next_event`. */
    method FindTrackWithNextEvent() returns (minTrack: SmfTrack?, ghost at: nat)
      requires numberOfTracks == |tracks| == |view| && Ready()
      requires forall k :: 0 <= k < |tracks| ==> tracks[k].contents == view[k]
      ensures minTrack == null ==> Finished(SongTimes(view), cursors)
      ensures minTrack != null ==> at < |tracks| && tracks[at] == minTrack && IsNext(SongTimes(view), cursors, at)
    {
      var minTime := 0;
      minTrack := null;
      at := 0;
      ghost var times := SongTimes(view);
      var i := 1;
      while i <= numberOfTracks
        invariant 1 <= i <= numberOfTracks + 1
        invariant minTrack == null ==> forall k :: 0 <= k < i - 1 ==> cursors[k] == |times[k]|
        invariant minTrack != null ==>
                    && at < i - 1 && tracks[at] == minTrack && cursors[at] < |times[at]|
                    && minTime == times[at][cursors[at]]
        invariant minTrack != null ==> forall k :: 0 <= k < i - 1 && cursors[k] < |times[k]| ==>
                    minTime <= times[k][cursors[k]] && (k < at ==> minTime < times[k][cursors[k]])
      {
        var track := tracks[i - 1];
        assert track.CursorAt(cursors[i - 1]);
        if track.nextEventNumber != -1 {
          if minTrack == null || track.timeOfNextEvent < minTime {
            minTime := track.timeOfNextEvent;
            minTrack := track;
            at := i - 1;
          }
        }
        i := i + 1;
      }
    }

    lemma Mirrored()
      requires Structure()
      ensures ppqn > 0 && numberOfTracks == |tracks| == |view| == |lists|
      ensures forall k :: 0 <= k < |tracks| ==>
                tracks[k].contents == view[k] && tracks[k].events == lists[k] && tracks[k].Synced()
    {
      forall k | 0 <= k < |tracks|
        ensures tracks[k].contents == view[k] && tracks[k].events == lists[k] && tracks[k].Synced()
      {
        assert Attached(k);
      }
    }

    /** `smf_get_next_event`. */
    method GetNextEvent() returns (event: SmfEvent?)
      requires Structure() && Ready()
      modifies this`lastSeekPosition, this`cursors, tracks`nextEventNumber, tracks`timeOfNextEvent
      ensures Structure() && Ready() && Playable()
      ensures old(Remaining()) == [] ==> event == null && Remaining() == []
      ensures old(Remaining()) != [] ==>
                && HasEvent(old(Remaining())[0]) && event == EventAt(old(Remaining())[0])
                && Remaining() == old(Remaining())[1..]
      ensures lastSeekPosition == if event == null then old(lastSeekPosition) else -1.0
    {
      hide Structure;
      Mirrored();
      DistinctTracks();
      var track, at := FindTrackWithNextEvent();
      if track == null {
        OrderEnds(SongTimes(view), cursors);
        return null;
      }
      OrderUnfold(SongTimes(view), cursors, at);
      event := Advance(track, at);
    }

    /** The part of `smf_get_next_event` after the track is found. */
    method Advance(track: SmfTrack, ghost at: nat) returns (event: SmfEvent)
      requires CursorsReady() && Distinct(tracks) && at < |tracks| && tracks[at] == track
      requires track.Synced() && cursors[at] < |track.events|
      modifies this`lastSeekPosition, this`cursors, track`nextEventNumber, track`timeOfNextEvent
      ensures event == track.events[old(cursors[at])]
      ensures CursorsReady() && cursors == old(cursors)[at := old(cursors[at]) + 1] && lastSeekPosition == -1.0
    {
      assert track.CursorAt(cursors[at]);
      var e := track.GetNextEvent(cursors[at]);
      event := e;
      lastSeekPosition := -1.0;
      forall k | 0 <= k < |tracks| && k != at ensures tracks[k] != track {
        assert Index(tracks, tracks[k]) == k;
      }
      cursors := cursors[at := cursors[at] + 1];
    }

    /** `smf_peek_next_event`. */
    method PeekNextEvent() returns (event: SmfEvent?)
      requires Structure() && Ready()
      ensures Structure() && Ready() && Playable() && Remaining() == old(Remaining())
      ensures Remaining() == [] ==> event == null
      ensures Remaining() != [] ==> HasEvent(Remaining()[0]) && event == EventAt(Remaining()[0])
    {
      Mirrored();
      var track, at := FindTrackWithNextEvent();
      if track == null {
        OrderEnds(SongTimes(view), cursors);
        return null;
      }
      OrderUnfold(SongTimes(view), cursors, at);
      assert Attached(at) && track.CursorAt(cursors[at]);
      event := track.events[track.nextEventNumber - 1];
    }

    /** Calling `smf_get_next_event` until it returns null, after a rewind, plays the stable sort of all tracks. */
    method PlayAll() returns (out: seq<SmfEvent>)
      requires Structure()
      modifies this`lastSeekPosition, this`cursors, tracks`nextEventNumber, tracks`timeOfNextEvent
      ensures ValidTracks(view) && |out| == |Reference(SongTimes(view))|
      ensures forall i :: 0 <= i < |out| ==>
                HasEvent(Reference(SongTimes(view))[i]) && out[i] == EventAt(Reference(SongTimes(view))[i])
    {
      Rewind();
      ghost var ps := Played(view);
      ghost var evs := PlayedEvents(ps);
      PlayOrderIsStableSort(SongTimes(view));
      assert ps[0..] == ps;
      out := PlayOut(ps, evs);
    }

    method PlayOut(ghost ps: seq<Pos>, ghost evs: seq<SmfEvent>) returns (out: seq<SmfEvent>)
      requires Structure() && Ready() && Playable() && Remaining() == ps[0..] && |ps| == |evs|
      requires forall i :: 0 <= i < |evs| ==> HasEvent(ps[i]) && EventAt(ps[i]) == evs[i]
      modifies this`lastSeekPosition, this`cursors, tracks`nextEventNumber, tracks`timeOfNextEvent
      ensures Structure() && out == evs
    {
      hide *;
      out := [];
      while true
        invariant Structure() && Ready() && Playable()
        invariant |out| <= |ps| && Remaining() == ps[|out|..] && out == evs[..|out|]
        decreases |ps| - |out|
      {
        var event := GetNextEvent();
        if event == null {
          break;
        }
        assert event == evs[|out|];
        out := out + [event];
      }
    }

    /**
     `smf_seek_to_pulses`: 0 when some event is at or after the target, else -1.
     Afterwards the j events before the first such event have been played.
     */
    method SeekToPulses(pulses: int) returns (r: int, ghost j: nat)
      requires Structure() && pulses >= 0
      modifies this`lastSeekPosition, this`cursors, tracks`nextEventNumber, tracks`timeOfNextEvent
      ensures Structure() && Ready() && Playable() && (r == 0 || r == -1)
      ensures r == 0 <==> exists i :: 0 <= i < |Merged(view)| && Merged(view)[i].time >= pulses
      ensures j <= |Merged(view)| && Remaining() == Played(view)[j..] && (r == 0 <==> j < |Merged(view)|)
      ensures forall i :: 0 <= i < j ==> Merged(view)[i].time < pulses
      ensures j < |Merged(view)| ==> Merged(view)[j].time >= pulses
      ensures r == 0 ==> HasEvent(Played(view)[j]) && lastSeekPosition == EventAt(Played(view)[j]).seconds
    {
      hide *;
      Rewind();
      ghost var ps, es, evs := SongAtStart();
      r, j := SkipTo(pulses, ps, es, evs);
    }

    /**
     `smf_seek_to_seconds`: the same by the events' times in seconds, unless the target is
     the position of the last seek: then nothing happens.
     */
    method SeekToSeconds(seconds: real) returns (r: int, ghost j: nat)
      requires Structure() && seconds >= 0.0
      modifies this`lastSeekPosition, this`cursors, tracks`nextEventNumber, tracks`timeOfNextEvent
      ensures Structure() && ValidTracks(view) && |Played(view)| == |Merged(view)| && (r == 0 || r == -1)
      ensures r == 0 ==> lastSeekPosition == seconds
      ensures seconds == old(lastSeekPosition) ==> r == 0 && cursors == old(cursors)
      ensures seconds == old(lastSeekPosition) ==> forall k :: 0 <= k < |tracks| ==>
                && tracks[k].nextEventNumber == old(tracks[k].nextEventNumber)
                && tracks[k].timeOfNextEvent == old(tracks[k].timeOfNextEvent)
      ensures seconds != old(lastSeekPosition) || old(Ready()) ==> Ready()
      ensures seconds != old(lastSeekPosition) ==>
                && Ready() && Playable() && FirstFrom(seconds, j) && Remaining() == Played(view)[j..]
                && (r == 0 <==> j < |Played(view)|)
      ensures seconds != old(lastSeekPosition) || old(AtFirstFrom(seconds)) ==> AtFirstFrom(seconds)
    {
      hide *;
      j := 0;
      ViewValid();
      MergedCount();
      if seconds == lastSeekPosition {
        return 0, j;
      }
      Rewind();
      ghost var ps, es, evs := SongAtStart();
      r, j := SkipToSeconds(seconds, ps, evs);
      IsFirstFrom(seconds, ps, evs, j);
    }

    method SkipToSeconds(seconds: real, ghost ps: seq<Pos>, ghost evs: seq<SmfEvent>) returns (r: int, ghost j: nat)
      requires Structure() && Ready() && Playable() && Remaining() == ps[0..] && |ps| == |evs|
      requires forall i :: 0 <= i < |evs| ==> HasEvent(ps[i]) && EventAt(ps[i]) == evs[i]
      modifies this`lastSeekPosition, this`cursors, tracks`nextEventNumber, tracks`timeOfNextEvent
      ensures Structure() && Ready() && Playable()
      ensures j <= |ps| && Remaining() == ps[j..] && r == if j < |ps| then 0 else -1
      ensures forall i :: 0 <= i < j ==> evs[i].seconds < seconds
      ensures j < |evs| ==> evs[j].seconds >= seconds && lastSeekPosition == seconds
    {
      hide *;
      j := 0;
      while true
        invariant Structure() && Ready() && Playable() && j <= |ps| && Remaining() == ps[j..]
        invariant forall i :: 0 <= i < j ==> evs[i].seconds < seconds
        decreases |ps| - j
      {
        Suffix(ps, j);
        var event := PeekNextEvent();
        if event == null {
          return -1, j;
        }
        assert event == evs[j];
        if event.seconds < seconds {
          event := GetNextEvent();
          j := j + 1;
        } else {
          lastSeekPosition := seconds;
          return 0, j;
        }
      }
    }

    /** Event j of the playback order is the first at or after the given time; all are earlier if there is none. */
    ghost predicate FirstFrom(seconds: real, j: nat)
      requires ValidTracks(view)
      reads this`view, this`lists, this`pool, pool`seconds
    {
      && j <= |Played(view)|
      && forall i :: 0 <= i < |Played(view)| ==>
           && HasEvent(Played(view)[i]) && EventAt(Played(view)[i]) in pool
           && (i < j ==> EventAt(Played(view)[i]).seconds < seconds)
           && (i == j ==> EventAt(Played(view)[i]).seconds >= seconds)
    }

    /** What is played next is the first event at or after the given time. */
    ghost predicate AtFirstFrom(seconds: real)
      reads this`view, this`lists, this`cursors, this`pool, pool`seconds
    {
      Playable() && exists j: nat :: FirstFrom(seconds, j) && Remaining() == Played(view)[j..]
    }

    lemma MergedCount()
      requires ValidTracks(view)
      ensures |Played(view)| == |Merged(view)|
    {
    }

    lemma IsFirstFrom(seconds: real, ps: seq<Pos>, evs: seq<SmfEvent>, j: nat)
      requires Playable() && ps == Played(view) && |ps| == |evs| && j <= |ps| && Remaining() == ps[j..]
      requires forall i :: 0 <= i < |evs| ==> HasEvent(ps[i]) && EventAt(ps[i]) == evs[i] && evs[i] in pool
      requires forall i :: 0 <= i < j ==> evs[i].seconds < seconds
      requires j < |evs| ==> evs[j].seconds >= seconds
      ensures FirstFrom(seconds, j) && AtFirstFrom(seconds)
    {
    }

    method SkipTo(pulses: int, ghost ps: seq<Pos>, ghost es: seq<Ev>, ghost evs: seq<SmfEvent>)
      returns (r: int, ghost j: nat)
      requires Structure() && Ready() && Playable() && Remaining() == ps[0..] && |ps| == |es| == |evs|
      requires forall i :: 0 <= i < |evs| ==>
                 HasEvent(ps[i]) && EventAt(ps[i]) == evs[i] && es[i] == Ev(evs[i].time, evs[i].bytes)
      modifies this`lastSeekPosition, this`cursors, tracks`nextEventNumber, tracks`timeOfNextEvent
      ensures Structure() && Ready() && Playable()
      ensures j <= |ps| && Remaining() == ps[j..] && r == if j < |ps| then 0 else -1
      ensures forall i :: 0 <= i < j ==> es[i].time < pulses
      ensures j < |es| ==> es[j].time >= pulses
      ensures j < |evs| ==> lastSeekPosition == evs[j].seconds
    {
      hide *;
      j := 0;
      while true
        invariant Structure() && Ready() && Playable() && j <= |ps| && Remaining() == ps[j..]
        invariant forall i :: 0 <= i < j ==> es[i].time < pulses
        decreases |ps| - j
      {
        Suffix(ps, j);
        var event := PeekNextEvent();
        if event == null {
          return -1, j;
        }
        assert event == evs[j] && es[j].time == evs[j].time;
        if event.time < pulses {
          event := GetNextEvent();
          j := j + 1;
        } else {
          lastSeekPosition := event.seconds;
          return 0, j;
        }
      }
    }

    static lemma Suffix<T>(s: seq<T>, j: nat)
      requires j <= |s|
      ensures j < |s| ==> s[j..] != [] && s[j..][0] == s[j] && s[j..][1..] == s[j + 1..]
      ensures j == |s| ==> s[j..] == []
    {
    }

    lemma InPlayed(p: Pos)
      requires Structure() && HasEvent(p) && ValidTracks(view)
      ensures p in Played(view)
    {
      EventMirrored(p);
    }

    /** `smf_seek_to_event`: afterwards the target, an event of the song, is played next. */
    method SeekToEvent(target: SmfEvent, ghost at: Pos) returns (ghost goal: nat)
      requires Structure() && HasEvent(at) && EventAt(at) == target
      modifies this`lastSeekPosition, this`cursors, tracks`nextEventNumber, tracks`timeOfNextEvent
      ensures Structure() && Ready() && Playable() && Remaining() != [] && Remaining()[0] == at
      ensures goal < |Played(view)| && Played(view)[goal] == at && Remaining() == Played(view)[goal..]
      ensures lastSeekPosition == target.seconds
    {
      Rewind();
      ghost var ps := Played(view);
      ghost var evs := PlayedEvents(ps);
      InPlayed(at);
      goal :| goal < |ps| && ps[goal] == at;
      assert ps[0..] == ps;
      SkipToEvent(target, ps, evs, goal);
    }

    /** Event i, played before event g, has no less of a time in seconds. */
    ghost predicate NotEarlier(i: nat, g: nat)
      requires ValidTracks(view) && i < |Played(view)| && g < |Played(view)|
      reads this`view, this`lists, this`pool, pool`seconds
    {
      && HasEvent(Played(view)[i]) && HasEvent(Played(view)[g])
      && EventAt(Played(view)[i]) in pool && EventAt(Played(view)[g]) in pool
      && EventAt(Played(view)[i]).seconds >= EventAt(Played(view)[g]).seconds
    }

    /**
     With event g of the playback order next, the song stands where a seek to the time of that
     event should leave it exactly when no event played before it is as late; where the times are
     those of a rebuild, exactly when none before it is at its pulse.
     */
    lemma StandsAtIff(g: nat)
      requires Structure() && Playable() && g < |Played(view)| && Remaining() == Played(view)[g..]
      ensures ValidTracks(view) && |Merged(view)| == |Played(view)| && HasEvent(Played(view)[g])
      ensures AtFirstFrom(EventAt(Played(view)[g]).seconds) <==> forall i :: 0 <= i < g ==> !NotEarlier(i, g)
      ensures InSyncWithRebuild() ==>
                (AtFirstFrom(EventAt(Played(view)[g]).seconds)
                 <==> forall i :: 0 <= i < g ==> Merged(view)[i].time != Merged(view)[g].time)
    {
      hide *;
      ViewValid();
      MergedCount();
      var ps := Played(view);
      var evs := PlayedEvents(ps);
      StandsOnlyAt(evs[g].seconds, ps, g);
      NoneAsLate(ps, evs, g);
      if InSyncWithRebuild() {
        SamePulse(ps, evs, g);
      }
    }

    lemma StandsOnlyAt(seconds: real, ps: seq<Pos>, g: nat)
      requires Playable() && ps == Played(view) && g < |ps| && Remaining() == ps[g..]
      ensures AtFirstFrom(seconds) <==> FirstFrom(seconds, g)
    {
      hide Played;
      if AtFirstFrom(seconds) {
        var j: nat :| FirstFrom(seconds, j) && Remaining() == ps[j..];
        assert |ps[j..]| == |ps[g..]|;
      }
    }

    lemma NoneAsLate(ps: seq<Pos>, evs: seq<SmfEvent>, g: nat)
      requires ValidTracks(view) && ps == Played(view) && |ps| == |evs| && g < |ps|
      requires forall i :: 0 <= i < |evs| ==> HasEvent(ps[i]) && EventAt(ps[i]) == evs[i] && evs[i] in pool
      ensures FirstFrom(evs[g].seconds, g) <==> forall i :: 0 <= i < g ==> !NotEarlier(i, g)
    {
      hide Played;
      forall i | 0 <= i < g ensures NotEarlier(i, g) <==> evs[i].seconds >= evs[g].seconds {
      }
    }

    lemma SamePulse(ps: seq<Pos>, evs: seq<SmfEvent>, g: nat)
      requires Structure() && InSyncWithRebuild() && ValidTracks(view)
      requires ps == Played(view) && |ps| == |evs| == |Merged(view)| && g < |ps|
      requires forall i :: 0 <= i < |evs| ==> HasEvent(ps[i]) && EventAt(ps[i]) == evs[i] && evs[i] in pool
      requires forall i :: 0 <= i < |evs| ==> Merged(view)[i] == Ev(evs[i].time, evs[i].bytes)
      ensures forall i :: 0 <= i < g ==> (NotEarlier(i, g) <==> Merged(view)[i].time == Merged(view)[g].time)
    {
      MergedSorted(view);
      hide Played, Merged, Structure, InSyncWithRebuild;
      forall i | 0 <= i < g ensures NotEarlier(i, g) <==> Merged(view)[i].time == Merged(view)[g].time {
        SecondsOrder(ps[i], ps[g]);
      }
    }

    lemma SecondsOrder(p: Pos, q: Pos)
      requires Structure() && InSyncWithRebuild() && HasEvent(p) && HasEvent(q)
      ensures EventAt(p).time < EventAt(q).time ==> EventAt(p).seconds < EventAt(q).seconds
      ensures EventAt(p).time == EventAt(q).time ==> EventAt(p).seconds == EventAt(q).seconds
    {
      assert ClockAt(p) && ClockAt(q);
      EventMirrored(p);
      EventMirrored(q);
      RebuiltReached(ppqn, view, Length(view));
      if EventAt(p).time < EventAt(q).time {
        StrictlyIncreasing(tempos, ppqn, EventAt(p).time, EventAt(q).time);
      }
    }

    lemma TimeNonNegative(p: Pos)
      requires Structure() && InSyncWithRebuild() && HasEvent(p)
      ensures EventAt(p).seconds >= 0.0
    {
      assert ClockAt(p);
      EventMirrored(p);
      RebuiltReached(ppqn, view, Length(view));
      PulsesInvertsSeconds(tempos, ppqn, EventAt(p).time);
    }

    /**
     Seeking to an event and then to its time: the second call does nothing, so it leaves the
     first event at or after that time next exactly when no event before the target is at its pulse.
     */
    method SeekToEventThenSeconds(target: SmfEvent, ghost at: Pos) returns (r: int, ghost goal: nat)
      requires Structure() && InSyncWithRebuild() && HasEvent(at) && EventAt(at) == target
      modifies this`lastSeekPosition, this`cursors, tracks`nextEventNumber, tracks`timeOfNextEvent
      ensures Structure() && Ready() && Playable() && r == 0 && goal < |Played(view)| == |Merged(view)|
      ensures Played(view)[goal] == at && Remaining() == Played(view)[goal..]
      ensures AtFirstFrom(target.seconds) <==>
                forall i :: 0 <= i < goal ==> Merged(view)[i].time != Merged(view)[goal].time
    {
      hide *;
      TimeNonNegative(at);
      goal := SeekToEvent(target, at);
      StandsAtIff(goal);
      ghost var j;
      r, j := SeekToSeconds(target.seconds);
      StandsAtIff(goal);
    }

    /** Two tracks with an event at pulse 0 each: after a seek to the second event, a seek to its time stays there. */
    lemma SeekExample(a: Ev, b: Ev)
      requires Structure() && InSyncWithRebuild() && Playable() && view == [[a], [b]] && a.time == b.time == 0
      requires Remaining() != [] && Remaining()[0] == Pos(1, 0)
      ensures HasEvent(Pos(1, 0)) && !AtFirstFrom(EventAt(Pos(1, 0)).seconds)
    {
      Mirrored();
      assert Attached(0) && Attached(1);
      assert HasEvent(Pos(0, 0)) && HasEvent(Pos(1, 0));
      SecondsOrder(Pos(0, 0), Pos(1, 0));
      EventMirrored(Pos(0, 0));
      EventMirrored(Pos(1, 0));
    }

    method SkipToEvent(target: SmfEvent, ghost ps: seq<Pos>, ghost evs: seq<SmfEvent>, ghost goal: nat)
      requires Structure() && Ready() && Playable() && Remaining() == ps[0..] && |ps| == |evs|
      requires forall i :: 0 <= i < |evs| ==> HasEvent(ps[i]) && EventAt(ps[i]) == evs[i] && Index(evs, evs[i]) == i
      requires goal < |ps| && target == evs[goal]
      modifies this`lastSeekPosition, this`cursors, tracks`nextEventNumber, tracks`timeOfNextEvent
      ensures Structure() && Ready() && Playable() && Remaining() == ps[goal..]
      ensures lastSeekPosition == target.seconds
    {
      hide *;
      ghost var j := 0;
      while true
        invariant Structure() && Ready() && Playable() && j <= goal && Remaining() == ps[j..]
        decreases goal - j
      {
        var event := PeekNextEvent();
        assert event == evs[j] && Index(evs, evs[j]) == j && Index(evs, evs[goal]) == goal;
        if event != target {
          event := GetNextEvent();
          j := j + 1;
        } else {
          break;
        }
      }
      lastSeekPosition := target.seconds;
    }

    /** `smf_get_length_pulses`. */
    method GetLengthPulses() returns (pulses: int)
      requires Structure()
      ensures pulses == Length(view)
    {
      pulses := 0;
      var i := 1;
      while i <= numberOfTracks
        invariant 1 <= i <= numberOfTracks + 1
        invariant pulses == Length(view[..i - 1])
      {
        var track := tracks[i - 1];
        assert Attached(i - 1);
        assert view[..i][..i - 1] == view[..i - 1];
        if track.numberOfEvents > 0 {
          var event := track.events[track.numberOfEvents - 1];
          if event.time > pulses {
            pulses := event.time;
          }
        }
        i := i + 1;
      }
      assert view[..|view|] == view;
    }

    // ------------------------------------------------------------ tempo map

    ghost predicate TemposOk()
      reads this`tempos, this`ppqn
    {
      ppqn > 0 && tempos != [] && tempos[0].pulses == 0
    }

    /** `smf_get_tempo_by_pulses`; the result is an index, -1 for null. */
    method GetTempoByPulses(pulses: int) returns (i: int)
      requires pulses >= 0
      ensures i == Lookup(tempos, pulses)
    {
      if pulses == 0 {
        return if |tempos| == 0 then -1 else 0;
      }
      i := |tempos| - 1;
      while i >= 0
        invariant -1 <= i < |tempos|
        invariant IndexBefore(tempos, pulses) == IndexBefore(tempos[..i + 1], pulses)
      {
        assert tempos[..i + 1][..i] == tempos[..i];
        if tempos[i].pulses < pulses {
          return i;
        }
        i := i - 1;
      }
    }

    /** `smf_get_tempo_by_seconds`. */
    method GetTempoBySeconds(seconds: real) returns (i: int)
      requires seconds >= 0.0
      ensures i == LookupSeconds(tempos, seconds)
    {
      if seconds == 0.0 {
        return if |tempos| == 0 then -1 else 0;
      }
      i := |tempos| - 1;
      while i >= 0
        invariant -1 <= i < |tempos|
        invariant IndexBeforeSeconds(tempos, seconds) == IndexBeforeSeconds(tempos[..i + 1], seconds)
      {
        assert tempos[..i + 1][..i] == tempos[..i];
        if tempos[i].seconds < seconds {
          return i;
        }
        i := i - 1;
      }
    }

    /** `seconds_from_pulses`. */
    method SecondsFromPulses(pulses: int) returns (seconds: real)
      requires TemposOk() && pulses >= 0
      ensures Lookup(tempos, pulses) >= 0 && seconds == SecondsAt(tempos, ppqn, pulses)
    {
      var i := GetTempoByPulses(pulses);
      var tempo := tempos[i];
      seconds := tempo.seconds + (pulses - tempo.pulses) as real * (tempo.mpqn as real / (ppqn as real * 1000000.0));
    }

    /** `pulses_from_seconds`. */
    method PulsesFromSeconds(seconds: real) returns (pulses: int)
      requires ppqn > 0 && Ticking(tempos) && seconds >= 0.0
      ensures LookupSeconds(tempos, seconds) >= 0 && pulses == PulsesAt(tempos, ppqn, seconds)
      ensures pulses >= 0
    {
      TickingPulses(tempos, ppqn, seconds);
      var i := GetTempoBySeconds(seconds);
      var tempo := tempos[i];
      var later := (seconds - tempo.seconds) * PulseRate(ppqn, tempo);
      PulsesAtIs(tempos, ppqn, seconds, later);
      pulses := (tempo.pulses as real + later).Floor;
    }

    /** `new_tempo`; the entry it returns is the last one.  The first entry of a map can only be at pulse 0. */
    method StartTempo(pulses: int)
      requires ppqn > 0 && pulses >= 0 && if tempos == [] then pulses == 0 else tempos[0].pulses == 0
      modifies this`tempos
      ensures tempos == NewTempo(if old(tempos) == [] then [INITIAL] else old(tempos), ppqn, pulses)
    {
      var tempo := Tempo(pulses, 0.0, 500000, 4, 4, -1, -1);
      if |tempos| > 0 {
        var previous := tempos[|tempos| - 1];
        if previous.pulses == pulses {
          return;
        }
        tempo := previous.(pulses := pulses);
      }
      tempos := tempos + [tempo];
      var seconds := 0.0;
      if pulses != 0 {
        seconds := SecondsFromPulses(pulses);
      }
      tempos := tempos[|tempos| - 1 := tempo.(seconds := seconds)];
    }

    /** `maybe_add_to_tempo_map`. */
    method MaybeAddToTempoMap(event: SmfEvent)
      requires ppqn > 0 && event.time >= 0 && (tempos != [] ==> tempos[0].pulses == 0)
      requires tempos == [] && ChangeOf(event.bytes) != NoChange ==> event.time == 0
      modifies this`tempos
      ensures tempos == Extend(old(tempos), ppqn, event.time, ChangeOf(event.bytes))
    {
      var m := event.bytes;
      if ByteAt(m, 0) != 0xFF {
        return;
      }
      if ByteAt(m, 1) == 0x51 {
        var newTempo := (ByteAt(m, 3) as int) * 0x1_0000 + (ByteAt(m, 4) as int) * 256 + ByteAt(m, 5) as int;
        if newTempo <= 0 {
          return;
        }
        StartTempo(event.time);
        tempos := tempos[|tempos| - 1 := tempos[|tempos| - 1].(mpqn := newTempo)];
      }
      if ByteAt(m, 1) == 0x58 {
        if |m| < 7 {
          return;
        }
        StartTempo(event.time);
        tempos := tempos[|tempos| - 1 := tempos[|tempos| - 1].(
          numerator := m[3], denominator := Pow2(m[4]), clocksPerClick := m[5], notesPerNote := m[6])];
      }
    }

    /** The event at place p carries the time in seconds that the map gives it. */
    ghost predicate ClockAt(p: Pos)
      requires HasEvent(p)
      reads this`lists, this`tempos, this`ppqn, this`pool, pool`time, pool`seconds
    {
      && EventAt(p) in pool && ppqn > 0
      && Lookup(tempos, EventAt(p).time) >= 0
      && EventAt(p).seconds == SecondsAt(tempos, ppqn, EventAt(p).time)
    }

    ghost predicate ClockOk()
      reads this`lists, this`tempos, this`ppqn, this`pool, pool`time, pool`seconds
    {
      forall p :: HasEvent(p) ==> ClockAt(p)
    }

    lemma EventMirrored(p: Pos)
      requires Structure() && HasEvent(p)
      ensures InSong(view, p) && At(view, p) == Ev(EventAt(p).time, EventAt(p).bytes)
      ensures EventAt(p) in pool && EventAt(p).time >= 0
      ensures EventAt(p).track == tracks[p.track] && EventAt(p).eventNumber == p.index + 1
    {
      assert Attached(p.track);
      assert tracks[p.track].Placed(p.index);
    }

    lemma OnePlace(p: Pos, q: Pos)
      requires Structure() && HasEvent(p) && HasEvent(q) && EventAt(p) == EventAt(q)
      ensures p == q
    {
      EventMirrored(p);
      EventMirrored(q);
      assert Attached(p.track) && Attached(q.track);
    }

    /** `smf_init_tempo`. */
    method InitTempo()
      requires ppqn > 0
      modifies this`tempos
      ensures tempos == [INITIAL]
    {
      tempos := [];
      StartTempo(0);
    }

    /** What the pass does with one event: extend the map, then read the clock off it. */
    method TimeEvent(event: SmfEvent, ghost es: seq<Ev>, ghost n: nat)
      requires ppqn > 0 && Timed(es) && n < |es| && es[n] == Ev(event.time, event.bytes)
      requires tempos == Build(ppqn, es[..n])
      modifies this`tempos, event`seconds
      ensures tempos == Build(ppqn, es[..n + 1])
      ensures event.seconds == Integral(Build(ppqn, es), ppqn, event.time)
    {
      assert es[..n + 1][..n] == es[..n];
      RebuildSeconds(ppqn, es, n);
      MaybeAddToTempoMap(event);
      var seconds := SecondsFromPulses(event.time);
      event.seconds := seconds;
    }

    /** `smf_create_tempo_map_and_compute_seconds`: one pass over the playback order. */
    method CreateTempoMapAndComputeSeconds()
      requires Structure()
      modifies this`tempos, this`lastSeekPosition, this`cursors, tracks`nextEventNumber, tracks`timeOfNextEvent
      modifies pool`seconds
      ensures Structure() && Ready() && EmptyIdle()
      ensures ValidTracks(view) && tempos == Rebuilt(ppqn, view) && ClockOk()
    {
      hide *;
      Rewind();
      ghost var ps, es, evs := SongAtStart();
      InitTempo();
      ComputeSeconds(ps, es, evs);
      RebuildDone(ps, evs, es);
      ReadyIdle();
    }

    method ComputeSeconds(ghost ps: seq<Pos>, ghost es: seq<Ev>, ghost evs: seq<SmfEvent>)
      requires Structure() && Ready() && Playable() && Remaining() == ps[0..] && |ps| == |es| == |evs|
      requires ppqn > 0 && Timed(es) && (forall i :: 0 <= i < |es| ==> es[i].time >= 0)
                 && tempos == Build(ppqn, es[..0])
      requires forall i :: 0 <= i < |evs| ==> HasEvent(ps[i]) && EventAt(ps[i]) == evs[i] && Index(evs, evs[i]) == i
      requires forall i :: 0 <= i < |evs| ==> evs[i] in pool && es[i] == Ev(evs[i].time, evs[i].bytes)
      modifies this`tempos, this`lastSeekPosition, this`cursors, tracks`nextEventNumber, tracks`timeOfNextEvent
      modifies pool`seconds
      ensures Structure() && Ready() && Playable() && tempos == Build(ppqn, es)
      ensures forall i :: 0 <= i < |evs| ==> evs[i].seconds == Integral(tempos, ppqn, es[i].time)
    {
      hide *;
      ghost var final := Build(ppqn, es);
      ghost var n := 0;
      while true
        invariant Structure() && Ready() && Playable() && n <= |ps| && Remaining() == ps[n..]
        invariant tempos == Build(ppqn, es[..n])
        invariant forall i :: 0 <= i < |evs| ==> es[i] == Ev(evs[i].time, evs[i].bytes)
        invariant forall i :: 0 <= i < n ==> evs[i].seconds == Integral(final, ppqn, es[i].time)
        decreases |ps| - n
      {
        var event := GetNextEvent();
        if event == null {
          break;
        }
        assert event == evs[n] && Index(evs, evs[n]) == n;
        TimeEvent(event, es, n);
        n := n + 1;
      }
      assert es[..n] == es;
    }

    lemma ReadyIdle()
      requires Structure() && Ready()
      ensures EmptyIdle()
    {
      EmptyTracksIdle();
    }

    /** After a rewind: the places, values and events to be played, in order. */
    lemma SongAtStart() returns (ps: seq<Pos>, es: seq<Ev>, evs: seq<SmfEvent>)
      requires Structure() && Playable() && Remaining() == PlayOrder(SongTimes(view))
      ensures ps == Played(view) && es == Merged(view) && Remaining() == ps[0..] && |ps| == |es| == |evs|
      ensures forall i :: 0 <= i < |evs| ==> HasEvent(ps[i]) && EventAt(ps[i]) == evs[i] && Index(evs, evs[i]) == i
      ensures forall i :: 0 <= i < |evs| ==> evs[i] in pool && es[i] == Ev(evs[i].time, evs[i].bytes)
      ensures ppqn > 0 && Timed(es) && (forall i :: 0 <= i < |es| ==> es[i].time >= 0)
                && Build(ppqn, es[..0]) == [INITIAL]
    {
      ps, es := Played(view), Merged(view);
      evs := PlayedEvents(ps);
      MergedSorted(view);
      assert es[..0] == [] && ps[0..] == ps;
    }

    /** The events of the song in playback order: distinct, and mirrored in its value. */
    lemma PlayedEvents(ps: seq<Pos>) returns (evs: seq<SmfEvent>)
      requires Structure() && ValidTracks(view) && ps == Played(view)
      ensures |evs| == |ps| == |Merged(view)|
      ensures forall i :: 0 <= i < |evs| ==> Index(evs, evs[i]) == i
      ensures forall i :: 0 <= i < |ps| ==> HasEvent(ps[i]) && EventAt(ps[i]) == evs[i] && evs[i] in pool
      ensures forall i :: 0 <= i < |ps| ==> Merged(view)[i] == Ev(evs[i].time, evs[i].bytes)
    {
      forall i | 0 <= i < |ps| ensures HasEvent(ps[i]) {
        assert ps[i] in ps && Attached(ps[i].track);
      }
      var l := lists;
      assert forall i :: 0 <= i < |ps| ==> ps[i].track < |l| && ps[i].index < |l[ps[i].track]|;
      evs := seq(|ps|, i requires 0 <= i < |ps| => l[ps[i].track][ps[i].index]);
      forall i | 0 <= i < |ps| ensures evs[i] in pool && Merged(view)[i] == Ev(evs[i].time, evs[i].bytes) {
        EventMirrored(ps[i]);
      }
      forall i | 0 <= i < |evs| ensures Index(evs, evs[i]) == i {
        var j := Index(evs, evs[i]);
        OnePlace(ps[i], ps[j]);
        PlayedOnce(view, i, j);
      }
    }

    lemma RebuildDone(ps: seq<Pos>, evs: seq<SmfEvent>, es: seq<Ev>)
      requires Structure() && Playable() && ps == Played(view) && es == Merged(view) && Timed(es)
      requires tempos == Build(ppqn, es) && |evs| == |ps|
      requires forall i :: 0 <= i < |ps| ==> HasEvent(ps[i]) && EventAt(ps[i]) == evs[i] && evs[i].time == es[i].time
      requires forall i :: 0 <= i < |evs| ==> evs[i].seconds == Integral(tempos, ppqn, es[i].time)
      ensures ValidTracks(view) && ClockOk() && tempos == Rebuilt(ppqn, view)
    {
      forall p | HasEvent(p) ensures ClockAt(p) {
        EventMirrored(p);
        assert p in ps;
        var i :| 0 <= i < |ps| && ps[i] == p;
        BuildClock(ppqn, es, es[i].time);
      }
    }

    // ------------------------------------------------------ editing: places

    /** Tracks share neither their own fields nor their events. */
    lemma Separate(k: nat)
      requires Structure() && k < |tracks|
      ensures forall j :: 0 <= j < |tracks| && j != k ==> tracks[j] != tracks[k]
      ensures forall j, i :: 0 <= j < |tracks| && j != k && 0 <= i < |tracks[j].events| ==>
                tracks[j].events[i] !in tracks[k].events
      ensures forall j :: 0 <= j < |tracks| ==>
                tracks[j].Synced() && tracks[j].smf == this && tracks[j].trackNumber == j + 1
      ensures forall j :: 0 <= j < |tracks| ==>
                view[j] == tracks[j].contents && lists[j] == tracks[j].events && InPool(lists[j], pool)
      ensures ppqn > 0 && numberOfTracks == |tracks| == |view| == |lists| && |view[k]| == |lists[k]|
      ensures forall j, i :: 0 <= j < |tracks| && 0 <= i < |lists[j]| ==> lists[j][i] in pool
      ensures forall e :: e in pool ==> e.track != null
      ensures EmptyIdle() ==>
                forall j :: 0 <= j < |tracks| && tracks[j].events == [] ==> tracks[j].nextEventNumber == -1
    {
      DistinctTracks();
      forall j | 0 <= j < |tracks|
        ensures tracks[j].Synced() && tracks[j].smf == this && tracks[j].trackNumber == j + 1
        ensures view[j] == tracks[j].contents && lists[j] == tracks[j].events && InPool(lists[j], pool)
      {
        assert Attached(j);
      }
      forall j, i | 0 <= j < |tracks| && j != k && 0 <= i < |tracks[j].events|
        ensures tracks[j].events[i] !in tracks[k].events && tracks[j] != tracks[k]
      {
        assert Index(tracks, tracks[j]) == j && Index(tracks, tracks[k]) == k;
        assert tracks[j].Placed(i);
        forall m | 0 <= m < |tracks[k].events| ensures tracks[k].events[m].track == tracks[k] {
          assert tracks[k].Placed(m);
        }
      }
      forall j | 0 <= j < |tracks| && j != k ensures tracks[j] != tracks[k] {
        assert Index(tracks, tracks[j]) == j && Index(tracks, tracks[k]) == k;
      }
    }

    /** A detached event is in no track. */
    lemma DetachedOutside(event: SmfEvent)
      requires Structure() && event.Detached()
      ensures event !in pool
      ensures forall j, i :: 0 <= j < |tracks| && 0 <= i < |tracks[j].events| ==> tracks[j].events[i] != event
    {
      forall j, i | 0 <= j < |tracks| && 0 <= i < |tracks[j].events| ensures tracks[j].events[i] != event {
        assert Attached(j) && tracks[j].Placed(i);
      }
    }

    /** The array part of `smf_track_add_event`. */
    method PlaceEvent(track: SmfTrack, ghost k: nat, event: SmfEvent)
      requires Structure() && EmptyIdle() && k < |tracks| && tracks[k] == track
      requires event.Detached() && event.time >= 0
      modifies this`view, this`lists, this`pool
      modifies track`events, track`numberOfEvents, track`nextEventNumber, track`contents
      modifies track.events`eventNumber, track.events`delta
      modifies event`track, event`trackNumber, event`eventNumber, event`delta
      ensures Structure() && EmptyIdle() && old(k < |view| == |lists| && |view[k]| == |lists[k]|)
      ensures view == old(view)[k :=
                InsertAt(old(view)[k], Slot(old(view)[k], event.time), Ev(event.time, event.bytes))]
      ensures lists == old(lists)[k := InsertAt(old(lists)[k], Slot(old(view)[k], event.time), event)]
      ensures pool == old(pool) + {event} && event.track == track && |lists[k]| == |old(lists)[k]| + 1
      ensures track.nextEventNumber == if |lists[k]| == 1 then 1 else old(track.nextEventNumber)
    {
      hide *;
      Separate(k);
      DetachedOutside(event);
      track.Add(event);
      view := view[k := track.contents];
      lists := lists[k := track.events];
      InsertMembers(old(lists)[k], Slot(old(view)[k], event.time), event, pool);
      pool := pool + {event};
      Assemble();
      MakeIdle();
    }

    lemma InsertMembers(s: seq<SmfEvent>, i: nat, x: SmfEvent, pool: set<SmfEvent>)
      requires i <= |s| && forall a :: 0 <= a < |s| ==> s[a] in pool
      ensures |InsertAt(s, i, x)| == |s| + 1
      ensures forall a :: 0 <= a < |InsertAt(s, i, x)| ==> InsertAt(s, i, x)[a] in pool + {x}
    {
    }

    lemma MakeIdle()
      requires forall j :: 0 <= j < |tracks| && tracks[j].events == [] ==> tracks[j].nextEventNumber == -1
      ensures EmptyIdle()
    {
    }

    /** Structure from its parts. */
    lemma Assemble()
      requires ppqn > 0 && numberOfTracks == |tracks| == |view| == |lists|
      requires forall j :: 0 <= j < |tracks| ==>
                 tracks[j].Synced() && tracks[j].smf == this && tracks[j].trackNumber == j + 1
      requires forall j :: 0 <= j < |tracks| ==> view[j] == tracks[j].contents && lists[j] == tracks[j].events
      requires forall j, i :: 0 <= j < |tracks| && 0 <= i < |lists[j]| ==> lists[j][i] in pool
      requires forall e :: e in pool ==> e.track != null
      ensures Structure()
    {
    }

    /** The array part of `smf_event_remove_from_track`. */
    method UnplaceEvent(track: SmfTrack, ghost k: nat, event: SmfEvent)
      requires Structure() && EmptyIdle() && k < |tracks| && tracks[k] == track && event in track.events
      modifies this`view, this`lists, this`pool
      modifies track`events, track`numberOfEvents, track`nextEventNumber, track`contents
      modifies track.events`eventNumber, track.events`delta
      ensures Structure() && EmptyIdle() && old(k < |view| == |lists| && |view[k]| == |lists[k]|)
      ensures 1 <= old(event.eventNumber) <= |old(lists)[k]| && old(lists)[k][old(event.eventNumber) - 1] == event
      ensures view == old(view)[k := RemoveAt(old(view)[k], old(event.eventNumber) - 1)]
      ensures lists == old(lists)[k := RemoveAt(old(lists)[k], old(event.eventNumber) - 1)]
      ensures pool == old(pool) - {event}
      ensures track.nextEventNumber == if lists[k] == [] then -1 else old(track.nextEventNumber)
    {
      hide *;
      Separate(k);
      track.Remove(event);
      RemovedMembers(lists[k], old(event.eventNumber) - 1, pool);
      view, lists, pool := view[k := track.contents], lists[k := track.events], pool - {event};
      Assemble();
      MakeIdle();
    }

    lemma RemovedMembers(s: seq<SmfEvent>, i: nat, pool: set<SmfEvent>)
      requires i < |s| && forall a :: 0 <= a < |s| ==> s[a] in pool
      ensures forall a :: 0 <= a < |RemoveAt(s, i)| ==> RemoveAt(s, i)[a] in pool
    {
    }

    /** `smf_event_is_last`. */
    method EventIsLast(event: SmfEvent) returns (last: bool)
      requires Structure()
      ensures last <==> Length(view) <= event.time
      ensures Structure()
    {
      var length := GetLengthPulses();
      last := length <= event.time;
    }

    /** `remove_last_tempo_with_pulses`. */
    method RemoveLastTempoWithPulses(pulses: int)
      modifies this`tempos
      ensures tempos == WithoutLastTempo(old(tempos), pulses)
    {
      if |tempos| == 0 {
        return;
      }
      var tempo := tempos[|tempos| - 1];
      if tempo.pulses != pulses {
        return;
      }
      tempos := tempos[..|tempos| - 1];
    }

    /** `smf_event_remove_from_track`. */
    method RemoveEvent(track: SmfTrack, ghost k: nat, event: SmfEvent)
      requires Structure() && EmptyIdle() && k < |tracks| && tracks[k] == track && event in track.events
      modifies this`view, this`lists, this`pool, this`tempos, this`lastSeekPosition, this`cursors
      modifies tracks`nextEventNumber, tracks`timeOfNextEvent
      modifies track`events, track`numberOfEvents, track`contents
      modifies pool`eventNumber, pool`delta, pool`seconds
      modifies event`track, event`time
      ensures Structure() && EmptyIdle() && ValidTracks(view)
      ensures old(k < |view| == |lists| && |view[k]| == |lists[k]|)
      ensures 1 <= old(event.eventNumber) <= |old(lists)[k]| && old(lists)[k][old(event.eventNumber) - 1] == event
      ensures view == old(view)[k := RemoveAt(old(view)[k], old(event.eventNumber) - 1)]
      ensures lists == old(lists)[k := RemoveAt(old(lists)[k], old(event.eventNumber) - 1)]
      ensures pool == old(pool) - {event} && event.Detached() && event.time == -1 && event.seconds == -1.0
      ensures tempos == TemposWithout(ppqn, old(tempos), old(view), view, Ev(old(event.time), event.bytes))
      ensures forall e :: e in pool ==> e.time == old(e.time)
      ensures if IsTempoOrSignature(event.bytes) && Length(old(view)) > old(event.time)
              then ClockOk() else forall e :: e in pool ==> e.seconds == old(e.seconds)
      ensures !IsTempoOrSignature(event.bytes) ==> forall j :: 0 <= j < |tracks| && j != k ==>
                tracks[j].nextEventNumber == old(tracks[j].nextEventNumber)
      ensures !IsTempoOrSignature(event.bytes) ==>
                track.nextEventNumber == if lists[k] == [] then -1 else old(track.nextEventNumber)
      ensures old(InSync(Song(ppqn, view, tempos))) ==>
                (InSync(Song(ppqn, view, tempos)) <==> old(RemovalKeeps(view, k, event.eventNumber - 1)))
      ensures old(InSyncWithRebuild()) ==> (InSyncWithRebuild() <==> old(RemovalKeeps(view, k, event.eventNumber - 1)))
      ensures old(Workable(Song(ppqn, view, tempos))) ==> Workable(Song(ppqn, view, tempos))
      ensures old(Orderly(Song(ppqn, view, tempos))) ==> Orderly(Song(ppqn, view, tempos))
    {
      hide *;
      ghost var s, i, clock := BeforeRemoval(k, event);
      var wasLast := EventIsLast(event);
      PoolCovers(k);
      UnplaceEvent(track, k, event);
      FinishRemoval(event, wasLast, old(view));
      RemovedInSync(s, k, i, old(lists), clock);
    }

    lemma BeforeRemoval(k: nat, event: SmfEvent) returns (s: Song, i: nat, clock: Clock)
      requires Structure() && k < |tracks| && event in tracks[k].events
      ensures s == Song(ppqn, view, tempos) && ppqn > 0 && ValidTracks(view) && |view| == |lists| == |tracks|
      ensures i == event.eventNumber - 1 < |view[k]| == |lists[k]| && lists[k][i] == event
      ensures view[k][i] == Ev(event.time, event.bytes)
      ensures clock.Keys == pool && forall e :: e in pool ==> clock[e] == (e.time, e.seconds)
      ensures InSyncWithRebuild() ==> InSync(s) && ClockedBy(lists, clock, tempos, ppqn)
    {
      var e := Placing(k, event);
      ViewValid();
      assert Attached(k);
      s, i := Song(ppqn, view, tempos), event.eventNumber - 1;
      clock := CaptureClock();
    }

    /** Where the map stays that of a rebuild, so do the seconds of the events left. */
    lemma RemovedClock(s: Song, k: nat, i: nat, e: Ev, before: seq<seq<SmfEvent>>, clock: Clock)
      requires Structure() && InSync(s) && k < |s.tracks| == |before| && i < |s.tracks[k]| == |before[k]|
      requires s.tracks[k][i] == e && ppqn == s.ppqn && ppqn > 0 && ValidTracks(s.tracks)
      requires view == s.tracks[k := RemoveAt(s.tracks[k], i)] && lists == before[k := RemoveAt(before[k], i)]
      requires ValidTracks(view) && tempos == TemposWithout(ppqn, s.tempos, s.tracks, view, e)
      requires ClockedBy(before, clock, s.tempos, ppqn)
      requires if IsTempoOrSignature(e.bytes) && Length(s.tracks) > e.time
               then ClockOk() else forall x :: x in pool && x in clock ==> clock[x] == (x.time, x.seconds)
      ensures InSyncWithRebuild() <==> InSync(Song(ppqn, view, tempos))
    {
      hide *;
      if InSync(Song(ppqn, view, tempos)) && !(IsTempoOrSignature(e.bytes) && Length(s.tracks) > e.time) {
        forall p | HasEvent(p) ensures ClockAt(p) {
          var q := PlaceBefore(s.tracks, k, i, before, p);
          RemovedIs(s, k, i);
          RemovalKeepsSeconds(s, k, i, view, EventAt(p).time);
          StillOnTime(p, before, q, clock, s.tempos);
        }
      }
      SyncParts();
    }

    lemma SyncParts()
      ensures InSyncWithRebuild() <==> InSync(Song(ppqn, view, tempos)) && forall p :: HasEvent(p) ==> ClockAt(p)
      ensures InSyncWithRebuild() <==> InSync(Song(ppqn, view, tempos)) && ClockOk()
    {
    }

    lemma RemovedIs(s: Song, k: nat, i: nat)
      requires InSync(s) && k < |s.tracks| && i < |s.tracks[k]| && view == s.tracks[k := RemoveAt(s.tracks[k], i)]
      ensures ValidTracks(s.tracks) && view == AfterRemove(s.tracks, k, i)
    {
    }

    lemma StillOnTime(p: Pos, before: seq<seq<SmfEvent>>, q: Pos, clock: Clock, m: Map)
      requires HasEvent(p) && EventAt(p) in pool && q.track < |before| && q.index < |before[q.track]|
      requires before[q.track][q.index] == EventAt(p) && ClockedBy(before, clock, m, ppqn)
      requires EventAt(p) in clock ==> clock[EventAt(p)] == (EventAt(p).time, EventAt(p).seconds)
      requires ppqn > 0 && Lookup(m, EventAt(p).time) >= 0 && Lookup(tempos, EventAt(p).time) >= 0
      requires SecondsAt(m, ppqn, EventAt(p).time) == SecondsAt(tempos, ppqn, EventAt(p).time)
      ensures ClockAt(p)
    {
      hide SecondsAt, Lookup;
      assert before[q.track][q.index] in clock;
    }

    /** Where an event left after a removal was before it. */
    lemma PlaceBefore(tracks: seq<Tracks.Track>, k: nat, i: nat, before: seq<seq<SmfEvent>>, p: Pos) returns (q: Pos)
      requires Structure() && ValidTracks(tracks) && k < |tracks| == |before| && i < |tracks[k]| == |before[k]|
      requires view == tracks[k := RemoveAt(tracks[k], i)] && lists == before[k := RemoveAt(before[k], i)]
      requires HasEvent(p)
      ensures q.track < |before| && q.index < |before[q.track]| && before[q.track][q.index] == EventAt(p)
      ensures EventAt(p) in pool && 0 <= EventAt(p).time <= Length(tracks)
    {
      hide Structure, Length, ValidTracks;
      EventMirrored(p);
      q := if p.track == k && p.index >= i then Pos(k, p.index + 1) else p;
      WithinLength(tracks, q.track, q.index);
    }

    lemma Placing(k: nat, event: SmfEvent) returns (e: Ev)
      requires Structure() && k < |tracks| && event in tracks[k].events
      ensures k < |view| && 1 <= event.eventNumber <= |view[k]|
      ensures |view[k]| == |tracks[k].events| && tracks[k].events[event.eventNumber - 1] == event
      ensures e == view[k][event.eventNumber - 1] == Ev(event.time, event.bytes)
    {
      assert Attached(k);
      var i :| 0 <= i < |tracks[k].events| && tracks[k].events[i] == event;
      assert tracks[k].Placed(i);
      e := view[k][event.eventNumber - 1];
    }

    lemma RemovedInSync(s: Song, k: nat, i: nat, before: seq<seq<SmfEvent>>, clock: Clock)
      requires Structure() && k < |s.tracks| == |before| && i < |s.tracks[k]| == |before[k]|
      requires ppqn == s.ppqn && ppqn > 0 && ValidTracks(s.tracks) && ValidTracks(view)
      requires view == s.tracks[k := RemoveAt(s.tracks[k], i)] && lists == before[k := RemoveAt(before[k], i)]
      requires tempos == TemposWithout(ppqn, s.tempos, s.tracks, view, s.tracks[k][i])
      requires if IsTempoOrSignature(s.tracks[k][i].bytes) && Length(s.tracks) > s.tracks[k][i].time
               then ClockOk() else forall x :: x in pool && x in clock ==> clock[x] == (x.time, x.seconds)
      ensures InSync(s) ==> (InSync(Song(ppqn, view, tempos)) <==> RemovalKeeps(s.tracks, k, i))
      ensures InSync(s) && ClockedBy(before, clock, s.tempos, ppqn) ==>
                (InSyncWithRebuild() <==> RemovalKeeps(s.tracks, k, i))
      ensures Workable(s) ==> Workable(Song(ppqn, view, tempos))
      ensures Orderly(s) ==> Orderly(Song(ppqn, view, tempos))
    {
      hide ClockOk, ClockedBy, TemposWithout, RemovalKeeps, Structure, InSyncWithRebuild, Workable, Orderly;
      if Workable(s) {
        RemoveWorkable(s, k, i);
      }
      if Orderly(s) {
        RemoveOrderly(s, k, i);
      }
      if InSync(s) {
        RemoveInSyncIff(s, k, i);
        if ClockedBy(before, clock, s.tempos, ppqn) {
          RemovedClock(s, k, i, s.tracks[k][i], before, clock);
        }
      }
    }

    /** The tempo part of `smf_event_remove_from_track`, then the fields of the event. */
    method FinishRemoval(event: SmfEvent, wasLast: bool, ghost v: seq<Tracks.Track>)
      requires Structure() && EmptyIdle() && (wasLast <==> Length(v) <= event.time) && event !in pool
      modifies this`tempos, this`lastSeekPosition, this`cursors, tracks`nextEventNumber, tracks`timeOfNextEvent
      modifies pool`seconds, event`track, event`delta, event`eventNumber, event`time, event`seconds
      ensures Structure() && EmptyIdle() && ValidTracks(view)
      ensures ppqn > 0 && tempos == TemposWithout(ppqn, old(tempos), v, view, Ev(old(event.time), event.bytes))
      ensures if IsTempoOrSignature(event.bytes) && !wasLast
              then ClockOk() else forall e :: e in pool ==> e.seconds == old(e.seconds)
      ensures !IsTempoOrSignature(event.bytes) ==>
                forall j :: 0 <= j < |tracks| ==> tracks[j].nextEventNumber == old(tracks[j].nextEventNumber)
      ensures event.Detached() && event.time == -1 && event.seconds == -1.0
    {
      hide *;
      ForgetTempo(event, wasLast, v);
      event.Reset();
    }

    /** The tempo part of `smf_event_remove_from_track`, once the event is out of the array. */
    method ForgetTempo(event: SmfEvent, wasLast: bool, ghost v: seq<Tracks.Track>)
      requires Structure() && EmptyIdle() && (wasLast <==> Length(v) <= event.time)
      modifies this`tempos, this`lastSeekPosition, this`cursors, tracks`nextEventNumber, tracks`timeOfNextEvent
      modifies pool`seconds
      ensures Structure() && EmptyIdle() && ValidTracks(view)
      ensures ppqn > 0 && tempos == TemposWithout(ppqn, old(tempos), v, view, Ev(event.time, event.bytes))
      ensures if IsTempoOrSignature(event.bytes) && !wasLast
              then ClockOk() else forall e :: e in pool ==> e.seconds == old(e.seconds)
      ensures !IsTempoOrSignature(event.bytes) ==>
                forall j :: 0 <= j < |tracks| ==> tracks[j].nextEventNumber == old(tracks[j].nextEventNumber)
    {
      hide *;
      ViewValid();
      if IsTempoOrSignature(event.bytes) {
        if wasLast {
          RemoveLastTempoWithPulses(event.time);
        } else {
          CreateTempoMapAndComputeSeconds();
        }
      }
      TemposWithoutIs(old(tempos), v, Ev(event.time, event.bytes));
    }

    lemma PoolCovers(k: nat)
      requires Structure() && k < |tracks|
      ensures forall e :: e in tracks[k].events ==> e in pool
      ensures forall j :: 0 <= j < |tracks| && j != k ==> tracks[j] != tracks[k]
    {
      assert Attached(k);
      DistinctTracks();
      forall j | 0 <= j < |tracks| && j != k ensures tracks[j] != tracks[k] {
        assert Index(tracks, tracks[j]) == j && Index(tracks, tracks[k]) == k;
      }
    }

    lemma TemposWithoutIs(m: Map, v: seq<Tracks.Track>, e: Ev)
      requires Structure() && ValidTracks(view)
      requires tempos == (if !IsTempoOrSignature(e.bytes) then m
                          else if Length(v) <= e.time then WithoutLastTempo(m, e.time) else Rebuilt(ppqn, view))
      ensures ppqn > 0 && tempos == TemposWithout(ppqn, m, v, view, e)
    {
    }

    /** `remove_eot_if_before_pulses`. */
    method RemoveEotIfBeforePulses(track: SmfTrack, ghost k: nat, pulses: int)
      requires Structure() && EmptyIdle() && k < |tracks| && tracks[k] == track && k < |view| && k < |lists|
      modifies this`view, this`lists, this`pool, this`tempos, this`lastSeekPosition, this`cursors
      modifies tracks`nextEventNumber, tracks`timeOfNextEvent
      modifies track`events, track`numberOfEvents, track`contents
      modifies pool`eventNumber, pool`delta, pool`seconds, pool`track, pool`time
      ensures Structure() && EmptyIdle() && ValidTracks(view) && k < |view| && k < |lists|
                && |lists[k]| == |view[k]| <= old(|lists[k]|)
      ensures view == old(view)[k := DropEot(old(view)[k], pulses)]
      ensures lists == old(lists)[k := old(lists)[k][..|view[k]|]]
      ensures tempos == old(tempos) && pool <= old(pool)
      ensures forall e :: e in pool ==> e.time == old(e.time) && e.seconds == old(e.seconds)
      ensures forall e :: e in old(pool) - pool ==> e.Detached() && IsEot(e.bytes)
      ensures forall j :: 0 <= j < |tracks| && j != k ==> tracks[j].nextEventNumber == old(tracks[j].nextEventNumber)
      ensures track.nextEventNumber == if lists[k] == [] then -1 else old(track.nextEventNumber)
    {
      hide *;
      LastFacts(k, pulses);
      var event := track.GetLastEvent();
      if event == null {
        return;
      }
      if !IsEot(event.bytes) {
        return;
      }
      if event.time > pulses {
        return;
      }
      EotIsPlain(event.bytes);
      PoolCovers(k);
      RemoveEvent(track, k, event);
      RemoveLast(old(view)[k]);
      RemoveLast(old(lists)[k]);
      TemposWithoutPlain(old(tempos), old(view), Ev(old(event.time), event.bytes));
    }

    lemma EotIsPlain(m: seq<Byte>)
      requires IsEot(m)
      ensures !IsTempoOrSignature(m)
    {
    }

    lemma RemoveLast<T>(s: seq<T>)
      ensures s != [] ==> RemoveAt(s, |s| - 1) == s[..|s| - 1]
      ensures s[..|s|] == s
    {
    }

    lemma TemposWithoutPlain(m: Map, v: seq<Tracks.Track>, e: Ev)
      requires ppqn > 0 && ValidTracks(view) && !IsTempoOrSignature(e.bytes)
      ensures TemposWithout(ppqn, m, v, view, e) == m
    {
    }

    /** The last event of a track decides what is dropped. */
    lemma LastFacts(k: nat, pulses: int)
      requires Structure() && k < |tracks|
      ensures ppqn > 0 && ValidTracks(view) && k < |view| == |lists| == |tracks| && |lists[k]| == |view[k]|
                && lists[k] == tracks[k].events
      ensures tracks[k].Valid()
      ensures lists[k] == [] ==>
                DropEot(view[k], pulses) == view[k] && (EmptyIdle() ==> tracks[k].nextEventNumber == -1)
      ensures lists[k] != [] ==>
                var last := lists[k][|lists[k]| - 1];
                && last.eventNumber == |lists[k]| && last in tracks[k].events
                && DropEot(view[k], pulses) ==
                   if IsEot(last.bytes) && last.time <= pulses then view[k][..|view[k]| - 1] else view[k]
      ensures view[k := view[k]] == view && lists[k := lists[k][..|lists[k]|]] == lists
    {
      ViewValid();
      assert Attached(k);
      assert lists[k][..|lists[k]|] == lists[k];
      if lists[k] != [] {
        assert tracks[k].Placed(|lists[k]| - 1);
      }
    }

    // ------------------------------------------------------- editing: adding

    /** The events of track k after e has been added: a displaced End Of Track gone, e in its slot. */
    ghost function ListAfterAdd(list: seq<SmfEvent>, t: Tracks.Track, event: SmfEvent, time: int): seq<SmfEvent>
      requires |list| == |t|
    {
      var d := DropEot(t, time);
      InsertAt(list[..|d|], Slot(d, time), event)
    }

    /** `smf_track_add_event`. */
    method AddEvent(track: SmfTrack, ghost k: nat, event: SmfEvent)
      requires Structure() && EmptyIdle() && Workable(Song(ppqn, view, tempos)) && k < |tracks| && tracks[k] == track
      requires k < |view| && k < |lists| && |view[k]| == |lists[k]|
      requires event.Detached() && event.time >= 0 && event.seconds >= 0.0
      requires !StartsLate(Song(ppqn, view, tempos), k, Ev(event.time, event.bytes))
      modifies this`view, this`lists, this`pool, this`tempos, this`lastSeekPosition, this`cursors
      modifies tracks`nextEventNumber, tracks`timeOfNextEvent
      modifies track`events, track`numberOfEvents, track`contents
      modifies pool`eventNumber, pool`delta, pool`seconds, pool`track, pool`time
      modifies event`track, event`trackNumber, event`eventNumber, event`delta, event`seconds
      ensures Structure() && EmptyIdle() && Workable(Song(ppqn, view, tempos))
      ensures old(Sound(Song(ppqn, view, tempos))) ==> Sound(Song(ppqn, view, tempos))
      ensures Song(ppqn, view, tempos) == AddStep(old(Song(ppqn, view, tempos)), k, Ev(event.time, event.bytes))
      ensures lists == old(lists)[k := ListAfterAdd(old(lists)[k], old(view)[k], event, event.time)]
      ensures event in pool && pool <= old(pool) + {event}
      ensures event.time == old(event.time) && forall e :: e in pool && e in old(pool) ==> e.time == old(e.time)
      ensures if IsTempoOrSignature(event.bytes) && Length(view) > event.time
              then ClockOk()
              else event.seconds == old(event.seconds)
                   && forall e :: e in pool && e in old(pool) ==> e.seconds == old(e.seconds)
      ensures !IsTempoOrSignature(event.bytes) ==> forall j :: 0 <= j < |tracks| && j != k ==>
                tracks[j].nextEventNumber == old(tracks[j].nextEventNumber)
      ensures !IsTempoOrSignature(event.bytes) ==>
                track.nextEventNumber == if |lists[k]| == 1 then 1 else old(track.nextEventNumber)
    {
      hide *;
      ghost var s := Song(ppqn, view, tempos);
      PutEvent(track, k, event);
      NotLate(s, k, Ev(event.time, event.bytes));
      UpdateTempoMap(event);
      AddedTempos(s, k, Ev(event.time, event.bytes));
    }

    /** Up to the end of the array part: drop an End Of Track in the way, then place the event. */
    method PutEvent(track: SmfTrack, ghost k: nat, event: SmfEvent)
      requires Structure() && EmptyIdle() && Workable(Song(ppqn, view, tempos)) && k < |tracks| && tracks[k] == track
      requires k < |view| && k < |lists| && |view[k]| == |lists[k]|
      requires event.Detached() && event.time >= 0
      modifies this`view, this`lists, this`pool, this`tempos, this`lastSeekPosition, this`cursors
      modifies tracks`nextEventNumber, tracks`timeOfNextEvent
      modifies track`events, track`numberOfEvents, track`contents
      modifies pool`eventNumber, pool`delta, pool`seconds, pool`track, pool`time
      modifies event`track, event`trackNumber, event`eventNumber, event`delta
      ensures Structure() && EmptyIdle() && old(k < |view| && ValidTracks(view))
      ensures view == AfterAdd(old(view), k, Ev(event.time, event.bytes)) && tempos == old(tempos)
      ensures lists == old(lists)[k := ListAfterAdd(old(lists)[k], old(view)[k], event, event.time)]
      ensures event in pool && pool <= old(pool) + {event}
      ensures event.time == old(event.time) && event.seconds == old(event.seconds)
      ensures forall e :: e in pool && e in old(pool) ==> e.time == old(e.time) && e.seconds == old(e.seconds)
      ensures forall j :: 0 <= j < |tracks| && j != k ==> tracks[j].nextEventNumber == old(tracks[j].nextEventNumber)
      ensures track.nextEventNumber == if |lists[k]| == 1 then 1 else old(track.nextEventNumber)
    {
      hide *;
      DetachedOutside(event);
      AddedView(Song(ppqn, view, tempos), k, Ev(event.time, event.bytes));
      ListIs(lists[k], view[k], event, event.time);
      RemoveEotIfBeforePulses(track, k, event.time);
      PoolCovers(k);
      PlaceEvent(track, k, event);
    }

    /** The tempo part, once the event is in place. */
    method UpdateTempoMap(event: SmfEvent)
      requires Structure() && EmptyIdle() && event in pool && event.time >= 0
      requires ppqn > 0 && (tempos != [] ==> tempos[0].pulses == 0)
      requires tempos == [] && ChangeOf(event.bytes) != NoChange && Length(view) <= event.time ==> event.time == 0
      modifies this`tempos, this`lastSeekPosition, this`cursors, tracks`nextEventNumber, tracks`timeOfNextEvent
      modifies pool`seconds
      ensures Structure() && EmptyIdle() && ValidTracks(view)
      ensures tempos == if !IsTempoOrSignature(event.bytes) then old(tempos)
                        else if Length(view) <= event.time
                        then Extend(old(tempos), ppqn, event.time, ChangeOf(event.bytes))
                        else Rebuilt(ppqn, view)
      ensures if IsTempoOrSignature(event.bytes) && Length(view) > event.time
              then ClockOk() else forall e :: e in pool ==> e.seconds == old(e.seconds)
      ensures !IsTempoOrSignature(event.bytes) ==>
                forall j :: 0 <= j < |tracks| ==> tracks[j].nextEventNumber == old(tracks[j].nextEventNumber)
    {
      hide *;
      ViewValid();
      if IsTempoOrSignature(event.bytes) {
        var last := EventIsLast(event);
        if last {
          MaybeAddToTempoMap(event);
        } else {
          CreateTempoMapAndComputeSeconds();
        }
      }
    }

    lemma TemposOkMeans()
      requires TemposOk()
      ensures ppqn > 0 && tempos != [] && tempos[0].pulses == 0
    {
    }

    /** Clearing and inserting is what AfterAdd says. */
    lemma AddedView(s: Song, k: nat, e: Ev)
      requires Workable(s) && k < |s.tracks| && e.time >= 0
      requires ppqn == s.ppqn && tempos == s.tempos
      ensures ValidTracks(s.tracks)
      ensures var d := s.tracks[k := DropEot(s.tracks[k], e.time)];
              d[k := InsertAt(d[k], Slot(d[k], e.time), e)] == AfterAdd(s.tracks, k, e)
    {
    }

    lemma NotLate(s: Song, k: nat, e: Ev)
      requires Workable(s) && k < |s.tracks| && e.time >= 0 && !StartsLate(s, k, e)
      ensures s.ppqn > 0 && (s.tempos != [] ==> s.tempos[0].pulses == 0) && ValidTracks(s.tracks)
      ensures s.tempos == [] && ChangeOf(e.bytes) != NoChange && Length(AfterAdd(s.tracks, k, e)) <= e.time ==>
                e.time == 0
    {
    }

    lemma AddedTempos(s: Song, k: nat, e: Ev)
      requires Workable(s) && k < |s.tracks| && e.time >= 0
      requires ppqn == s.ppqn && view == AfterAdd(s.tracks, k, e) && ValidTracks(view)
      requires tempos == (if !IsTempoOrSignature(e.bytes) then s.tempos
                          else if Length(view) <= e.time then Extend(s.tempos, ppqn, e.time, ChangeOf(e.bytes))
                          else Rebuilt(ppqn, view))
      ensures Song(ppqn, view, tempos) == AddStep(s, k, e) && Workable(Song(ppqn, view, tempos))
      ensures Sound(s) ==> Sound(Song(ppqn, view, tempos))
    {
    }

    /** Taking out an event just added gives the events back, in order, unless an End Of Track was displaced. */
    lemma ListUndo(list: seq<SmfEvent>, t: Tracks.Track, event: SmfEvent, time: int)
      requires |list| == |t| && DropEot(t, time) == t
      ensures var after, slot := ListAfterAdd(list, t, event, time), Slot(t, time);
              slot < |after| && after[slot] == event && RemoveAt(after, slot) == list
    {
      assert list[..|t|] == list;
    }

    lemma ListIs(list: seq<SmfEvent>, t: Tracks.Track, event: SmfEvent, time: int)
      requires |list| == |t|
      ensures |DropEot(t, time)| <= |list|
      ensures ListAfterAdd(list, t, event, time)
           == InsertAt(list[..|DropEot(t, time)|], Slot(DropEot(t, time), time), event)
    {
    }

    /** The tempo map and every event's seconds are those of a rebuild from scratch. */
    ghost predicate InSyncWithRebuild()
      reads this`lists, this`view, this`tempos, this`ppqn, this`pool, pool`time, pool`seconds
    {
      InSync(Song(ppqn, view, tempos)) && ClockOk()
    }

    /** `smf_track_add_event_pulses`. */
    method AddEventPulses(track: SmfTrack, ghost k: nat, event: SmfEvent, pulses: int)
      requires Structure() && EmptyIdle() && Sound(Song(ppqn, view, tempos)) && k < |tracks| && tracks[k] == track
      requires k < |view| && k < |lists| && |view[k]| == |lists[k]|
      requires event.Detached() && event.time == -1 && event.seconds == -1.0 && pulses >= 0
      modifies this`view, this`lists, this`pool, this`tempos, this`lastSeekPosition, this`cursors
      modifies tracks`nextEventNumber, tracks`timeOfNextEvent
      modifies track`events, track`numberOfEvents, track`contents
      modifies pool`eventNumber, pool`delta, pool`seconds, pool`track, pool`time
      modifies event`track, event`trackNumber, event`eventNumber, event`delta, event`seconds, event`time
      ensures Structure() && EmptyIdle() && Sound(Song(ppqn, view, tempos))
      ensures Song(ppqn, view, tempos) == AddStep(old(Song(ppqn, view, tempos)), k, Ev(pulses, event.bytes))
      ensures lists == old(lists)[k := ListAfterAdd(old(lists)[k], old(view)[k], event, pulses)]
      ensures event in pool && pool <= old(pool) + {event} && event.time == pulses
      ensures !(IsTempoOrSignature(event.bytes) && Length(view) > event.time) ==>
                Lookup(old(tempos), event.time) >= 0 && event.seconds == SecondsAt(old(tempos), ppqn, event.time)
      ensures !(IsTempoOrSignature(event.bytes) && Length(view) > event.time) ==>
                forall e :: e in pool && e in old(pool) ==> e.time == old(e.time) && e.seconds == old(e.seconds)
      ensures old(InSyncWithRebuild()) ==>
                (InSyncWithRebuild() <==> old(Agrees(view, k, Ev(pulses, event.bytes))))
      ensures old(InSyncWithRebuild() && NoRival(view, k, Ev(pulses, event.bytes))) ==> InSyncWithRebuild()
      ensures !IsTempoOrSignature(event.bytes) ==> forall j :: 0 <= j < |tracks| && j != k ==>
                tracks[j].nextEventNumber == old(tracks[j].nextEventNumber)
      ensures !IsTempoOrSignature(event.bytes) ==>
                track.nextEventNumber == if |lists[k]| == 1 then 1 else old(track.nextEventNumber)
    {
      hide *;
      DetachedOutside(event);
      ClockNonNegative(pulses);
      SoundNeverLate(Song(ppqn, view, tempos), k, Ev(pulses, event.bytes));
      ghost var clock := CaptureClock();
      event.time := pulses;
      var s := SecondsFromPulses(pulses);
      event.seconds := s;
      AddEvent(track, k, event);
      if old(InSyncWithRebuild()) {
        KeptInSync(old(Song(ppqn, view, tempos)), k, event, old(lists), clock);
      }
    }

    lemma CaptureClock() returns (clock: Clock)
      requires Structure()
      ensures |view| == |lists| && (InSyncWithRebuild() ==> InSync(Song(ppqn, view, tempos)))
      ensures clock.Keys == pool && forall e :: e in pool ==> clock[e] == (e.time, e.seconds)
      ensures InSyncWithRebuild() ==> ClockedBy(lists, clock, tempos, ppqn)
    {
      clock := map e | e in pool :: (e.time, e.seconds);
      if InSyncWithRebuild() {
        forall j, i | 0 <= j < |lists| && 0 <= i < |lists[j]|
          ensures lists[j][i] in clock
          ensures Lookup(tempos, clock[lists[j][i]].0) >= 0
          ensures clock[lists[j][i]].1 == SecondsAt(tempos, ppqn, clock[lists[j][i]].0)
        {
          assert HasEvent(Pos(j, i)) && ClockAt(Pos(j, i));
        }
      }
    }

    lemma KeptInSync(s: Song, k: nat, event: SmfEvent, before: seq<seq<SmfEvent>>, clock: Clock)
      requires Structure() && InSync(s) && k < |s.tracks| == |before| && |s.tracks[k]| == |before[k]| && event.time >= 0
      requires s.ppqn == ppqn
      requires Song(ppqn, view, tempos) == AddStep(s, k, Ev(event.time, event.bytes))
      requires lists == before[k := ListAfterAdd(before[k], s.tracks[k], event, event.time)]
      requires ClockedBy(before, clock, s.tempos, ppqn)
      requires IsTempoOrSignature(event.bytes) && Length(view) > event.time ==> ClockOk()
      requires !(IsTempoOrSignature(event.bytes) && Length(view) > event.time) ==>
                 && Lookup(s.tempos, event.time) >= 0 && event.seconds == SecondsAt(s.tempos, ppqn, event.time)
                 && forall e :: e in pool && e in clock ==> clock[e] == (e.time, e.seconds)
      ensures InSyncWithRebuild() <==> Agrees(s.tracks, k, Ev(event.time, event.bytes))
      ensures NoRival(s.tracks, k, Ev(event.time, event.bytes)) ==> InSyncWithRebuild()
    {
      AddInSyncIff(s, k, Ev(event.time, event.bytes));
      if NoRival(s.tracks, k, Ev(event.time, event.bytes)) {
        NoRivalAgrees(s, k, Ev(event.time, event.bytes));
      }
      if !(IsTempoOrSignature(event.bytes) && Length(view) > event.time) {
        forall p | HasEvent(p) ensures ClockAt(p) {
          EventMirrored(p);
          var e := EventAt(p);
          assert e.time <= Length(view) by {
            TimeWithinLength(p);
          }
          if e != event {
            var q := EarlierPlace(before, k, s.tracks[k], event, p);
            assert before[q.track][q.index] in clock;
          }
          AddKeepsSeconds(s, k, Ev(event.time, event.bytes), e.time);
        }
      }
    }

    /** A new event off the clock of the map keeps the song from being in sync, unless there is a rebuild. */
    lemma OffClock(s: Song, k: nat, event: SmfEvent, before: seq<seq<SmfEvent>>)
      requires Structure() && InSync(s) && k < |s.tracks| == |before| && |s.tracks[k]| == |before[k]| && event.time >= 0
      requires s.ppqn == ppqn && Song(ppqn, view, tempos) == AddStep(s, k, Ev(event.time, event.bytes))
      requires lists == before[k := ListAfterAdd(before[k], s.tracks[k], event, event.time)]
      requires !(IsTempoOrSignature(event.bytes) && Length(view) > event.time)
      requires Lookup(s.tempos, event.time) >= 0 && event.seconds != SecondsAt(s.tempos, ppqn, event.time)
      ensures !InSyncWithRebuild()
    {
      var p := Pos(k, Slot(DropEot(s.tracks[k], event.time), event.time));
      assert HasEvent(p) && EventAt(p) == event;
      AddKeepsSeconds(s, k, Ev(event.time, event.bytes), event.time);
      assert !ClockAt(p);
    }

    lemma TimeWithinLength(p: Pos)
      requires Structure() && HasEvent(p)
      ensures EventAt(p).time <= Length(view)
    {
      EventMirrored(p);
      ViewValid();
      var t := view[p.track];
      assert TrackTimes(t)[p.index] <= TrackTimes(t)[|t| - 1] == LastTime(t);
    }

    /** Where an event other than the new one was before the add. */
    lemma EarlierPlace(before: seq<seq<SmfEvent>>, k: nat, t: Tracks.Track, event: SmfEvent, p: Pos) returns (q: Pos)
      requires k < |before| && |before[k]| == |t|
      requires lists == before[k := ListAfterAdd(before[k], t, event, event.time)]
      requires HasEvent(p) && EventAt(p) != event
      ensures q.track < |before| && q.index < |before[q.track]| && before[q.track][q.index] == EventAt(p)
    {
      var slot := Slot(DropEot(t, event.time), event.time);
      q := if p.track == k && p.index > slot then Pos(k, p.index - 1) else p;
    }

    lemma ClockNonNegative(p: int)
      requires Sound(Song(ppqn, view, tempos)) && p >= 0
      ensures TemposOk() && Ticking(tempos) && Lookup(tempos, p) >= 0 && SecondsAt(tempos, ppqn, p) >= 0.0
    {
      TickingSeconds(tempos, ppqn, p);
    }

    lemma Bracket(m: Map, seconds: real)
      requires ppqn > 0 && Ticking(m) && seconds >= 0.0
      ensures LookupSeconds(m, seconds) >= 0 && m[LookupSeconds(m, seconds)].mpqn > 0
      ensures PulsesAt(m, ppqn, seconds) >= 0
      ensures ValidMap(m, ppqn) ==>
                var p := PulsesAt(m, ppqn, seconds);
                && Lookup(m, p) >= 0 && Lookup(m, p + 1) >= 0
                && SecondsAt(m, ppqn, p) <= seconds < SecondsAt(m, ppqn, p + 1)
    {
      TickingPulses(m, ppqn, seconds);
      if ValidMap(m, ppqn) {
        PulsesBracket(m, ppqn, seconds);
      }
    }

    /** `smf_track_add_event_delta_pulses`. */
    method AddEventDeltaPulses(track: SmfTrack, ghost k: nat, event: SmfEvent, delta: int)
      requires Structure() && EmptyIdle() && Sound(Song(ppqn, view, tempos)) && k < |tracks| && tracks[k] == track
      requires k < |view| && k < |lists| && |view[k]| == |lists[k]|
      requires event.Detached() && event.time == -1 && event.seconds == -1.0 && delta >= 0
      modifies this`view, this`lists, this`pool, this`tempos, this`lastSeekPosition, this`cursors
      modifies tracks`nextEventNumber, tracks`timeOfNextEvent
      modifies track`events, track`numberOfEvents, track`contents
      modifies pool`eventNumber, pool`delta, pool`seconds, pool`track, pool`time
      modifies event`track, event`trackNumber, event`eventNumber, event`delta, event`seconds, event`time
      ensures Structure() && EmptyIdle() && Sound(Song(ppqn, view, tempos))
      ensures old(LastTime(view[k])) + delta >= 0
      ensures Song(ppqn, view, tempos)
                == AddStep(old(Song(ppqn, view, tempos)), k, Ev(old(LastTime(view[k])) + delta, event.bytes))
      ensures lists == old(lists)[k := ListAfterAdd(old(lists)[k], old(view)[k], event, event.time)]
      ensures event in pool && pool <= old(pool) + {event} && event.time == old(LastTime(view[k])) + delta
      ensures !(IsTempoOrSignature(event.bytes) && Length(view) > event.time) ==>
                Lookup(old(tempos), event.time) >= 0 && event.seconds == SecondsAt(old(tempos), ppqn, event.time)
      ensures !(IsTempoOrSignature(event.bytes) && Length(view) > event.time) ==>
                forall e :: e in pool && e in old(pool) ==> e.time == old(e.time) && e.seconds == old(e.seconds)
      ensures old(InSyncWithRebuild()) ==>
                (InSyncWithRebuild() <==> old(Agrees(view, k, Ev(LastTime(view[k]) + delta, event.bytes))))
      ensures old(InSyncWithRebuild() && NoRival(view, k, Ev(LastTime(view[k]) + delta, event.bytes))) ==>
                InSyncWithRebuild()
      ensures !IsTempoOrSignature(event.bytes) ==> forall j :: 0 <= j < |tracks| && j != k ==>
                tracks[j].nextEventNumber == old(tracks[j].nextEventNumber)
      ensures !IsTempoOrSignature(event.bytes) ==>
                track.nextEventNumber == if |lists[k]| == 1 then 1 else old(track.nextEventNumber)
    {
      hide *;
      LastPulses(k);
      var last := track.GetLastEvent();
      var pulses := (if last == null then 0 else last.time) + delta;
      AddEventPulses(track, k, event, pulses);
    }

    lemma LastPulses(k: nat)
      requires Structure() && k < |tracks|
      ensures k < |view| && tracks[k].Valid()
      ensures LastTime(view[k]) == if tracks[k].events == [] then 0 else tracks[k].events[|tracks[k].events| - 1].time
      ensures LastTime(view[k]) >= 0
    {
      assert Attached(k);
      if tracks[k].events != [] {
        assert tracks[k].Placed(|tracks[k].events| - 1);
      }
    }

    /** `smf_track_add_event_seconds`: the pulse is the one the given time falls in. */
    method AddEventSeconds(track: SmfTrack, ghost k: nat, event: SmfEvent, seconds: real)
      requires Structure() && EmptyIdle() && Sound(Song(ppqn, view, tempos)) && k < |tracks| && tracks[k] == track
      requires k < |view| && k < |lists| && |view[k]| == |lists[k]|
      requires event.Detached() && event.time == -1 && event.seconds == -1.0 && seconds >= 0.0
      modifies this`view, this`lists, this`pool, this`tempos, this`lastSeekPosition, this`cursors
      modifies tracks`nextEventNumber, tracks`timeOfNextEvent
      modifies track`events, track`numberOfEvents, track`contents
      modifies pool`eventNumber, pool`delta, pool`seconds, pool`track, pool`time
      modifies event`track, event`trackNumber, event`eventNumber, event`delta, event`seconds, event`time
      ensures Structure() && EmptyIdle() && Sound(Song(ppqn, view, tempos))
      ensures ppqn > 0 && LookupSeconds(old(tempos), seconds) >= 0
      ensures event.time == PulsesAt(old(tempos), ppqn, seconds) >= 0 && Lookup(old(tempos), event.time) >= 0
      ensures ValidMap(old(tempos), ppqn) ==>
                && Lookup(old(tempos), event.time + 1) >= 0
                && SecondsAt(old(tempos), ppqn, event.time) <= seconds < SecondsAt(old(tempos), ppqn, event.time + 1)
      ensures Song(ppqn, view, tempos) == AddStep(old(Song(ppqn, view, tempos)), k, Ev(event.time, event.bytes))
      ensures lists == old(lists)[k := ListAfterAdd(old(lists)[k], old(view)[k], event, event.time)]
      ensures event in pool && pool <= old(pool) + {event}
      ensures if IsTempoOrSignature(event.bytes) && Length(view) > event.time then ClockOk()
              else event.seconds == seconds && forall e :: e in pool && e in old(pool) ==> e.seconds == old(e.seconds)
      ensures old(InSyncWithRebuild()) ==>
                (InSyncWithRebuild() <==>
                 && Agrees(old(view), k, Ev(event.time, event.bytes))
                 && ((IsTempoOrSignature(event.bytes) && Length(view) > event.time)
                     || seconds == SecondsAt(old(tempos), ppqn, event.time)))
    {
      hide *;
      DetachedOutside(event);
      ClockNonNegative(0);
      TemposOkMeans();
      Bracket(tempos, seconds);
      ghost var clock := CaptureClock();
      event.seconds := seconds;
      var pulses := PulsesFromSeconds(seconds);
      ClockNonNegative(pulses);
      event.time := pulses;
      SoundNeverLate(Song(ppqn, view, tempos), k, Ev(pulses, event.bytes));
      AddEvent(track, k, event);
      if old(InSyncWithRebuild()) {
        InSyncIff(old(Song(ppqn, view, tempos)), k, event, old(lists), clock);
      }
    }

    /** The song with the new event is in sync exactly when nothing overrules it and its seconds are the map's. */
    lemma InSyncIff(s: Song, k: nat, event: SmfEvent, before: seq<seq<SmfEvent>>, clock: Clock)
      requires Structure() && InSync(s) && k < |s.tracks| == |before| && |s.tracks[k]| == |before[k]| && event.time >= 0
      requires s.ppqn == ppqn && Song(ppqn, view, tempos) == AddStep(s, k, Ev(event.time, event.bytes))
      requires lists == before[k := ListAfterAdd(before[k], s.tracks[k], event, event.time)]
      requires ClockedBy(before, clock, s.tempos, ppqn) && Lookup(s.tempos, event.time) >= 0
      requires if IsTempoOrSignature(event.bytes) && Length(view) > event.time then ClockOk()
               else forall e :: e in pool && e in clock ==> clock[e] == (e.time, e.seconds)
      ensures ppqn > 0 && ValidTracks(s.tracks)
      ensures InSyncWithRebuild() <==>
              && Agrees(s.tracks, k, Ev(event.time, event.bytes))
              && ((IsTempoOrSignature(event.bytes) && Length(view) > event.time)
                  || event.seconds == SecondsAt(s.tempos, ppqn, event.time))
    {
      hide *;
      InSyncMap(s);
      InSyncSound(s);
      SoundParts(s);
      if (IsTempoOrSignature(event.bytes) && Length(view) > event.time)
         || event.seconds == SecondsAt(s.tempos, ppqn, event.time) {
        KeptInSync(s, k, event, before, clock);
      } else {
        OffClock(s, k, event, before);
      }
    }

    /** `smf_track_add_eot_delta_pulses`. */
    method AddEotDeltaPulses(track: SmfTrack, ghost k: nat, delta: int) returns (r: int)
      requires Structure() && EmptyIdle() && Sound(Song(ppqn, view, tempos)) && k < |tracks| && tracks[k] == track
      requires k < |view| && k < |lists| && |view[k]| == |lists[k]| && delta >= 0
      modifies this`view, this`lists, this`pool, this`tempos, this`lastSeekPosition, this`cursors
      modifies tracks`nextEventNumber, tracks`timeOfNextEvent
      modifies track`events, track`numberOfEvents, track`contents
      modifies pool`eventNumber, pool`delta, pool`seconds, pool`track, pool`time
      ensures r == 0 && Structure() && EmptyIdle() && Sound(Song(ppqn, view, tempos))
      ensures old(LastTime(view[k])) + delta >= 0
      ensures Song(ppqn, view, tempos)
           == AddStep(old(Song(ppqn, view, tempos)), k, Ev(old(LastTime(view[k])) + delta, [0xFF, 0x2F, 0x00]))
      ensures fresh(pool - old(pool))
      ensures forall e :: e in pool && e in old(pool) ==> e.time == old(e.time) && e.seconds == old(e.seconds)
      ensures forall e :: e in pool && e !in old(pool) ==>
                Lookup(old(tempos), e.time) >= 0 && e.seconds == SecondsAt(old(tempos), ppqn, e.time)
      ensures old(InSyncWithRebuild()) ==> InSyncWithRebuild()
      ensures forall j :: 0 <= j < |tracks| && j != k ==> tracks[j].nextEventNumber == old(tracks[j].nextEventNumber)
      ensures track.nextEventNumber == if |lists[k]| == 1 then 1 else old(track.nextEventNumber)
    {
      hide *;
      var event := new SmfEvent([0xFF, 0x2F, 0x00]);
      LastPulses(k);
      EotHasNoRival(view, k, Ev(LastTime(view[k]) + delta, event.bytes));
      AddEventDeltaPulses(track, k, event, delta);
      r := 0;
    }

    lemma EotHasNoRival(v: seq<Tracks.Track>, k: nat, e: Ev)
      requires e.bytes == [0xFF, 0x2F, 0x00]
      ensures NoRival(v, k, e) && !IsTempoOrSignature(e.bytes)
    {
    }

    /** `smf_track_add_eot_pulses`: refused when the track has a later event. */
    method AddEotPulses(track: SmfTrack, ghost k: nat, pulses: int) returns (r: int)
      requires Structure() && EmptyIdle() && Sound(Song(ppqn, view, tempos)) && k < |tracks| && tracks[k] == track
      requires k < |view| && k < |lists| && |view[k]| == |lists[k]| && pulses >= 0
      modifies this`view, this`lists, this`pool, this`tempos, this`lastSeekPosition, this`cursors
      modifies tracks`nextEventNumber, tracks`timeOfNextEvent
      modifies track`events, track`numberOfEvents, track`contents
      modifies pool`eventNumber, pool`delta, pool`seconds, pool`track, pool`time
      ensures Structure() && EmptyIdle() && Sound(Song(ppqn, view, tempos))
      ensures r == if old(LastTime(view[k])) > pulses then -2 else 0
      ensures Song(ppqn, view, tempos) == if r != 0 then old(Song(ppqn, view, tempos))
                                          else AddStep(old(Song(ppqn, view, tempos)), k, Ev(pulses, [0xFF, 0x2F, 0x00]))
      ensures k < |view| && (old(EotOnlyLast(view[k])) ==> EotOnlyLast(view[k]))
    {
      hide *;
      LastPulses(k);
      ghost var s := Song(ppqn, view, tempos);
      var last := track.GetLastEvent();
      if last != null {
        if last.time > pulses {
          return -2;
        }
      }
      var event := new SmfEvent([0xFF, 0x2F, 0x00]);
      AddEventPulses(track, k, event, pulses);
      EotStaysLast(s, k, Ev(pulses, [0xFF, 0x2F, 0x00]));
      r := 0;
    }

    lemma EotStaysLast(s: Song, k: nat, e: Ev)
      requires Sound(s) && k < |s.tracks| && e.time >= 0 && LastTime(s.tracks[k]) <= e.time
      ensures |AddStep(s, k, e).tracks| == |s.tracks|
      ensures EotOnlyLast(s.tracks[k]) ==> EotOnlyLast(AddStep(s, k, e).tracks[k])
    {
      if EotOnlyLast(s.tracks[k]) {
        AddKeepsEotLast(s.tracks[k], e);
      }
    }

    // --------------------------------------------------------- editing: ppqn

    /** `smf_set_ppqn`: map and event times stay as they were computed with the old value. */
    method SetPpqn(pulses: int) returns (r: int)
      requires Structure() && pulses > 0
      modifies this`ppqn
      ensures Structure() && r == 0 && ppqn == pulses
      ensures old(Workable(Song(ppqn, view, tempos))) ==> Workable(Song(ppqn, view, tempos))
      ensures old(InSyncWithRebuild()) ==>
                (InSyncWithRebuild() <==> pulses == old(ppqn) || forall p :: HasEvent(p) ==> EventAt(p).time == 0)
    {
      ghost var clock := CaptureClock();
      ppqn := pulses;
      r := 0;
      if old(InSyncWithRebuild()) {
        RescaledIff(old(ppqn), clock);
      }
    }

    /** One event at pulse 1, timed with one pulse to the quarter note: with two, it would come after 0.25 seconds. */
    lemma SetPpqnExample(e: Ev)
      requires Structure() && ppqn == 2 && tempos == [INITIAL] && view == [[e]] && e.time == 1
      requires HasEvent(Pos(0, 0)) && EventAt(Pos(0, 0)).seconds == 0.5
      ensures !InSyncWithRebuild()
    {
      EventMirrored(Pos(0, 0));
      assert !ClockAt(Pos(0, 0));
    }

    lemma RescaledIff(before: int, clock: Clock)
      requires Structure() && before > 0 && InSync(Song(before, view, tempos))
      requires ClockedBy(lists, clock, tempos, before)
      requires forall e :: e in pool && e in clock ==> clock[e] == (e.time, e.seconds)
      ensures InSyncWithRebuild() <==> ppqn == before || forall p :: HasEvent(p) ==> EventAt(p).time == 0
    {
      hide *;
      SyncParts();
      if ppqn == before || forall p :: HasEvent(p) ==> EventAt(p).time == 0 {
        if ppqn != before {
          ZeroSong(before);
        }
        forall p | HasEvent(p) ensures ClockAt(p) {
          Rescaled(p, before, clock);
        }
      } else if InSync(Song(ppqn, view, tempos)) {
        var p :| HasEvent(p) && EventAt(p).time != 0;
        Rescaled(p, before, clock);
      }
    }

    lemma ZeroSong(before: int)
      requires Structure() && before > 0 && InSync(Song(before, view, tempos))
      requires forall p :: HasEvent(p) ==> EventAt(p).time == 0
      ensures InSync(Song(ppqn, view, tempos))
    {
      forall i | 0 <= i < |Merged(view)| ensures Merged(view)[i].time == 0 {
        assert InSong(view, Played(view)[i]);
        Mirrored();
        EventMirrored(Played(view)[i]);
      }
      RebuiltAtZero(before, ppqn, view);
    }

    /**
     An event computed with one ppqn is on the clock of another exactly when they are the same or it is
     at pulse 0.
     */
    lemma Rescaled(p: Pos, before: int, clock: Clock)
      requires Structure() && HasEvent(p) && before > 0 && InSync(Song(before, view, tempos))
      requires InSync(Song(ppqn, view, tempos)) && ClockedBy(lists, clock, tempos, before)
      requires forall e :: e in pool && e in clock ==> clock[e] == (e.time, e.seconds)
      ensures ClockAt(p) <==> ppqn == before || EventAt(p).time == 0
    {
      EventMirrored(p);
      assert lists[p.track][p.index] in clock;
      var t := EventAt(p).time;
      InSyncMap(Song(before, view, tempos));
      InSyncMap(Song(ppqn, view, tempos));
      SecondsIsIntegral(tempos, before, t);
      SecondsIsIntegral(tempos, ppqn, t);
      if ppqn < before {
        MoreIsEarlier(tempos, ppqn, before, t);
      } else if before < ppqn {
        MoreIsEarlier(tempos, before, ppqn, t);
      }
    }

    // ------------------------------------------------------- editing: tracks

    /** `smf_new`. */
    constructor ()
      ensures Structure() && EmptyIdle() && InSyncWithRebuild()
      ensures tracks == [] && view == [] && pool == {} && format == 0 && ppqn == 120 && tempos == [INITIAL]
    {
      format, ppqn, numberOfTracks, tracks, lastSeekPosition := 0, 120, 0, [], 0.0;
      tempos := [Tempo(0, 0.0, 500000, 4, 4, -1, -1)];
      fileBuffer, nextChunkOffset := [], -1;
      view, lists, cursors, pool := [], [], [], {};
      new;
      NothingPlayed();
    }

    /**
     `smf_add_track`.  The events of a track that was detached with its events keep the number
     n they have: unless it happens to be the new one, the song is not in order afterwards.
     */
    method AddTrack(track: SmfTrack, ghost n: int)
      requires Structure() && EmptyIdle() && track.smf == null && track.Kept(n)
      requires track.events == [] ==> track.nextEventNumber == -1
      modifies this`tracks, this`numberOfTracks, this`view, this`lists, this`pool, this`format
      modifies track`smf, track`trackNumber
      ensures tracks == old(tracks) + [track] && track.smf == this && track.trackNumber == |tracks| && track.Kept(n)
      ensures view == old(view) + [track.contents] && lists == old(lists) + [track.events]
      ensures pool == old(pool) + (set e | e in track.events) && (track.events == [] ==> pool == old(pool))
      ensures format == if |tracks| > 1 then 1 else old(format)
      ensures EmptyIdle() && (Structure() <==> track.events == [] || n == |tracks|)
      ensures old(InSyncWithRebuild()) && track.events == [] ==> InSyncWithRebuild()
      ensures Structure() && old(Workable(Song(ppqn, view, tempos))) ==> Workable(Song(ppqn, view, tempos))
    {
      hide *;
      ghost var clock := CaptureClock();
      track.KeptOwns(n);
      Enlist(track, n);
      track.KeptIff(n);
      if Structure() {
        Mirrored();
        StillWorkable(old(Song(ppqn, view, tempos)));
      }
      if old(InSyncWithRebuild()) && track.events == [] {
        GrownInSync(old(view), old(lists), clock);
      }
    }

    /** The first track of another song, holding an event, becomes the second of this one. */
    lemma AddTrackExample()
      requires |tracks| == 2 && |tracks[1].events| == 1 && tracks[1].events[0].trackNumber == 1
      ensures !Structure()
    {
      assert tracks[1].trackNumber == 2 ==> !tracks[1].Placed(0);
      assert Structure() ==> Attached(1);
    }

    /** The body of `smf_add_track`; the song is in order if the track is. */
    method Enlist(track: SmfTrack, ghost n: int)
      requires Structure() && EmptyIdle() && track.smf == null && track.Kept(n)
      requires track.events == [] ==> track.nextEventNumber == -1
      modifies this`tracks, this`numberOfTracks, this`view, this`lists, this`pool, this`format
      modifies track`smf, track`trackNumber
      ensures tracks == old(tracks) + [track] && track.smf == this && track.trackNumber == |tracks|
      ensures view == old(view) + [track.contents] && lists == old(lists) + [track.events]
      ensures pool == old(pool) + (set e | e in track.events) && (track.events == [] ==> pool == old(pool))
      ensures format == if |tracks| > 1 then 1 else old(format)
      ensures EmptyIdle() && (Structure() <==> track.Synced())
    {
      hide *;
      Parts(track);
      track.KeptOwns(n);
      AppendTrack(track);
      view, lists, pool := view + [track.contents], lists + [track.events], pool + set e | e in track.events;
      GrownStructure(track, old(tracks));
    }

    /** The assignments of `smf_add_track`. */
    method AppendTrack(track: SmfTrack)
      requires numberOfTracks == |tracks|
      modifies this`tracks, this`numberOfTracks, this`format, track`smf, track`trackNumber
      ensures tracks == old(tracks) + [track] && numberOfTracks == |tracks|
      ensures track.smf == this && track.trackNumber == |tracks|
      ensures format == if |tracks| > 1 then 1 else old(format)
    {
      track.smf := this;
      tracks := tracks + [track];
      numberOfTracks := numberOfTracks + 1;
      track.trackNumber := numberOfTracks;
      if numberOfTracks > 1 {
        format := 1;
      }
    }

    lemma GrownInSync(v: seq<Tracks.Track>, l: seq<seq<SmfEvent>>, clock: Clock)
      requires Structure() && view == v + [[]] && lists == l + [[]]
      requires InSync(Song(ppqn, v, tempos)) && ClockedBy(l, clock, tempos, ppqn)
      requires forall e :: e in pool && e in clock ==> clock[e] == (e.time, e.seconds)
      ensures InSyncWithRebuild()
    {
      EmptyTrackNeutral(ppqn, v);
      forall p | HasEvent(p) ensures ClockAt(p) {
        EventMirrored(p);
        assert l[p.track][p.index] in clock;
      }
    }

    /** Structure taken apart; a track of no song is not among the tracks. */
    lemma Parts(track: SmfTrack)
      requires Structure() && track.smf == null
      ensures track !in tracks && ppqn > 0 && numberOfTracks == |tracks| == |view| == |lists|
      ensures forall j :: 0 <= j < |tracks| ==>
                tracks[j].Synced() && tracks[j].smf == this && tracks[j].trackNumber == j + 1
      ensures forall j :: 0 <= j < |tracks| ==> view[j] == tracks[j].contents && lists[j] == tracks[j].events
      ensures forall j, i :: 0 <= j < |tracks| && 0 <= i < |lists[j]| ==> lists[j][i] in pool
      ensures forall e :: e in pool ==> e.track != null
      ensures EmptyIdle() ==>
                forall j :: 0 <= j < |tracks| && tracks[j].events == [] ==> tracks[j].nextEventNumber == -1
    {
      forall j | 0 <= j < |tracks|
        ensures tracks[j] != track && tracks[j].Synced() && tracks[j].smf == this && tracks[j].trackNumber == j + 1
        ensures view[j] == tracks[j].contents && lists[j] == tracks[j].events
      {
        assert Attached(j);
      }
    }

    lemma GrownStructure(track: SmfTrack, before: seq<SmfTrack>)
      requires tracks == before + [track] && ppqn > 0 && numberOfTracks == |tracks| == |view| == |lists|
      requires forall j :: 0 <= j < |before| ==>
                 tracks[j].Synced() && tracks[j].smf == this && tracks[j].trackNumber == j + 1
      requires forall j :: 0 <= j < |before| ==> view[j] == tracks[j].contents && lists[j] == tracks[j].events
      requires forall j, i :: 0 <= j < |tracks| && 0 <= i < |lists[j]| ==> lists[j][i] in pool
      requires forall e :: e in pool ==> e.track != null
      requires track.smf == this && track.trackNumber == |tracks|
      requires view[|before|] == track.contents && lists[|before|] == track.events
      requires forall j :: 0 <= j < |before| && tracks[j].events == [] ==> tracks[j].nextEventNumber == -1
      requires track.events == [] ==> track.nextEventNumber == -1
      ensures EmptyIdle() && (Structure() <==> track.Synced())
    {
      if track.Synced() {
        Assemble();
      } else {
        assert Structure() ==> Attached(|before|);
      }
    }

    /** No event of one track is an event of another. */
    lemma OwnEvents(ts: seq<SmfTrack>, m: nat)
      requires Distinct(ts) && m < |ts| && forall j :: 0 <= j < |ts| ==> ts[j].Synced()
      ensures forall j :: 0 <= j < |ts| && j != m ==> ts[j] != ts[m]
      ensures forall j, i :: 0 <= j < |ts| && j != m && 0 <= i < |ts[j].events| ==> ts[j].events[i] !in ts[m].events
    {
      forall j | 0 <= j < |ts| && j != m ensures ts[j] != ts[m] {
        assert Index(ts, ts[j]) == j && Index(ts, ts[m]) == m;
      }
      forall j, i | 0 <= j < |ts| && j != m && 0 <= i < |ts[j].events| ensures ts[j].events[i] !in ts[m].events {
        assert ts[j].Placed(i);
        forall a | 0 <= a < |ts[m].events| ensures ts[m].events[a].track == ts[m] {
          assert ts[m].Placed(a);
        }
      }
    }

    /** Renumber the tracks from place `from` on. */
    method RenumberTracks(from: int)
      requires Distinct(tracks) && numberOfTracks == |tracks| && 1 <= from <= |tracks| + 1
      requires forall j :: 0 <= j < |tracks| ==> tracks[j].Synced()
      requires forall j :: 0 <= j < from - 1 ==> tracks[j].trackNumber == j + 1
      requires forall j, i :: 0 <= j < |tracks| && 0 <= i < |tracks[j].events| ==> tracks[j].events[i] in pool
      modifies tracks`trackNumber, pool`trackNumber
      ensures forall j :: 0 <= j < |tracks| ==> tracks[j].Synced() && tracks[j].trackNumber == j + 1
    {
      var i := from;
      while i <= numberOfTracks
        invariant from <= i <= numberOfTracks + 1
        invariant forall j :: 0 <= j < |tracks| ==> tracks[j].Synced()
        invariant forall j :: 0 <= j < i - 1 ==> tracks[j].trackNumber == j + 1
      {
        OwnEvents(tracks, i - 1);
        var tmp := tracks[i - 1];
        tmp.SetNumber(i);
        i := i + 1;
      }
    }

    /** What is left when a track is taken out of the array. */
    lemma Shrunk(was: seq<SmfTrack>, k: nat, v: seq<Tracks.Track>, l: seq<seq<SmfEvent>>, oldPool: set<SmfEvent>)
      requires Distinct(was) && k < |was| == |v| == |l| && tracks == RemoveAt(was, k)
      requires view == RemoveAt(v, k) && lists == RemoveAt(l, k)
      requires forall j :: 0 <= j < |was| ==> was[j].Synced() && was[j].smf == this && was[j].trackNumber == j + 1
      requires forall j :: 0 <= j < |was| ==> v[j] == was[j].contents && l[j] == was[j].events
      requires forall j, i :: 0 <= j < |was| && 0 <= i < |l[j]| ==> l[j][i] in oldPool
      requires pool == set e | e in oldPool && e !in l[k]
      ensures was[k] !in tracks && Distinct(tracks) && |tracks| == |view| == |lists| == |was| - 1
      ensures pool <= oldPool && forall j :: 0 <= j < |tracks| ==> tracks[j] == was[if j < k then j else j + 1]
      ensures forall j :: 0 <= j < |tracks| ==> tracks[j].Synced() && tracks[j].smf == this
      ensures forall j :: 0 <= j < k ==> tracks[j].trackNumber == j + 1
      ensures forall j :: 0 <= j < |tracks| ==> view[j] == tracks[j].contents && lists[j] == tracks[j].events
      ensures forall j, i :: 0 <= j < |tracks| && 0 <= i < |lists[j]| ==>
                lists[j][i] in pool && tracks[j].events[i] in pool
    {
      DistinctRemove(was, k);
      OwnEvents(was, k);
      forall j | 0 <= j < |tracks|
        ensures tracks[j] == was[if j < k then j else j + 1] && view[j] == v[if j < k then j else j + 1]
        ensures lists[j] == l[if j < k then j else j + 1]
      {
      }
    }

    lemma SamePlace(was: seq<SmfTrack>, at: nat, k: nat)
      requires Distinct(was) && at < |was| && k < |was| && was[at] == was[k]
      ensures at == k
    {
      assert Index(was, was[at]) == at && Index(was, was[k]) == k;
    }

    /** `smf_track_remove_from_smf`: the tracks after it move up one place, their events with them. */
    method RemoveTrack(track: SmfTrack, ghost k: nat)
      requires Structure() && k < |tracks| && tracks[k] == track
      modifies this`tracks, this`numberOfTracks, this`view, this`lists, this`pool
      modifies tracks`trackNumber, track`smf, pool`trackNumber
      ensures Structure() && old(k < |view| && k < |lists|)
      ensures tracks == RemoveAt(old(tracks), k) && track.smf == null && track.trackNumber == -1 && track.Kept(k + 1)
      ensures view == RemoveAt(old(view), k) && lists == RemoveAt(old(lists), k)
      ensures forall e :: e in pool <==> e in old(pool) && e !in old(lists)[k]
      ensures old(EmptyIdle()) ==> EmptyIdle()
      ensures old(Workable(Song(ppqn, view, tempos))) ==> Workable(Song(ppqn, view, tempos))
      ensures old(InSyncWithRebuild()) ==>
                (InSyncWithRebuild() <==> ValidTracks(view) && Alike(old(Merged(view)), Merged(view)))
      ensures old(InSyncWithRebuild() && Neutral(view[k])) ==> InSyncWithRebuild()
    {
      hide *;
      ghost var clock := CaptureClock();
      DetachTrack(track, k);
      StillWorkable(old(Song(ppqn, view, tempos)));
      if old(InSyncWithRebuild()) {
        TrackGone(old(Song(ppqn, view, tempos)), k, old(lists), clock);
      }
    }

    /** Map and seconds are left alone, so a workable song stays one whatever becomes of its tracks. */
    lemma StillWorkable(s: Song)
      requires Structure() && ppqn > 0 && tempos == s.tempos
      ensures Workable(s) ==> Workable(Song(ppqn, view, tempos))
    {
      ViewValid();
    }

    lemma TrackGone(s: Song, k: nat, before: seq<seq<SmfEvent>>, clock: Clock)
      requires Structure() && InSync(s) && k < |s.tracks| == |before| && ppqn == s.ppqn && tempos == s.tempos
      requires view == RemoveAt(s.tracks, k) && lists == RemoveAt(before, k)
      requires ClockedBy(before, clock, tempos, ppqn)
      requires forall e :: e in pool && e in clock ==> clock[e] == (e.time, e.seconds)
      ensures ValidTracks(s.tracks) && ValidTracks(view)
      ensures InSyncWithRebuild() <==> Alike(Merged(s.tracks), Merged(view))
      ensures Neutral(s.tracks[k]) ==> InSyncWithRebuild()
    {
      hide *;
      TrackGoneIff(s, k);
      SyncParts();
      forall p | HasEvent(p) ensures ClockAt(p) {
        StillClocked(p, k, before, clock);
      }
    }

    lemma StillClocked(p: Pos, k: nat, before: seq<seq<SmfEvent>>, clock: Clock)
      requires Structure() && HasEvent(p) && k < |before| && lists == RemoveAt(before, k)
      requires ClockedBy(before, clock, tempos, ppqn)
      requires forall e :: e in pool && e in clock ==> clock[e] == (e.time, e.seconds)
      ensures ClockAt(p)
    {
      hide SecondsAt, Lookup;
      EventMirrored(p);
      var q := Unshifted(p, k);
      assert before[q.track][q.index] == EventAt(p) && EventAt(p) in clock;
    }

    /** The body of `smf_track_remove_from_smf`. */
    method DetachTrack(track: SmfTrack, ghost k: nat)
      requires Structure() && k < |tracks| && tracks[k] == track
      modifies this`tracks, this`numberOfTracks, this`view, this`lists, this`pool
      modifies tracks`trackNumber, track`smf, pool`trackNumber
      ensures Structure() && ppqn > 0 && old(k < |view| == |lists|) && pool <= old(pool)
      ensures tracks == RemoveAt(old(tracks), k) && track.smf == null && track.trackNumber == -1 && track.Kept(k + 1)
      ensures view == RemoveAt(old(view), k) && lists == RemoveAt(old(lists), k)
      ensures forall e :: e in pool <==> e in old(pool) && e !in old(lists)[k]
      ensures old(EmptyIdle()) ==> EmptyIdle()
    {
      hide *;
      TakeTrack(track, k);
      RenumberTracks(track.trackNumber);
      track.trackNumber := -1;
      track.smf := null;
      Assemble();
      if old(EmptyIdle()) {
        MakeIdle();
      }
    }

    method TakeTrack(track: SmfTrack, ghost k: nat)
      requires Structure() && k < |tracks| && tracks[k] == track
      modifies this`tracks, this`numberOfTracks, this`view, this`lists, this`pool
      ensures ppqn > 0 && old(k < |view| == |lists|) && track.trackNumber == k + 1 <= |tracks| + 1
      ensures tracks == RemoveAt(old(tracks), k) && |tracks| + 1 == |old(tracks)|
      ensures forall j :: 0 <= j < |tracks| ==> tracks[j] == old(tracks)[if j < k then j else j + 1]
      ensures view == RemoveAt(old(view), k) && lists == RemoveAt(old(lists), k)
      ensures (forall e :: e in pool <==> e in old(pool) && e !in old(lists)[k]) && pool <= old(pool)
      ensures track !in tracks && Distinct(tracks) && numberOfTracks == |tracks| == |view| == |lists|
      ensures track.Kept(k + 1) && forall i :: 0 <= i < |track.events| ==> track.events[i] !in pool
      ensures forall j :: 0 <= j < |tracks| ==> tracks[j].Synced() && tracks[j].smf == this
      ensures forall j :: 0 <= j < k ==> tracks[j].trackNumber == j + 1
      ensures forall j :: 0 <= j < |tracks| ==> view[j] == tracks[j].contents && lists[j] == tracks[j].events
      ensures forall j, i :: 0 <= j < |tracks| && 0 <= i < |lists[j]| ==>
                lists[j][i] in pool && tracks[j].events[i] in pool
      ensures forall e :: e in pool ==> e.track != null
      ensures old(EmptyIdle()) ==>
                forall j :: 0 <= j < |tracks| && tracks[j].events == [] ==> tracks[j].nextEventNumber == -1
    {
      hide *;
      Separate(k);
      DistinctTracks();
      track.KeptIff(k + 1);
      ghost var was := tracks;
      numberOfTracks := numberOfTracks - 1;
      ghost var at;
      tracks, at := PtrArrayRemove(tracks, track);
      SamePlace(was, at, k);
      view, lists := RemoveAt(view, k), RemoveAt(lists, k);
      pool := set e | e in pool && e !in old(lists)[k];
      Shrunk(was, k, old(view), old(lists), old(pool));
    }
  }
}
