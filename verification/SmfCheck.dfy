/**
 The check `smf_save` ends with: load what was saved and compare.  It succeeds exactly
 on the restorable songs whose events carry, within a hundredth of a second, the times a
 rebuild of the tempo map gives them.
 */
module SmfCheck {
  import opened Bytes
  import opened Playback
  import opened Tracks
  import opened Incremental
  import opened TempoMap
  import opened SmfTracks
  import opened SmfSong
  import opened SmfFormat
  import opened SmfSave
  import opened SmfLoad

  lemma {:induction false} DeltasDetermine(a: Track, b: Track, i: nat)
    requires |a| == |b| && i < |a|
    requires forall j :: 0 <= j < |a| ==> Delta(a, j) == Delta(b, j)
    ensures a[i].time == b[i].time
  {
    if i > 0 {
      DeltasDetermine(a, b, i - 1);
      assert Delta(a, i) == Delta(b, i);
    } else {
      assert Delta(a, 0) == Delta(b, 0);
    }
  }

  predicate Near(a: int, b: int) {
    -2 <= a - b <= 2
  }

  predicate NearSeconds(a: real, b: real) {
    -0.01 <= a - b <= 0.01
  }

  /** `assert_smf_event_is_identical`. */
  predicate IdenticalEvent(a: SmfEvent, b: SmfEvent)
    reads a`eventNumber, a`delta, a`time, a`seconds, a`trackNumber
    reads b`eventNumber, b`delta, b`time, b`seconds, b`trackNumber
  {
    && a.eventNumber == b.eventNumber && a.delta == b.delta && Near(a.time, b.time) && NearSeconds(a.seconds, b.seconds)
    && a.trackNumber == b.trackNumber && |a.bytes| == |b.bytes| && a.bytes == b.bytes
  }

  /** Events in the same place of two lists have about the same time in seconds. */
  ghost predicate SameClock(a: seq<SmfEvent>, b: seq<SmfEvent>)
    reads a`seconds, b`seconds
  {
    forall i :: 0 <= i < |a| && i < |b| ==> -0.01 <= a[i].seconds - b[i].seconds <= 0.01
  }

  lemma EventKept(t: SmfTrack, i: nat)
    requires t.Synced() && i < |t.events|
    ensures |t.contents| == |t.events| == t.numberOfEvents && t.contents[i] == Ev(t.events[i].time, t.events[i].bytes)
    ensures t.events[i].delta == Delta(t.contents, i) && t.events[i].eventNumber == i + 1
              && t.events[i].trackNumber == t.trackNumber
  {
    t.ContentsValid();
    assert t.Placed(i);
  }

  lemma SameContents(a: SmfTrack, b: SmfTrack)
    requires a.Synced() && b.Synced() && a.trackNumber == b.trackNumber && |a.events| == |b.events|
    ensures a.contents == b.contents && SameClock(a.events, b.events) <==>
            forall i :: 0 <= i < |a.events| ==> IdenticalEvent(a.events[i], b.events[i])
  {
    forall i | 0 <= i < |a.events|
      ensures IdenticalEvent(a.events[i], b.events[i]) ==> Delta(a.contents, i) == Delta(b.contents, i)
      ensures IdenticalEvent(a.events[i], b.events[i]) ==> a.contents[i].bytes == b.contents[i].bytes
      ensures a.contents == b.contents && NearSeconds(a.events[i].seconds, b.events[i].seconds) ==>
                IdenticalEvent(a.events[i], b.events[i])
    {
      EventKept(a, i);
      EventKept(b, i);
    }
    a.SyncedMeans();
    b.SyncedMeans();
    if forall i :: 0 <= i < |a.events| ==> IdenticalEvent(a.events[i], b.events[i]) {
      forall i | 0 <= i < |a.contents| ensures a.contents[i] == b.contents[i] {
        DeltasDetermine(a.contents, b.contents, i);
      }
    }
  }

  /** `assert_smf_track_is_identical`. */
  method IdenticalTrack(a: SmfTrack, b: SmfTrack) returns (same: bool)
    requires a.Synced() && b.Synced() && a.trackNumber == b.trackNumber
    ensures a.Synced() && b.Synced() && (same <==> a.contents == b.contents && SameClock(a.events, b.events))
  {
    hide *;
    a.SyncedMeans();
    b.SyncedMeans();
    if a.trackNumber != b.trackNumber || a.numberOfEvents != b.numberOfEvents {
      return false;
    }
    SameContents(a, b);
    var i := 1;
    while i <= a.numberOfEvents
      invariant 1 <= i <= a.numberOfEvents + 1
      invariant forall j :: 0 <= j < i - 1 ==> IdenticalEvent(a.events[j], b.events[j])
    {
      if !IdenticalEvent(a.events[i - 1], b.events[i - 1]) {
        return false;
      }
      i := i + 1;
    }
    same := true;
  }

  /** The event's time in seconds is, within the tolerance, the one a rebuild from scratch gives its pulse. */
  ghost predicate OnTimeAt(s: Smf, p: Pos)
    requires s.HasEvent(p)
    reads s`lists, s`view, s`ppqn, s`pool, s.pool`time, s.pool`seconds
  {
    && s.EventAt(p) in s.pool && s.ppqn > 0 && ValidTracks(s.view)
    && Lookup(Rebuilt(s.ppqn, s.view), s.EventAt(p).time) >= 0
    && -0.01 <= s.EventAt(p).seconds - SecondsAt(Rebuilt(s.ppqn, s.view), s.ppqn, s.EventAt(p).time) <= 0.01
  }

  ghost predicate OnTime(s: Smf)
    reads s`lists, s`view, s`ppqn, s`pool, s.pool`time, s.pool`seconds
  {
    forall p :: s.HasEvent(p) ==> OnTimeAt(s, p)
  }

  lemma InSyncOnTime(s: Smf)
    requires s.InSyncWithRebuild()
    ensures OnTime(s)
  {
    forall p | s.HasEvent(p) ensures OnTimeAt(s, p) {
      assert s.ClockAt(p);
    }
  }

  const NOTE := Ev(0, [0x90, 0x40, 0x40])
  const END := Ev(0, [0xFF, 0x2F, 0x00])

  /**
   A note placed by its time in seconds keeps that time: 0.4 seconds is within pulse 0 when there is
   one pulse to the quarter note, so the song survives the file and still fails the check.
   */
  lemma LateExample(s: Smf)
    requires s.Structure() && s.ppqn == 1 && s.view == [[NOTE, END]]
    requires s.HasEvent(Pos(0, 0)) && s.EventAt(Pos(0, 0)).seconds == 0.4
    ensures Restorable(0, 1, s.view) && !OnTime(s)
  {
    assert RestorableTrack([NOTE, END]);
    s.EventMirrored(Pos(0, 0));
    s.ViewValid();
    if OnTime(s) {
      assert OnTimeAt(s, Pos(0, 0));
      RebuiltReached(1, s.view, Length(s.view));
    }
  }

  /** Against a song in sync with a rebuild, agreeing on the seconds is being on time. */
  lemma SameClocksIff(a: Smf, b: Smf)
    requires a.Structure() && b.Structure() && b.InSyncWithRebuild()
    requires a.view == b.view && a.ppqn == b.ppqn
    ensures |a.lists| == |b.lists|
    ensures (forall j :: 0 <= j < |a.lists| ==> SameClock(a.lists[j], b.lists[j])) <==> OnTime(a)
  {
    a.Mirrored();
    b.Mirrored();
    forall p | a.HasEvent(p)
      ensures b.HasEvent(p) && (NearSeconds(a.EventAt(p).seconds, b.EventAt(p).seconds) <==> OnTimeAt(a, p))
    {
      a.EventMirrored(p);
      b.EventMirrored(p);
      assert b.ClockAt(p);
    }
    if OnTime(a) {
      forall j, i | 0 <= j < |a.lists| && 0 <= i < |a.lists[j]| && i < |b.lists[j]|
        ensures NearSeconds(a.lists[j][i].seconds, b.lists[j][i].seconds)
      {
        assert a.HasEvent(Pos(j, i)) && OnTimeAt(a, Pos(j, i));
      }
    } else {
      var p :| a.HasEvent(p) && !OnTimeAt(a, p);
      assert !SameClock(a.lists[p.track], b.lists[p.track]);
    }
  }

  /** `assert_smf_is_identical`. */
  method IdenticalSong(a: Smf, b: Smf) returns (same: bool)
    requires a.Structure() && b.Structure()
    ensures a.Structure() && b.Structure()
    ensures a.view == b.view ==> |a.lists| == |b.lists|
    ensures same <==> a.format == b.format && a.ppqn == b.ppqn && a.view == b.view
                      && forall j :: 0 <= j < |a.lists| ==> SameClock(a.lists[j], b.lists[j])
  {
    hide *;
    a.Mirrored();
    b.Mirrored();
    if a.format != b.format || a.ppqn != b.ppqn || a.numberOfTracks != b.numberOfTracks {
      return false;
    }
    var i := 1;
    while i <= a.numberOfTracks
      invariant 1 <= i <= a.numberOfTracks + 1 && a.Structure() && b.Structure()
      invariant forall j :: 0 <= j < i - 1 ==> a.view[j] == b.view[j] && SameClock(a.lists[j], b.lists[j])
    {
      a.Separate(i - 1);
      b.Separate(i - 1);
      var equal := IdenticalTrack(a.tracks[i - 1], b.tracks[i - 1]);
      if !equal {
        return false;
      }
      i := i + 1;
    }
    same := true;
  }

  /**
   `smf_save` with `assert_smf_saved_correctly`: what is written, and whether the assertions
   hold.  They hold exactly when the song is restorable and its events are on time; a song in
   sync with a rebuild always is on time.
   */
  method SaveAndCheck(smf: Smf, beyond: nat -> Byte) returns (r: SaveOutcome, correct: bool)
    requires smf.Structure() && smf.EmptyIdle() && Workable(Song(smf.ppqn, smf.view, smf.tempos))
    requires smf.fileBuffer == [] && Clear(smf.tracks) && AllFit(smf.view)
    modifies smf`view, smf`lists, smf`pool, smf`tempos, smf`lastSeekPosition, smf`cursors, smf`fileBuffer
    modifies smf.tracks`nextEventNumber, smf.tracks`timeOfNextEvent, smf.tracks`bufferStart, smf.tracks`bufferLength
    modifies smf.tracks`events, smf.tracks`numberOfEvents, smf.tracks`contents
    modifies smf.pool`eventNumber, smf.pool`delta, smf.pool`seconds, smf.pool`track, smf.pool`time
    ensures smf.Structure() && smf.tempos == old(smf.tempos)
    ensures smf.view == Validated(smf.format, smf.ppqn, smf.tempos != [], old(smf.view))
    ensures r.Saved? <==> Verdict(smf.format, smf.ppqn, smf.tempos != [], old(smf.view)) == Accepted
    ensures r.Saved? ==> smf.format >= 0 && smf.ppqn >= 0
    ensures r.Saved? && |r.file| < 0x8000_0000 ==>
              (correct <==> Restorable(smf.format, smf.ppqn, smf.view) && OnTime(smf))
    ensures forall e :: e in smf.pool && e in old(smf.pool) ==> e.time == old(e.time) && e.seconds == old(e.seconds)
    ensures forall e :: e in smf.pool && e !in old(smf.pool) ==>
              Lookup(smf.tempos, e.time) >= 0 && e.seconds == SecondsAt(smf.tempos, smf.ppqn, e.time)
    ensures old(smf.InSyncWithRebuild()) ==> OnTime(smf)
    ensures r.Saved? && |r.file| < 0x8000_0000 && old(smf.InSyncWithRebuild()) ==>
              (correct <==> Restorable(smf.format, smf.ppqn, smf.view))
  {
    hide *;
    r := Save(smf);
    if old(smf.InSyncWithRebuild()) {
      InSyncOnTime(smf);
    }
    correct := false;
    if r.Saved? && |r.file| < 0x8000_0000 {
      var mem := Memory(r.file, beyond);
      SaveLoadIff(smf.format, smf.ppqn, smf.view, mem);
      var saved := LoadSong(mem);
      if saved.Ok? {
        if smf.view == saved.value.view && smf.ppqn == saved.value.ppqn {
          SameClocksIff(smf, saved.value);
        }
        correct := IdenticalSong(smf, saved.value);
      }
    }
  }
}
