/**
 Adding events one by one keeps the tempo map equal to the one a rebuild from
 scratch would give, although a tempo-related event added at the end of the song
 takes a shortcut instead of a rebuild.
 */
module Incremental {
  import opened Playback
  import opened Tracks
  import opened TempoMap
  import opened TempoBuild

  datatype Song = Song(ppqn: int, tracks: seq<Track>, tempos: Map)

  ghost predicate Sound(s: Song) {
    s.ppqn > 0 && ValidTracks(s.tracks) && Ticking(s.tempos)
  }

  /** Sound, or without any tempo: what a song is left with when its only tempo event is removed. */
  ghost predicate Workable(s: Song) {
    s.ppqn > 0 && ValidTracks(s.tracks) && (s.tempos != [] ==> Ticking(s.tempos))
  }

  ghost function Rebuilt(ppqn: int, tracks: seq<Track>): (m: Map)
    requires ppqn > 0 && ValidTracks(tracks)
    ensures Ticking(m)
  {
    MergedSorted(tracks);
    BuildTicks(ppqn, Merged(tracks));
    Build(ppqn, Merged(tracks))
  }

  /** The map is the one a rebuild would give. */
  ghost predicate InSync(s: Song) {
    Sound(s) && s.tempos == Rebuilt(s.ppqn, s.tracks)
  }

  /** `smf_get_length_pulses`. */
  function Length(tracks: seq<Track>): (r: int)
    ensures r >= 0
    ensures forall k :: 0 <= k < |tracks| ==> LastTime(tracks[k]) <= r
    ensures r == 0 || exists k :: 0 <= k < |tracks| && LastTime(tracks[k]) == r
  {
    if tracks == [] then 0
    else
      var r := Length(tracks[..|tracks| - 1]);
      var l := LastTime(tracks[|tracks| - 1]);
      if l > r then l else r
  }

  ghost function AfterAdd(tracks: seq<Track>, k: nat, e: Ev): (r: seq<Track>)
    requires k < |tracks| && ValidTracks(tracks) && e.time >= 0
    ensures |r| == |tracks| && ValidTracks(r)
  {
    AddValid(tracks[k], e);
    tracks[k := Add(tracks[k], e)]
  }

  /** What `smf_track_add_event` does to the tracks and the tempo map. */
  ghost function AddStep(s: Song, k: nat, e: Ev): (r: Song)
    requires Workable(s) && k < |s.tracks| && e.time >= 0
    ensures Workable(r) && (Sound(s) ==> Sound(r))
  {
    var tracks := AfterAdd(s.tracks, k, e);
    if !IsTempoOrSignature(e.bytes) then Song(s.ppqn, tracks, s.tempos)
    else if Length(tracks) <= e.time then
      ExtendTicks(s.tempos, s.ppqn, e.time, ChangeOf(e.bytes));
      Song(s.ppqn, tracks, Extend(s.tempos, s.ppqn, e.time, ChangeOf(e.bytes)))
    else Song(s.ppqn, tracks, Rebuilt(s.ppqn, tracks))
  }

  /** The event would be the first of the map but is not at pulse 0: the assertion in `seconds_from_pulses` fails. */
  ghost predicate StartsLate(s: Song, k: nat, e: Ev)
    requires Workable(s) && k < |s.tracks| && e.time >= 0
  {
    s.tempos == [] && ChangeOf(e.bytes) != NoChange && Length(AfterAdd(s.tracks, k, e)) <= e.time && e.time > 0
  }

  lemma SoundParts(s: Song)
    requires Sound(s)
    ensures s.ppqn > 0 && ValidTracks(s.tracks) && Ticking(s.tempos) && s.tempos != [] && s.tempos[0].pulses == 0
  {
  }

  lemma WorkableSound(s: Song)
    ensures Sound(s) <==> Workable(s) && s.tempos != []
  {
  }

  lemma SoundNeverLate(s: Song, k: nat, e: Ev)
    requires Sound(s) && k < |s.tracks| && e.time >= 0
    ensures Workable(s) && !StartsLate(s, k, e)
  {
  }

  // ------------------------------------------------------------------- lemmas

  lemma FoldInsert(m: Map, ppqn: int, es: seq<Ev>, j: nat, e: Ev)
    requires ppqn > 0 && m != [] && m[0].pulses == 0 && e.time >= 0 && j <= |es|
    requires forall i :: 0 <= i < |es| ==> es[i].time >= 0
    ensures Fold(m, ppqn, es) == Fold(Fold(m, ppqn, es[..j]), ppqn, es[j..])
    ensures Fold(m, ppqn, InsertAt(es, j, e)) == Fold(Fold(m, ppqn, es[..j]), ppqn, [e] + es[j..])
  {
    assert es == es[..j] + es[j..];
    FoldConcat(m, ppqn, es[..j], es[j..]);
    assert InsertAt(es, j, e) == es[..j] + ([e] + es[j..]);
    FoldConcat(m, ppqn, es[..j], [e] + es[j..]);
  }

  /** An event that is no tempo and no signature leaves the rebuilt map alone, wherever it goes. */
  lemma NeutralInsert(ppqn: int, tracks: seq<Track>, k: nat, slot: nat, e: Ev)
    requires ppqn > 0 && k < |tracks| && slot <= |tracks[k]| && ChangeOf(e.bytes) == NoChange && e.time >= 0
    requires ValidTracks(tracks) && ValidTracks(Enlarged(tracks, k, slot, e))
    ensures Rebuilt(ppqn, Enlarged(tracks, k, slot, e)) == Rebuilt(ppqn, tracks)
  {
    hide Valid, Enlarged, InsertAt, ChangeOf;
    var j := MergeInsert(tracks, k, slot, e);
    var es := Merged(tracks);
    MergedSorted(tracks);
    FoldInsert([INITIAL], ppqn, es, j, e);
    FoldConcat(Fold([INITIAL], ppqn, es[..j]), ppqn, [e], es[j..]);
    FoldOne(Fold([INITIAL], ppqn, es[..j]), ppqn, e);
  }

  /** The tracks after a displaced End Of Track has gone and before the new event comes. */
  ghost function Cleared(tracks: seq<Track>, k: nat, p: int): (r: seq<Track>)
    requires k < |tracks| && ValidTracks(tracks)
    ensures |r| == |tracks| && ValidTracks(r)
  {
    DropEotValid(tracks[k], p);
    tracks[k := DropEot(tracks[k], p)]
  }

  lemma ClearedRebuilt(ppqn: int, tracks: seq<Track>, k: nat, p: int)
    requires ppqn > 0 && k < |tracks| && ValidTracks(tracks)
    ensures Rebuilt(ppqn, Cleared(tracks, k, p)) == Rebuilt(ppqn, tracks)
  {
    var t := tracks[k];
    var d := Cleared(tracks, k, p);
    if DropEot(t, p) == t {
      assert d == tracks;
    } else {
      var eot := t[|t| - 1];
      assert InsertAt(d[k], |t| - 1, eot) == t;
      assert Enlarged(d, k, |t| - 1, eot) == tracks;
      assert Valid(tracks[k]);
      NeutralInsert(ppqn, d, k, |t| - 1, eot);
    }
  }

  lemma AfterAddIsEnlarged(tracks: seq<Track>, k: nat, e: Ev)
    requires k < |tracks| && ValidTracks(tracks) && e.time >= 0
    ensures var d := Cleared(tracks, k, e.time);
            AfterAdd(tracks, k, e) == Enlarged(d, k, Slot(d[k], e.time), e)
  {
  }

  /** What a rebuild plays after the event at place p. */
  ghost function PlayedAfter(tracks: seq<Track>, p: Pos): seq<Ev>
    requires ValidTracks(tracks) && InSong(tracks, p)
  {
    var ps := Played(tracks);
    var i: nat :| i < |ps| && ps[i] == p;
    Merged(tracks)[i + 1..]
  }

  /** The place of an event added at the end of the song. */
  ghost function EndPlace(tracks: seq<Track>, k: nat, e: Ev): Pos
    requires k < |tracks|
  {
    Pos(k, |DropEot(tracks[k], e.time)|)
  }

  lemma PlayedOnce(tracks: seq<Track>, i: nat, j: nat)
    requires ValidTracks(tracks) && i < |Played(tracks)| && j < |Played(tracks)|
               && Played(tracks)[i] == Played(tracks)[j]
    ensures i == j
  {
    var times, ps := SongTimes(tracks), Played(tracks);
    var a, b := if i <= j then i else j, if i <= j then j else i;
    assert a < b ==> Before(times, ps[a], ps[b]);
  }

  lemma LastAfterAdd(t: Track, e: Ev)
    requires Valid(t) && e.time >= 0
    ensures LastTime(Add(t, e)) >= LastTime(DropEot(t, e.time))
  {
    DropEotValid(t, e.time);
    SlotSplits(DropEot(t, e.time), e.time);
  }

  /** With nothing after pulse 0, no ppqn enters the map. */
  lemma RebuiltAtZero(ppqn: int, other: int, tracks: seq<Track>)
    requires ppqn > 0 && other > 0 && ValidTracks(tracks)
    requires forall i :: 0 <= i < |Merged(tracks)| ==> Merged(tracks)[i].time == 0
    ensures Rebuilt(ppqn, tracks) == Rebuilt(other, tracks)
  {
    MergedSorted(tracks);
    FoldAtEnd([INITIAL], ppqn, Merged(tracks), 0);
    FoldAtEnd([INITIAL], other, Merged(tracks), 0);
  }

  lemma WithinLength(tracks: seq<Track>, k: nat, i: nat)
    requires ValidTracks(tracks) && k < |tracks| && i < |tracks[k]|
    ensures tracks[k][i].time <= Length(tracks)
  {
    var t := tracks[k];
    assert TrackTimes(t)[i] <= TrackTimes(t)[|t| - 1] == LastTime(t);
  }

  lemma MergedWithin(tracks: seq<Track>, p: int)
    requires ValidTracks(tracks) && forall j :: 0 <= j < |tracks| ==> LastTime(tracks[j]) <= p
    ensures forall i :: 0 <= i < |Merged(tracks)| ==> Merged(tracks)[i].time <= p
  {
    forall i | 0 <= i < |Merged(tracks)| ensures Merged(tracks)[i].time <= p {
      var q := Played(tracks)[i];
      var t := tracks[q.track];
      assert TrackTimes(t)[q.index] <= TrackTimes(t)[|t| - 1] == LastTime(t);
    }
  }

  lemma AtEnd(tracks: seq<Track>, k: nat, e: Ev)
    requires k < |tracks| && ValidTracks(tracks) && e.time >= 0 && Length(AfterAdd(tracks, k, e)) <= e.time
    ensures var d := Cleared(tracks, k, e.time);
            Slot(d[k], e.time) == |d[k]| && forall i :: 0 <= i < |Merged(d)| ==> Merged(d)[i].time <= e.time
  {
    var d, tracks' := Cleared(tracks, k, e.time), AfterAdd(tracks, k, e);
    SlotSplits(d[k], e.time);
    assert LastTime(tracks'[k]) <= e.time;
    LastAfterAdd(tracks[k], e);
    forall j | 0 <= j < |d| ensures LastTime(d[j]) <= e.time {
      assert j != k ==> LastTime(d[j]) == LastTime(tracks'[j]);
    }
    MergedWithin(d, e.time);
  }

  /** Where an event later than all others lands in the playback order. */
  lemma LatestPlace(d: seq<Track>, k: nat, e: Ev) returns (j: nat)
    requires k < |d| && ValidTracks(d) && ValidTracks(Enlarged(d, k, |d[k]|, e))
    requires forall i :: 0 <= i < |Merged(d)| ==> Merged(d)[i].time <= e.time
    ensures InSong(Enlarged(d, k, |d[k]|, e), Pos(k, |d[k]|))
    ensures j <= |Merged(d)| && Merged(Enlarged(d, k, |d[k]|, e)) == InsertAt(Merged(d), j, e)
    ensures PlayedAfter(Enlarged(d, k, |d[k]|, e), Pos(k, |d[k]|)) == Merged(d)[j..]
    ensures forall i :: j <= i < |Merged(d)| ==> Merged(d)[i].time == e.time && Played(d)[i].track > k
  {
    var tracks' := Enlarged(d, k, |d[k]|, e);
    var p := Pos(k, |d[k]|);
    j := MergeInsert(d, k, |d[k]|, e);
    forall i | j <= i < |Merged(d)| ensures Merged(d)[i].time == e.time && Played(d)[i].track > k {
      assert InSong(d, Played(d)[i]);
    }
    PlayedAfterAt(tracks', p, j);
    assert InsertAt(Merged(d), j, e)[j + 1..] == Merged(d)[j..];
  }

  lemma PlayedAfterAt(tracks: seq<Track>, p: Pos, j: nat)
    requires ValidTracks(tracks) && j < |Played(tracks)| && Played(tracks)[j] == p
    ensures InSong(tracks, p) && PlayedAfter(tracks, p) == Merged(tracks)[j + 1..]
  {
    assert p in Played(tracks);
    forall i: nat | i < |Played(tracks)| && Played(tracks)[i] == p ensures i == j {
      PlayedOnce(tracks, i, j);
    }
  }

  /** Where an event appended at the end of the song lands in the playback order. */
  lemma ShortcutSplit(tracks: seq<Track>, d: seq<Track>, k: nat, e: Ev) returns (j: nat)
    requires k < |tracks| && ValidTracks(tracks) && e.time >= 0 && Length(AfterAdd(tracks, k, e)) <= e.time
    requires d == Cleared(tracks, k, e.time)
    ensures InSong(AfterAdd(tracks, k, e), EndPlace(tracks, k, e))
    ensures j <= |Merged(d)| && Merged(AfterAdd(tracks, k, e)) == InsertAt(Merged(d), j, e)
    ensures PlayedAfter(AfterAdd(tracks, k, e), EndPlace(tracks, k, e)) == Merged(d)[j..]
    ensures forall i :: j <= i < |Merged(d)| ==> Merged(d)[i].time == e.time && Played(d)[i].track > k
  {
    AtEnd(tracks, k, e);
    AfterAddIsEnlarged(tracks, k, e);
    j := LatestPlace(d, k, e);
  }

  lemma BuildShortcutIff(ppqn: int, es: seq<Ev>, j: nat, e: Ev)
    requires ppqn > 0 && e.time >= 0 && j <= |es|
    requires forall i :: 0 <= i < |es| ==> es[i].time >= 0
    requires forall i :: j <= i < |es| ==> es[i].time == e.time
    ensures var c := ChangeOf(e.bytes);
            Build(ppqn, InsertAt(es, j, e)) == Step(Build(ppqn, es), ppqn, e.time, c)
            <==> c == NoChange || LastOfKind(es[j..], c) == NoChange || LastOfKind(es[j..], c) == c
  {
    FoldInsert([INITIAL], ppqn, es, j, e);
    ShortcutIff(Fold([INITIAL], ppqn, es[..j]), ppqn, e, es[j..]);
  }

  /**
   The shortcut at the end of the song agrees with a rebuild exactly when no
   event played after the new one overrules it.
   */
  lemma {:induction false} ShortcutInSyncIff(s: Song, k: nat, e: Ev)
    requires InSync(s) && k < |s.tracks| && e.time >= 0 && IsTempoOrSignature(e.bytes)
    requires Length(AfterAdd(s.tracks, k, e)) <= e.time
    ensures InSong(AfterAdd(s.tracks, k, e), EndPlace(s.tracks, k, e))
    ensures var c, later := ChangeOf(e.bytes), PlayedAfter(AfterAdd(s.tracks, k, e), EndPlace(s.tracks, k, e));
            InSync(AddStep(s, k, e)) <==> c == NoChange || LastOfKind(later, c) == NoChange || LastOfKind(later, c) == c
  {
    var d := Cleared(s.tracks, k, e.time);
    var j := ShortcutSplit(s.tracks, d, k, e);
    MergedSorted(d);
    BuildShortcutIff(s.ppqn, Merged(d), j, e);
    ClearedRebuilt(s.ppqn, s.tracks, k, e.time);
  }

  /** No later track has an event of e's kind at e's pulse. */
  ghost predicate NoRival(tracks: seq<Track>, k: nat, e: Ev) {
    forall t, i :: k < t < |tracks| && 0 <= i < |tracks[t]| && tracks[t][i].time == e.time ==>
      !SameKind(ChangeOf(tracks[t][i].bytes), ChangeOf(e.bytes))
  }

  lemma {:induction false} NoneOfKind(es: seq<Ev>, c: Change)
    requires forall i :: 0 <= i < |es| ==> !SameKind(ChangeOf(es[i].bytes), c)
    ensures LastOfKind(es, c) == NoChange
  {
    if es != [] {
      NoneOfKind(es[..|es| - 1], c);
    }
  }

  lemma PlainAddInSync(s: Song, k: nat, e: Ev)
    requires InSync(s) && k < |s.tracks| && e.time >= 0 && !IsTempoOrSignature(e.bytes)
    ensures InSync(AddStep(s, k, e))
  {
    var d := Cleared(s.tracks, k, e.time);
    ClearedRebuilt(s.ppqn, s.tracks, k, e.time);
    AfterAddIsEnlarged(s.tracks, k, e);
    NeutralInsert(s.ppqn, d, k, Slot(d[k], e.time), e);
  }

  lemma LaterWithoutRival(tracks: seq<Track>, d: seq<Track>, k: nat, e: Ev, j: nat)
    requires k < |tracks| && ValidTracks(tracks) && NoRival(tracks, k, e)
    requires d == Cleared(tracks, k, e.time) && j <= |Merged(d)|
    requires forall i :: j <= i < |Merged(d)| ==> Merged(d)[i].time == e.time && Played(d)[i].track > k
    ensures LastOfKind(Merged(d)[j..], ChangeOf(e.bytes)) == NoChange
  {
    var later := Merged(d)[j..];
    forall i | 0 <= i < |later| ensures !SameKind(ChangeOf(later[i].bytes), ChangeOf(e.bytes)) {
      var p := Played(d)[j + i];
      assert InSong(d, p) && Merged(d)[j + i] == d[p.track][p.index] == tracks[p.track][p.index];
    }
    NoneOfKind(later, ChangeOf(e.bytes));
  }

  /** One add keeps the map equal to a rebuild, when the new event has no rival. */
  lemma {:induction false} AddInSync(s: Song, k: nat, e: Ev)
    requires InSync(s) && k < |s.tracks| && e.time >= 0
    requires NoRival(s.tracks, k, e)
    ensures InSync(AddStep(s, k, e))
  {
    if !IsTempoOrSignature(e.bytes) {
      PlainAddInSync(s, k, e);
    } else if Length(AfterAdd(s.tracks, k, e)) <= e.time {
      var d := Cleared(s.tracks, k, e.time);
      var j := ShortcutSplit(s.tracks, d, k, e);
      LaterWithoutRival(s.tracks, d, k, e, j);
      ShortcutInSyncIff(s, k, e);
    }
  }

  /** No event a rebuild plays after e overrules it; away from the end of the song there is a rebuild anyway. */
  ghost predicate Agrees(tracks: seq<Track>, k: nat, e: Ev)
    requires k < |tracks| && ValidTracks(tracks) && e.time >= 0
  {
    var after, place, c := AfterAdd(tracks, k, e), EndPlace(tracks, k, e), ChangeOf(e.bytes);
    IsTempoOrSignature(e.bytes) && Length(after) <= e.time && InSong(after, place) ==>
      var last := LastOfKind(PlayedAfter(after, place), c);
      c == NoChange || last == NoChange || last == c
  }

  /** One add keeps the map equal to a rebuild exactly when nothing overrules the event. */
  lemma {:induction false} AddInSyncIff(s: Song, k: nat, e: Ev)
    requires InSync(s) && k < |s.tracks| && e.time >= 0
    ensures InSync(AddStep(s, k, e)) <==> Agrees(s.tracks, k, e)
  {
    hide Rebuilt, PlayedAfter, LastOfKind, Step, ChangeOf, Add;
    if !IsTempoOrSignature(e.bytes) {
      PlainAddInSync(s, k, e);
    } else if Length(AfterAdd(s.tracks, k, e)) <= e.time {
      ShortcutInSyncIff(s, k, e);
    }
  }

  lemma NoRivalAgrees(s: Song, k: nat, e: Ev)
    requires InSync(s) && k < |s.tracks| && e.time >= 0 && NoRival(s.tracks, k, e)
    ensures Agrees(s.tracks, k, e)
  {
    AddInSync(s, k, e);
    AddInSyncIff(s, k, e);
  }

  lemma RebuiltReached(ppqn: int, tracks: seq<Track>, p: int)
    requires ppqn > 0 && ValidTracks(tracks) && p >= 0 && Length(tracks) <= p
    ensures Reached(Rebuilt(ppqn, tracks), ppqn, p)
  {
    MergedSorted(tracks);
    MergedWithin(tracks, p);
    BuildReached(ppqn, Merged(tracks), p);
  }

  lemma LengthBeforeAdd(tracks: seq<Track>, k: nat, e: Ev)
    requires k < |tracks| && ValidTracks(tracks) && e.time >= 0 && Length(AfterAdd(tracks, k, e)) <= e.time
    ensures Length(tracks) <= e.time
  {
    var tracks' := AfterAdd(tracks, k, e);
    LastAfterAdd(tracks[k], e);
    if Length(tracks) > 0 {
      var j :| 0 <= j < |tracks| && LastTime(tracks[j]) == Length(tracks);
      assert LastTime(tracks'[j]) <= e.time;
      if j == k && DropEot(tracks[k], e.time) != tracks[k] {
        assert LastTime(tracks[k]) <= e.time;
      }
    }
  }

  lemma LastGrows(t: Track, e: Ev)
    requires Valid(t) && e.time >= 0
    ensures LastTime(Add(t, e)) >= LastTime(t)
  {
    var d := DropEot(t, e.time);
    LastAfterAdd(t, e);
    if d != t {
      DropEotValid(t, e.time);
      if d != [] {
        assert TrackTimes(t)[|d| - 1] <= TrackTimes(t)[|t| - 1];
      }
      assert Add(t, e) == d + [e];
    }
  }

  lemma LengthGrows(tracks: seq<Track>, k: nat, e: Ev)
    requires k < |tracks| && ValidTracks(tracks) && e.time >= 0
    ensures Length(tracks) <= Length(AfterAdd(tracks, k, e))
  {
    LastGrows(tracks[k], e);
    if Length(tracks) > 0 {
      var j :| 0 <= j < |tracks| && LastTime(tracks[j]) == Length(tracks);
      assert LastTime(AfterAdd(tracks, k, e)[j]) >= LastTime(tracks[j]);
    }
  }

  /** Any add, rivals or not, leaves a well-formed map that stops within the song. */
  lemma AddReached(s: Song, k: nat, e: Ev)
    requires Sound(s) && k < |s.tracks| && e.time >= 0 && Reached(s.tempos, s.ppqn, Length(s.tracks))
    ensures Reached(AddStep(s, k, e).tempos, s.ppqn, Length(AddStep(s, k, e).tracks))
  {
    var tracks := AfterAdd(s.tracks, k, e);
    LengthGrows(s.tracks, k, e);
    if IsTempoOrSignature(e.bytes) {
      if Length(tracks) <= e.time {
        StepReached(s.tempos, s.ppqn, e.time, ChangeOf(e.bytes));
        AddedWithin(s.tracks, k, e);
      } else {
        RebuiltReached(s.ppqn, tracks, Length(tracks));
      }
    }
  }

  lemma AddedWithin(tracks: seq<Track>, k: nat, e: Ev)
    requires k < |tracks| && ValidTracks(tracks) && e.time >= 0
    ensures Length(AfterAdd(tracks, k, e)) >= e.time
  {
    var t := AfterAdd(tracks, k, e)[k];
    var d := DropEot(tracks[k], e.time);
    assert t[Slot(d, e.time)] == e;
    assert TrackTimes(t)[Slot(d, e.time)] <= TrackTimes(t)[|t| - 1];
  }

  /** Short of a rebuild, adding an event leaves the clock alone at every event of the song and at the new one. */
  lemma {:induction false} AddKeepsSeconds(s: Song, k: nat, e: Ev, q: int)
    requires InSync(s) && k < |s.tracks| && e.time >= 0 && 0 <= q
    requires !IsTempoOrSignature(e.bytes) || (Length(AfterAdd(s.tracks, k, e)) <= e.time && q <= e.time)
    ensures Lookup(s.tempos, q) >= 0 && Lookup(AddStep(s, k, e).tempos, q) >= 0
    ensures SecondsAt(AddStep(s, k, e).tempos, s.ppqn, q) == SecondsAt(s.tempos, s.ppqn, q)
  {
    if !IsTempoOrSignature(e.bytes) {
      RebuiltReached(s.ppqn, s.tracks, Length(s.tracks));
      LookupFound(s.tempos, s.ppqn, q);
    } else {
      LengthBeforeAdd(s.tracks, k, e);
      RebuiltReached(s.ppqn, s.tracks, e.time);
      StepKeepsSeconds(s.tempos, s.ppqn, e.time, ChangeOf(e.bytes), q);
    }
  }

  lemma NothingPlayed()
    ensures ValidTracks([]) && Merged([]) == []
  {
    forall p: Pos ensures p in Played([]) <==> p in [] {
      assert !InSong([], p);
    }
    OrderedUnique(SongTimes([]), Played([]), []);
  }

  lemma StillOrdered(tracks: seq<Track>, more: seq<Track>, ps: seq<Pos>)
    requires tracks <= more && StrictlyOrdered(SongTimes(tracks), ps)
    ensures StrictlyOrdered(SongTimes(more), ps)
  {
    var times, times' := SongTimes(tracks), SongTimes(more);
    forall p | p in ps ensures Exists(times', p) {
      assert Exists(times, p);
    }
    forall i, j | 0 <= i < j < |ps| ensures Before(times', ps[i], ps[j]) {
      assert ps[i] in ps && ps[j] in ps;
      assert Before(times, ps[i], ps[j]);
    }
  }

  /** A further, empty track changes nothing. */
  lemma EmptyTrackNeutral(ppqn: int, tracks: seq<Track>)
    requires ppqn > 0 && ValidTracks(tracks)
    ensures ValidTracks(tracks + [[]]) && Rebuilt(ppqn, tracks + [[]]) == Rebuilt(ppqn, tracks)
  {
    var more := tracks + [[]];
    StillOrdered(tracks, more, Played(tracks));
    OrderedUnique(SongTimes(more), Played(more), Played(tracks));
    assert Merged(more) == Merged(tracks);
  }

  // --------------------------------------------------------------- whole runs

  datatype AddOp = AddOp(track: nat, event: Ev)

  ghost function Run(s: Song, ops: seq<AddOp>): (r: Song)
    requires Sound(s) && forall i :: 0 <= i < |ops| ==> ops[i].track < |s.tracks| && ops[i].event.time >= 0
    ensures Sound(r) && |r.tracks| == |s.tracks|
  {
    if ops == [] then s
    else
      var last := ops[|ops| - 1];
      AddStep(Run(s, ops[..|ops| - 1]), last.track, last.event)
  }

  /** Each event of the run, when its turn comes, has no rival. */
  ghost predicate NoRivals(s: Song, ops: seq<AddOp>)
    requires Sound(s) && forall i :: 0 <= i < |ops| ==> ops[i].track < |s.tracks| && ops[i].event.time >= 0
  {
    ops == [] || (
      var init, last := ops[..|ops| - 1], ops[|ops| - 1];
      NoRivals(s, init) && NoRival(Run(s, init).tracks, last.track, last.event))
  }

  /** After every add of a run without rivals the map is the one a rebuild would give. */
  lemma {:induction false} RunInSync(s: Song, ops: seq<AddOp>)
    requires InSync(s) && forall i :: 0 <= i < |ops| ==> ops[i].track < |s.tracks| && ops[i].event.time >= 0
    requires NoRivals(s, ops)
    ensures InSync(Run(s, ops))
  {
    if ops != [] {
      var init, last := ops[..|ops| - 1], ops[|ops| - 1];
      RunInSync(s, init);
      AddInSync(Run(s, init), last.track, last.event);
    }
  }

  /** The map is that of a rebuild after every add of the run. */
  ghost predicate AlwaysInSync(s: Song, ops: seq<AddOp>)
    requires Sound(s) && forall i :: 0 <= i < |ops| ==> ops[i].track < |s.tracks| && ops[i].event.time >= 0
  {
    ops == [] || (AlwaysInSync(s, ops[..|ops| - 1]) && InSync(Run(s, ops)))
  }

  /** No event of the run, when its turn comes, is overruled. */
  ghost predicate AllAgree(s: Song, ops: seq<AddOp>)
    requires Sound(s) && forall i :: 0 <= i < |ops| ==> ops[i].track < |s.tracks| && ops[i].event.time >= 0
  {
    ops == [] || (
      var init, last := ops[..|ops| - 1], ops[|ops| - 1];
      AllAgree(s, init) && Agrees(Run(s, init).tracks, last.track, last.event))
  }

  /** Whole runs: the incremental map is always that of a rebuild exactly when no event is ever overruled. */
  lemma {:induction false} RunInSyncIff(s: Song, ops: seq<AddOp>)
    requires InSync(s) && forall i :: 0 <= i < |ops| ==> ops[i].track < |s.tracks| && ops[i].event.time >= 0
    ensures AlwaysInSync(s, ops) <==> AllAgree(s, ops)
    ensures AlwaysInSync(s, ops) ==> InSync(Run(s, ops))
  {
    hide InSync, Agrees, AddStep;
    InSyncSound(s);
    if ops != [] {
      var init, last := ops[..|ops| - 1], ops[|ops| - 1];
      RunInSyncIff(s, init);
      if AlwaysInSync(s, init) {
        AddInSyncIff(Run(s, init), last.track, last.event);
      }
    }
  }

  lemma InSyncSound(s: Song)
    requires InSync(s)
    ensures Sound(s)
  {
  }
}
