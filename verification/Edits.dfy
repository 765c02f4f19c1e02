/**
 Whole histories of a song: over any sequence of adds and removals the tempo map stays in
 order and within the song, whether or not it is still the one a rebuild would give.
 */
module Edits {
  import opened Bytes
  import opened Playback
  import opened Tracks
  import opened TempoMap
  import opened TempoBuild
  import opened Incremental
  import opened Removal
  import opened TempoSettings

  /** Every entry but the first stands where an event of the song changes something. */
  ghost predicate Backed(m: Map, tracks: seq<Track>) {
    forall i :: 0 <= i < |m| && m[i].pulses != 0 ==> !Alone(tracks, m[i].pulses)
  }

  /** The map, unless it has become empty, is chained and its entries are backed. */
  ghost predicate Orderly(s: Song) {
    Workable(s) && (s.tempos != [] ==> ValidMap(s.tempos, s.ppqn) && Backed(s.tempos, s.tracks))
  }

  /** An orderly map stops within the song. */
  lemma OrderlyReached(s: Song)
    requires Orderly(s) && s.tempos != []
    ensures Reached(s.tempos, s.ppqn, Length(s.tracks))
  {
    var p := Last(s.tempos).pulses;
    if p != 0 {
      var t, i :| 0 <= t < |s.tracks| && 0 <= i < |s.tracks[t]| && s.tracks[t][i].time == p;
      WithinLength(s.tracks, t, i);
    }
  }

  lemma RebuiltOrderly(ppqn: int, tracks: seq<Track>)
    requires ppqn > 0 && ValidTracks(tracks)
    ensures Orderly(Song(ppqn, tracks, Rebuilt(ppqn, tracks)))
  {
    hide Alone, OthersAt;
    var m := Rebuilt(ppqn, tracks);
    RebuiltReached(ppqn, tracks, Length(tracks));
    RebuiltIs(ppqn, tracks);
    BuildDescribes(ppqn, Merged(tracks));
    forall i | 0 <= i < |m| && m[i].pulses != 0 ensures !Alone(tracks, m[i].pulses) {
      assert HasEntry(m, m[i].pulses);
      AloneMerged(tracks, m[i].pulses);
    }
  }

  // ------------------------------------------------------------------- adding

  lemma AddMembers(t: Track, e: Ev)
    ensures forall x :: x in t && ChangeOf(x.bytes) != NoChange ==> x in Add(t, e)
    ensures e in Add(t, e)
  {
    var d := DropEot(t, e.time);
    var slot := Slot(d, e.time);
    forall x | x in t && ChangeOf(x.bytes) != NoChange ensures x in Add(t, e) {
      var i :| 0 <= i < |t| && t[i] == x;
      assert i < |d| && d[i] == x;
      assert Add(t, e)[if i < slot then i else i + 1] == x;
    }
    assert Add(t, e)[slot] == e;
  }

  lemma NotAlone(tracks: seq<Track>, t: nat, x: Ev)
    requires t < |tracks| && x in tracks[t] && ChangeOf(x.bytes) != NoChange
    ensures !Alone(tracks, x.time)
  {
  }

  /** Adding takes no change away, and brings its own. */
  lemma AddKeepsChanges(tracks: seq<Track>, k: nat, e: Ev, p: int)
    requires k < |tracks| && ValidTracks(tracks) && e.time >= 0
    ensures !Alone(tracks, p) ==> !Alone(AfterAdd(tracks, k, e), p)
    ensures ChangeOf(e.bytes) != NoChange ==> !Alone(AfterAdd(tracks, k, e), e.time)
  {
    hide Add, ChangeOf;
    var w := AfterAdd(tracks, k, e);
    AddMembers(tracks[k], e);
    if !Alone(tracks, p) {
      var t, i :| 0 <= t < |tracks| && 0 <= i < |tracks[t]| && tracks[t][i].time == p
                  && ChangeOf(tracks[t][i].bytes) != NoChange;
      assert tracks[t][i] in tracks[t];
      NotAlone(w, t, tracks[t][i]);
    }
    if ChangeOf(e.bytes) != NoChange {
      NotAlone(w, k, e);
    }
  }

  /** A step makes no entry but one at its own pulse. */
  lemma StepEntries(m: Map, ppqn: int, p: int, c: Change, i: nat)
    requires ppqn > 0 && m != [] && p >= 0 && m[0].pulses == 0 && i < |Step(m, ppqn, p, c)|
    ensures var r := Step(m, ppqn, p, c);
            || (i < |m| && r[i].pulses == m[i].pulses)
            || (c != NoChange && r[i].pulses == p)
  {
  }

  lemma ShortcutBacked(m: Map, ppqn: int, tracks: seq<Track>, k: nat, e: Ev)
    requires ppqn > 0 && m != [] && m[0].pulses == 0 && k < |tracks| && ValidTracks(tracks) && e.time >= 0
    requires Backed(m, tracks)
    ensures Backed(Step(m, ppqn, e.time, ChangeOf(e.bytes)), AfterAdd(tracks, k, e))
  {
    hide Alone, AfterAdd, Step;
    var r := Step(m, ppqn, e.time, ChangeOf(e.bytes));
    forall i | 0 <= i < |r| && r[i].pulses != 0 ensures !Alone(AfterAdd(tracks, k, e), r[i].pulses) {
      StepEntries(m, ppqn, e.time, ChangeOf(e.bytes), i);
      AddKeepsChanges(tracks, k, e, r[i].pulses);
    }
  }

  lemma AddOrderly(s: Song, k: nat, e: Ev)
    requires Orderly(s) && k < |s.tracks| && e.time >= 0 && !StartsLate(s, k, e)
    ensures Orderly(AddStep(s, k, e))
  {
    hide Alone, AfterAdd, Rebuilt, Step;
    var w, c := AfterAdd(s.tracks, k, e), ChangeOf(e.bytes);
    if !IsTempoOrSignature(e.bytes) {
      forall i | 0 <= i < |s.tempos| && s.tempos[i].pulses != 0 ensures !Alone(w, s.tempos[i].pulses) {
        AddKeepsChanges(s.tracks, k, e, s.tempos[i].pulses);
      }
    } else if Length(w) <= e.time {
      if s.tempos != [] {
        OrderlyReached(s);
        LengthBeforeAdd(s.tracks, k, e);
        StepReached(s.tempos, s.ppqn, e.time, c);
        ShortcutBacked(s.tempos, s.ppqn, s.tracks, k, e);
      } else if c != NoChange {
        InitialTicks();
        StepReached([INITIAL], s.ppqn, 0, c);
        ShortcutBacked([INITIAL], s.ppqn, s.tracks, k, e);
      }
    } else {
      RebuiltOrderly(s.ppqn, w);
    }
  }

  // ----------------------------------------------------------------- removing

  lemma RemoveKeepsChanges(tracks: seq<Track>, k: nat, i: nat, p: int)
    requires k < |tracks| && i < |tracks[k]| && ValidTracks(tracks) && !Alone(tracks, p)
    requires tracks[k][i].time != p || ChangeOf(tracks[k][i].bytes) == NoChange
    ensures !Alone(AfterRemove(tracks, k, i), p)
  {
    var w := AfterRemove(tracks, k, i);
    var t, j :| 0 <= t < |tracks| && 0 <= j < |tracks[t]| && tracks[t][j].time == p
                && ChangeOf(tracks[t][j].bytes) != NoChange;
    if t == k {
      assert w[k][if j < i then j else j - 1] == tracks[k][j];
    } else {
      assert w[t][j] == tracks[t][j];
    }
  }

  lemma WithoutTicks(m: Map, p: int)
    requires Ticking(m)
    ensures WithoutLastTempo(m, p) != [] ==> Ticking(WithoutLastTempo(m, p))
  {
  }

  lemma WithoutValid(m: Map, ppqn: int, p: int)
    requires ppqn > 0 && Reached(m, ppqn, p) && WithoutLastTempo(m, p) != []
    ensures ValidMap(WithoutLastTempo(m, p), ppqn)
    ensures forall i :: 0 <= i < |WithoutLastTempo(m, p)| ==>
              i < |m| && WithoutLastTempo(m, p)[i] == m[i] && m[i].pulses < p
  {
    var r := WithoutLastTempo(m, p);
    forall i | 0 <= i < |r| - 1 ensures Link(r, ppqn, i) {
      assert Link(m, ppqn, i);
    }
    forall i | 0 <= i < |r| ensures m[i].pulses < p {
      Increasing(m, ppqn, i, |m| - 1);
    }
  }

  /** What a removal leaves: an orderly song stays one, or loses its map altogether. */
  lemma RemoveOrderly(s: Song, k: nat, i: nat)
    requires Orderly(s) && k < |s.tracks| && i < |s.tracks[k]|
    ensures var w := AfterRemove(s.tracks, k, i);
            Orderly(Song(s.ppqn, w, TemposWithout(s.ppqn, s.tempos, s.tracks, w, s.tracks[k][i])))
  {
    hide Alone, AfterRemove, Rebuilt;
    var w, e := AfterRemove(s.tracks, k, i), s.tracks[k][i];
    var m := TemposWithout(s.ppqn, s.tempos, s.tracks, w, e);
    if IsTempoOrSignature(e.bytes) && Length(s.tracks) > e.time {
      RebuiltOrderly(s.ppqn, w);
    } else if m != [] {
      if IsTempoOrSignature(e.bytes) {
        OrderlyReached(s);
        WithoutTicks(s.tempos, e.time);
        WithoutValid(s.tempos, s.ppqn, e.time);
      }
      forall j | 0 <= j < |m| && m[j].pulses != 0 ensures !Alone(w, m[j].pulses) {
        RemoveKeepsChanges(s.tracks, k, i, m[j].pulses);
      }
    }
  }

  lemma RemoveWorkable(s: Song, k: nat, i: nat)
    requires Workable(s) && k < |s.tracks| && i < |s.tracks[k]|
    ensures var w := AfterRemove(s.tracks, k, i);
            Workable(Song(s.ppqn, w, TemposWithout(s.ppqn, s.tempos, s.tracks, w, s.tracks[k][i])))
  {
    hide AfterRemove, Rebuilt, Ticking;
    if s.tempos != [] {
      WithoutTicks(s.tempos, s.tracks[k][i].time);
    }
  }

  // --------------------------------------------------------------- whole runs

  datatype Edit = AddEdit(track: nat, event: Ev) | RemoveEdit(track: nat, index: nat)

  /** The call meets the assertions of the source. */
  ghost predicate Doable(s: Song, x: Edit)
    requires Workable(s)
  {
    match x
    case AddEdit(k, e) => k < |s.tracks| && e.time >= 0 && !StartsLate(s, k, e)
    case RemoveEdit(k, i) => k < |s.tracks| && i < |s.tracks[k]|
  }

  ghost function Do(s: Song, x: Edit): (r: Song)
    requires Workable(s) && Doable(s, x)
    ensures Workable(r)
  {
    match x
    case AddEdit(k, e) => AddStep(s, k, e)
    case RemoveEdit(k, i) =>
      RemoveWorkable(s, k, i);
      var w := AfterRemove(s.tracks, k, i);
      Song(s.ppqn, w, TemposWithout(s.ppqn, s.tempos, s.tracks, w, s.tracks[k][i]))
  }

  /** Every song on the way, each edit done to the one before. */
  ghost predicate History(songs: seq<Song>, edits: seq<Edit>) {
    && |songs| == |edits| + 1
    && forall n :: 0 <= n < |edits| ==>
        Workable(songs[n]) && Doable(songs[n], edits[n]) && songs[n + 1] == Do(songs[n], edits[n])
  }

  /**
   Over any history of adds and removals that starts from a song in sync with a rebuild, or any
   orderly one, the map of every song on the way is empty, or chained, backed and within the song.
   */
  lemma {:induction false} HistoryOrderly(songs: seq<Song>, edits: seq<Edit>, n: nat)
    requires History(songs, edits) && Orderly(songs[0]) && n < |songs|
    ensures Orderly(songs[n])
    ensures songs[n].tempos != [] ==> Reached(songs[n].tempos, songs[n].ppqn, Length(songs[n].tracks))
  {
    hide Orderly;
    if n > 0 {
      HistoryOrderly(songs, edits, n - 1);
      var s := songs[n - 1];
      match edits[n - 1]
      case AddEdit(k, e) => AddOrderly(s, k, e);
      case RemoveEdit(k, i) => RemoveOrderly(s, k, i);
    }
    if songs[n].tempos != [] {
      OrderlyReached(songs[n]);
    }
  }

  lemma InSyncOrderly(s: Song)
    requires InSync(s)
    ensures Orderly(s)
  {
    RebuiltOrderly(s.ppqn, s.tracks);
  }

  // ------------------------------------------------------ taking a track out

  ghost function WithoutTrack(tracks: seq<Track>, k: nat): (r: seq<Track>)
    requires k < |tracks| && ValidTracks(tracks)
    ensures ValidTracks(r) && r == RemoveAt(tracks, k)
  {
    RemoveAt(tracks, k)
  }

  /** The track changes neither tempo nor signature. */
  ghost predicate Neutral(t: Track) {
    forall i :: 0 <= i < |t| ==> ChangeOf(t[i].bytes) == NoChange
  }

  /** Where a place behind track k was before the tracks moved up. */
  function Unshifted(q: Pos, k: nat): Pos {
    if q.track < k then q else Pos(q.track + 1, q.index)
  }

  function Shifted(p: Pos, k: nat): (q: Pos)
    requires p.track != k
    ensures Unshifted(q, k) == p
  {
    if p.track < k then p else Pos(p.track - 1, p.index)
  }

  /** The playback order without the events of track k. */
  function Keep(ps: seq<Pos>, k: nat): seq<Pos> {
    if ps == [] then []
    else
      var p, init := ps[|ps| - 1], Keep(ps[..|ps| - 1], k);
      if p.track == k then init else init + [Shifted(p, k)]
  }

  lemma ShiftedAt(tracks: seq<Track>, k: nat, q: Pos)
    requires k < |tracks| && ValidTracks(tracks)
    ensures var w := WithoutTrack(tracks, k);
            && (InSong(w, q) <==> InSong(tracks, Unshifted(q, k)))
            && (InSong(w, q) ==> At(w, q) == At(tracks, Unshifted(q, k)))
            && (Exists(SongTimes(w), q) <==> InSong(w, q))
            && (Exists(SongTimes(w), q) ==> TimeAt(SongTimes(w), q) == At(w, q).time)
  {
  }

  lemma {:induction false} KeepMembers(ps: seq<Pos>, k: nat)
    ensures forall q :: q in Keep(ps, k) <==> Unshifted(q, k) in ps
  {
    if ps != [] {
      var p, init := ps[|ps| - 1], ps[..|ps| - 1];
      KeepMembers(init, k);
      assert ps == init + [p];
    }
  }

  lemma {:induction false} KeepOrdered(tracks: seq<Track>, k: nat, ps: seq<Pos>)
    requires k < |tracks| && ValidTracks(tracks) && StrictlyOrdered(SongTimes(tracks), ps)
    ensures StrictlyOrdered(SongTimes(WithoutTrack(tracks, k)), Keep(ps, k))
  {
    if ps != [] {
      var p, init := ps[|ps| - 1], ps[..|ps| - 1];
      assert forall i :: 0 <= i < |init| ==> init[i] == ps[i];
      KeepOrdered(tracks, k, init);
      if p.track != k {
        OneMoreKept(tracks, k, init, p, ps);
      }
    }
  }

  lemma OneMoreKept(tracks: seq<Track>, k: nat, init: seq<Pos>, p: Pos, ps: seq<Pos>)
    requires k < |tracks| && ValidTracks(tracks) && p.track != k && ps == init + [p]
    requires StrictlyOrdered(SongTimes(tracks), ps)
    requires StrictlyOrdered(SongTimes(WithoutTrack(tracks, k)), Keep(init, k))
    ensures StrictlyOrdered(SongTimes(WithoutTrack(tracks, k)), Keep(init, k) + [Shifted(p, k)])
  {
    hide SongTimes, WithoutTrack, Keep;
    var times, times', kept, q := SongTimes(tracks), SongTimes(WithoutTrack(tracks, k)), Keep(init, k), Shifted(p, k);
    assert ps[|init|] == p && p in ps;
    assert Exists(times, p);
    ShiftedAt(tracks, k, q);
    KeepMembers(init, k);
    forall i | 0 <= i < |kept| ensures Exists(times', kept[i]) && Before(times', kept[i], q) {
      ShiftedAt(tracks, k, kept[i]);
      assert kept[i] in kept;
      var a :| 0 <= a < |init| && init[a] == Unshifted(kept[i], k);
      assert ps[a] == init[a] && Before(times, ps[a], ps[|init|]);
    }
  }

  lemma PlayedWithout(tracks: seq<Track>, k: nat)
    requires k < |tracks| && ValidTracks(tracks)
    ensures Played(WithoutTrack(tracks, k)) == Keep(Played(tracks), k)
  {
    hide Played, SongTimes, WithoutTrack, Keep;
    var w, ps := WithoutTrack(tracks, k), Played(tracks);
    KeepOrdered(tracks, k, ps);
    KeepMembers(ps, k);
    forall q ensures q in Played(w) <==> q in Keep(ps, k) {
      ShiftedAt(tracks, k, q);
    }
    OrderedUnique(SongTimes(w), Played(w), Keep(ps, k));
  }

  lemma KeptInSong(tracks: seq<Track>, k: nat, ps: seq<Pos>)
    requires k < |tracks| && ValidTracks(tracks) && forall x :: x in ps ==> InSong(tracks, x)
    ensures forall q :: q in Keep(ps, k) ==> InSong(WithoutTrack(tracks, k), q)
  {
    hide WithoutTrack, Keep;
    KeepMembers(ps, k);
    forall q | q in Keep(ps, k) ensures InSong(WithoutTrack(tracks, k), q) {
      ShiftedAt(tracks, k, q);
    }
  }

  lemma EventsSnoc(tracks: seq<Track>, ps: seq<Pos>, p: Pos)
    requires (forall x :: x in ps ==> InSong(tracks, x)) && InSong(tracks, p)
    ensures EventsAt(tracks, ps + [p]) == EventsAt(tracks, ps) + [At(tracks, p)]
  {
  }

  lemma {:induction false} KeepSettings(tracks: seq<Track>, k: nat, ps: seq<Pos>, p: int)
    requires k < |tracks| && ValidTracks(tracks) && Neutral(tracks[k]) && forall x :: x in ps ==> InSong(tracks, x)
    ensures forall q :: q in Keep(ps, k) ==> InSong(WithoutTrack(tracks, k), q)
    ensures Settings(EventsAt(WithoutTrack(tracks, k), Keep(ps, k)), p) == Settings(EventsAt(tracks, ps), p)
    decreases |ps|
  {
    hide WithoutTrack, Settings;
    var w := WithoutTrack(tracks, k);
    KeptInSong(tracks, k, ps);
    if ps == [] {
      assert EventsAt(w, Keep(ps, k)) == EventsAt(tracks, ps);
    } else {
      var last, init := ps[|ps| - 1], ps[..|ps| - 1];
      assert ps == init + [last] && last in ps;
      KeepSettings(tracks, k, init, p);
      EventsSnoc(tracks, init, last);
      Snoc(EventsAt(tracks, init), At(tracks, last));
      if last.track != k {
        ShiftedAt(tracks, k, Shifted(last, k));
        EventsSnoc(w, Keep(init, k), Shifted(last, k));
        Snoc(EventsAt(w, Keep(init, k)), At(w, Shifted(last, k)));
      }
    }
  }

  /** A track that changes nothing leaves no trace in what a rebuild gives. */
  lemma NeutralTrack(tracks: seq<Track>, k: nat)
    requires k < |tracks| && ValidTracks(tracks) && Neutral(tracks[k])
    ensures Alike(Merged(tracks), Merged(WithoutTrack(tracks, k)))
  {
    var w := WithoutTrack(tracks, k);
    PlayedWithout(tracks, k);
    forall p | p > 0 ensures OthersAt(Merged(tracks), p) <==> OthersAt(Merged(w), p) {
      AloneMerged(tracks, p);
      AloneMerged(w, p);
      AloneWithout(tracks, k, p);
    }
    forall p | p >= 0 ensures Settings(Merged(tracks), p) == Settings(Merged(w), p) {
      KeepSettings(tracks, k, Played(tracks), p);
    }
  }

  lemma AloneWithout(tracks: seq<Track>, k: nat, p: int)
    requires k < |tracks| && ValidTracks(tracks) && Neutral(tracks[k])
    ensures Alone(tracks, p) <==> Alone(WithoutTrack(tracks, k), p)
  {
    var w := WithoutTrack(tracks, k);
    forall t | 0 <= t < |tracks| && t != k ensures tracks[t] == w[if t < k then t else t - 1] {
    }
    forall t | 0 <= t < |w| ensures w[t] == tracks[if t < k then t else t + 1] {
    }
  }

  /**
   The map of a song in sync with a rebuild, kept as it is when a track goes: it is still that
   of a rebuild exactly when what is left changes tempo and signature at the same pulses and to
   the same effect.
   */
  lemma TrackGoneIff(s: Song, k: nat)
    requires InSync(s) && k < |s.tracks|
    ensures ValidTracks(s.tracks)
    ensures var w := WithoutTrack(s.tracks, k);
            InSync(Song(s.ppqn, w, s.tempos)) <==> Alike(Merged(s.tracks), Merged(w))
    ensures Neutral(s.tracks[k]) ==> InSync(Song(s.ppqn, WithoutTrack(s.tracks, k), s.tempos))
  {
    hide Alike, Build, Merged, Played;
    var w := WithoutTrack(s.tracks, k);
    RebuiltIs(s.ppqn, s.tracks);
    RebuiltIs(s.ppqn, w);
    SameMapIff(s.ppqn, Merged(s.tracks), Merged(w));
    if Neutral(s.tracks[k]) {
      NeutralTrack(s.tracks, k);
    }
  }

  /** A change appended at the end of the song leaves a map in order exactly when no entry is later than it. */
  lemma AppendValidIff(s: Song, k: nat, e: Ev)
    requires Sound(s) && ValidMap(s.tempos, s.ppqn) && k < |s.tracks| && e.time >= 0
    requires ChangeOf(e.bytes) != NoChange && Length(AfterAdd(s.tracks, k, e)) <= e.time
    ensures ValidMap(AddStep(s, k, e).tempos, s.ppqn) <==> Last(s.tempos).pulses <= e.time
  {
    hide AfterAdd, ChangeOf, Rebuilt;
    ChangeIsTempo(e.bytes);
    var m, c := s.tempos, ChangeOf(e.bytes);
    if Last(m).pulses <= e.time {
      StepReached(m, s.ppqn, e.time, c);
    } else {
      var r := Step(m, s.ppqn, e.time, c);
      assert r[|m| - 1] == Last(m) && r[|m|].pulses == e.time;
      assert ValidMap(r, s.ppqn) ==> Link(r, s.ppqn, |m| - 1);
    }
  }

  lemma ChangeIsTempo(m: seq<Byte>)
    ensures ChangeOf(m) != NoChange ==> IsTempoOrSignature(m)
    ensures ChangeOf(m).SetTempo? ==> ChangeOf(m).mpqn > 0
  {
  }

  const PLAIN := Ev(0, [0x90, 0x40, 0x40])
  const LATER := Ev(480, [0xFF, 0x51, 0x03, 0x00, 0x00, 0x01])

  /**
   A track with a tempo change at pulse 480 is taken out, and only a note at pulse 0 is left: the
   map goes on past the song, and a tempo added at the end of the song lands behind the later entry.
   */
  lemma TrackGoneExample(s: Song)
    requires InSync(s) && s.tracks == [[PLAIN], [LATER]]
    ensures WithoutTrack(s.tracks, 1) == [[PLAIN]] && Sound(Song(s.ppqn, [[PLAIN]], s.tempos))
    ensures !InSync(Song(s.ppqn, [[PLAIN]], s.tempos))
    ensures !Reached(s.tempos, s.ppqn, Length([[PLAIN]]))
    ensures !ValidMap(AddStep(Song(s.ppqn, [[PLAIN]], s.tempos), 0, SLOW).tempos, s.ppqn)
  {
    hide Rebuilt, Build, Merged, AddStep;
    var w := WithoutTrack(s.tracks, 1);
    assert w == [[PLAIN]] && [[PLAIN]][..0] == [];
    LateEntry(s);
    var left := Song(s.ppqn, w, s.tempos);
    if InSync(left) {
      InSyncOrderly(left);
      OrderlyReached(left);
    }
    AfterPlain(w);
    AppendValidIff(left, 0, SLOW);
  }

  lemma LateEntry(s: Song)
    requires InSync(s) && s.tracks == [[PLAIN], [LATER]]
    ensures s.ppqn > 0 && ValidMap(s.tempos, s.ppqn) && Last(s.tempos).pulses >= 480
  {
    hide Build, Merged;
    InSyncMap(s);
    RebuiltIs(s.ppqn, s.tracks);
    BuildDescribes(s.ppqn, Merged(s.tracks));
    assert LATER in s.tracks[1];
    NotAlone(s.tracks, 1, LATER);
    AloneMerged(s.tracks, 480);
    assert HasEntry(s.tempos, 480);
    var i :| 0 <= i < |s.tempos| && s.tempos[i].pulses == 480;
    Increasing(s.tempos, s.ppqn, i, |s.tempos| - 1);
  }

  lemma AfterPlain(w: seq<Track>)
    requires w == [[PLAIN]] && ValidTracks(w)
    ensures SLOW.time == 0 && ChangeOf(SLOW.bytes) != NoChange && Length(AfterAdd(w, 0, SLOW)) <= 0
  {
    assert DropEot([PLAIN], 0) == [PLAIN];
    assert Add([PLAIN], SLOW) == [PLAIN, SLOW];
    assert AfterAdd(w, 0, SLOW) == [[PLAIN, SLOW]];
    assert [[PLAIN, SLOW]][..0] == [];
  }
}
