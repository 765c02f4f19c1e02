/**
 Removing an event: what becomes of the tempo map, and exactly when it is still the one
 a rebuild would give.
 */
module Removal {
  import opened Playback
  import opened Tracks
  import opened TempoMap
  import opened TempoBuild
  import opened Incremental

  /** `remove_last_tempo_with_pulses`. */
  function WithoutLastTempo(m: Map, pulses: int): Map {
    if m == [] || m[|m| - 1].pulses != pulses then m else m[..|m| - 1]
  }

  ghost function AfterRemove(tracks: seq<Track>, k: nat, i: nat): (r: seq<Track>)
    requires k < |tracks| && i < |tracks[k]| && ValidTracks(tracks)
    ensures |r| == |tracks| && ValidTracks(r)
  {
    RemoveValid(tracks[k], i);
    tracks[k := RemoveAt(tracks[k], i)]
  }

  /** What is left of the tempo map after event e has gone from a song that was v and is now w. */
  ghost function TemposWithout(ppqn: int, m: Map, v: seq<Track>, w: seq<Track>, e: Ev): Map
    requires ppqn > 0 && ValidTracks(w)
  {
    if !IsTempoOrSignature(e.bytes) then m
    else if Length(v) <= e.time then WithoutLastTempo(m, e.time)
    else Rebuilt(ppqn, w)
  }

  lemma PutBack(tracks: seq<Track>, k: nat, i: nat)
    requires k < |tracks| && i < |tracks[k]| && ValidTracks(tracks)
    ensures Enlarged(AfterRemove(tracks, k, i), k, i, tracks[k][i]) == tracks
  {
    assert InsertAt(RemoveAt(tracks[k], i), i, tracks[k][i]) == tracks[k];
  }

  /** In a map built from events none later than p, the last entry is at p only if an event put it there. */
  lemma {:induction false} LastPulse(ppqn: int, es: seq<Ev>, p: int)
    requires ppqn > 0 && p >= 0 && Timed(es) && forall i :: 0 <= i < |es| ==> es[i].time <= p
    ensures Last(Build(ppqn, es)).pulses == p <==>
            p == 0 || exists i :: 0 <= i < |es| && es[i].time == p && ChangeOf(es[i].bytes) != NoChange
    decreases |es|
  {
    if es != [] {
      var init, e := es[..|es| - 1], es[|es| - 1];
      LastPulse(ppqn, init, p);
      assert forall i :: 0 <= i < |init| ==> init[i] == es[i];
      if ChangeOf(e.bytes) != NoChange {
        assert Last(Build(ppqn, es)).pulses == e.time;
        assert e.time < p ==> forall i :: 0 <= i < |es| ==> es[i].time < p;
      }
    }
  }

  lemma {:induction false} FoldNeutral(m: Map, ppqn: int, es: seq<Ev>)
    requires ppqn > 0 && m != [] && m[0].pulses == 0
    requires forall i :: 0 <= i < |es| ==> es[i].time >= 0 && ChangeOf(es[i].bytes) == NoChange
    ensures Fold(m, ppqn, es) == m
  {
    if es != [] {
      FoldNeutral(m, ppqn, es[..|es| - 1]);
    }
  }

  /** Dropping an entry at p leaves none at p. */
  lemma NoneAt(m: Map, ppqn: int, p: int)
    requires ppqn > 0 && ValidMap(m, ppqn)
    ensures var r := WithoutLastTempo(m, p); r == [] || Last(r).pulses != p
  {
    if |m| > 1 {
      Increasing(m, ppqn, |m| - 2, |m| - 1);
    }
  }

  ghost predicate OthersAt(es: seq<Ev>, p: int) {
    exists i :: 0 <= i < |es| && es[i].time == p && ChangeOf(es[i].bytes) != NoChange
  }

  /** The lists: es with e played at place j, all of es from j on at e's pulse. */
  lemma DropIff(ppqn: int, es: seq<Ev>, j: nat, e: Ev)
    requires ppqn > 0 && j <= |es| && e.time >= 0 && Timed(es) && Timed(InsertAt(es, j, e))
    requires forall i :: 0 <= i < |es| ==> es[i].time <= e.time
    ensures WithoutLastTempo(Build(ppqn, InsertAt(es, j, e)), e.time) == Build(ppqn, es) <==>
              e.time > 0 && !OthersAt(es, e.time)
  {
    var p, with := e.time, InsertAt(es, j, e);
    LastPulse(ppqn, es, p);
    forall i | 0 <= i < |with| ensures with[i].time <= p {
      assert with[i] == if i < j then es[i] else if i == j then e else es[i - 1];
    }
    BuildReached(ppqn, with, p);
    NoneAt(Build(ppqn, with), ppqn, p);
    if p > 0 && !OthersAt(es, p) {
      DropExact(ppqn, es, j, e);
    }
  }

  lemma DropExact(ppqn: int, es: seq<Ev>, j: nat, e: Ev)
    requires ppqn > 0 && j <= |es| && e.time > 0 && Timed(es) && Timed(InsertAt(es, j, e)) && !OthersAt(es, e.time)
    requires forall i :: 0 <= i < |es| ==> es[i].time <= e.time
    ensures WithoutLastTempo(Build(ppqn, InsertAt(es, j, e)), e.time) == Build(ppqn, es)
  {
    var p, c := e.time, ChangeOf(e.bytes);
    var front, rest := es[..j], es[j..];
    var m := Build(ppqn, front);
    forall i | 0 <= i < |rest| ensures rest[i].time == p && ChangeOf(rest[i].bytes) == NoChange {
      assert rest[i] == es[j + i] && InsertAt(es, j, e)[j + i + 1] == es[j + i] && InsertAt(es, j, e)[j] == e;
    }
    FoldInsert([INITIAL], ppqn, es, j, e);
    FoldNeutral(m, ppqn, rest);
    FoldConcat(m, ppqn, [e], rest);
    FoldOne(m, ppqn, e);
    FoldNeutral(Step(m, ppqn, p, c), ppqn, rest);
    assert forall i :: 0 <= i < |front| ==> front[i] == es[i];
    LastPulse(ppqn, front, p);
    assert Last(m).pulses != p;
    if c != NoChange {
      assert NewTempo(m, ppqn, p)[..|m|] == m;
    }
  }

  /** No other event at the pulse of the one removed changes the map. */
  ghost predicate Alone(tracks: seq<Track>, p: int) {
    forall t, i :: 0 <= t < |tracks| && 0 <= i < |tracks[t]| && tracks[t][i].time == p ==>
        ChangeOf(tracks[t][i].bytes) == NoChange
  }

  lemma AloneMerged(tracks: seq<Track>, p: int)
    requires ValidTracks(tracks)
    ensures Alone(tracks, p) <==> !OthersAt(Merged(tracks), p)
  {
    forall t, i | 0 <= t < |tracks| && 0 <= i < |tracks[t]|
      ensures exists j :: 0 <= j < |Merged(tracks)| && Merged(tracks)[j] == tracks[t][i]
    {
      assert InSong(tracks, Pos(t, i));
      var j :| 0 <= j < |Played(tracks)| && Played(tracks)[j] == Pos(t, i);
      assert Merged(tracks)[j] == tracks[t][i];
    }
    if OthersAt(Merged(tracks), p) {
      var j :| 0 <= j < |Merged(tracks)| && Merged(tracks)[j].time == p
          && ChangeOf(Merged(tracks)[j].bytes) != NoChange;
      var q := Played(tracks)[j];
      assert tracks[q.track][q.index] == Merged(tracks)[j];
    }
  }

  /** Of an event of the song: does removing it leave the map a rebuild would give? */
  ghost predicate RemovalKeeps(tracks: seq<Track>, k: nat, i: nat)
    requires k < |tracks| && i < |tracks[k]| && ValidTracks(tracks)
  {
    var e := tracks[k][i];
    IsTempoOrSignature(e.bytes) && Length(tracks) <= e.time ==> e.time > 0 && Alone(AfterRemove(tracks, k, i), e.time)
  }

  /**
   After removal the map agrees with a rebuild exactly when the event was no tempo or
   signature, or not the last of the song, or alone at a pulse other than 0.
   */
  lemma {:induction false} RemoveInSyncIff(s: Song, k: nat, i: nat)
    requires InSync(s) && k < |s.tracks| && i < |s.tracks[k]|
    ensures var w := AfterRemove(s.tracks, k, i);
            InSync(Song(s.ppqn, w, TemposWithout(s.ppqn, s.tempos, s.tracks, w, s.tracks[k][i]))) <==>
                RemovalKeeps(s.tracks, k, i)
  {
    var w, e := AfterRemove(s.tracks, k, i), s.tracks[k][i];
    PutBack(s.tracks, k, i);
    assert Valid(s.tracks[k]);
    if !IsTempoOrSignature(e.bytes) {
      NeutralInsert(s.ppqn, w, k, i, e);
    } else if Length(s.tracks) <= e.time {
      LastRemoved(s, w, k, i);
    }
  }

  lemma DropKeepsSeconds(m: Map, ppqn: int, p: int, q: int)
    requires ppqn > 0 && ValidMap(m, ppqn) && WithoutLastTempo(m, p) != [] && 0 <= q <= p
    ensures Lookup(m, q) >= 0 && Lookup(WithoutLastTempo(m, p), q) >= 0
    ensures SecondsAt(WithoutLastTempo(m, p), ppqn, q) == SecondsAt(m, ppqn, q)
  {
    LookupFound(m, ppqn, q);
    var r := WithoutLastTempo(m, p);
    if r != m {
      assert m == r + [Last(m)];
      AppendKeepsIndex(r, Last(m), q);
    }
  }

  lemma PlainIs(ppqn: int, m: Map, v: seq<Track>, w: seq<Track>, e: Ev)
    requires ppqn > 0 && ValidTracks(w)
    ensures !IsTempoOrSignature(e.bytes) ==> TemposWithout(ppqn, m, v, w, e) == m
    ensures IsTempoOrSignature(e.bytes) && Length(v) <= e.time ==>
              TemposWithout(ppqn, m, v, w, e) == WithoutLastTempo(m, e.time)
  {
  }

  /** Where the removal keeps the map that of a rebuild, it also keeps the clock at what is left. */
  lemma RemovalKeepsSeconds(s: Song, k: nat, i: nat, w: seq<Track>, q: int)
    requires InSync(s) && k < |s.tracks| && i < |s.tracks[k]| && w == AfterRemove(s.tracks, k, i)
    requires var e := s.tracks[k][i]; var m := TemposWithout(s.ppqn, s.tempos, s.tracks, w, e);
             && InSync(Song(s.ppqn, w, m)) && 0 <= q
             && (IsTempoOrSignature(e.bytes) ==> Length(s.tracks) <= e.time && q <= e.time)
    ensures var m := TemposWithout(s.ppqn, s.tempos, s.tracks, w, s.tracks[k][i]);
            && Lookup(s.tempos, q) >= 0 && Lookup(m, q) >= 0
            && SecondsAt(m, s.ppqn, q) == SecondsAt(s.tempos, s.ppqn, q)
  {
    hide *;
    var e := s.tracks[k][i];
    InSyncMap(s);
    PlainIs(s.ppqn, s.tempos, s.tracks, w, e);
    InSyncMap(Song(s.ppqn, w, TemposWithout(s.ppqn, s.tempos, s.tracks, w, e)));
    LookupFound(s.tempos, s.ppqn, q);
    if IsTempoOrSignature(e.bytes) {
      DropKeepsSeconds(s.tempos, s.ppqn, e.time, q);
    }
  }

  lemma InSyncMap(s: Song)
    requires InSync(s)
    ensures s.ppqn > 0 && ValidMap(s.tempos, s.ppqn) && s.tempos != []
  {
    RebuiltReached(s.ppqn, s.tracks, Length(s.tracks));
  }

  lemma LastRemoved(s: Song, w: seq<Track>, k: nat, i: nat)
    requires InSync(s) && k < |s.tracks| && i < |s.tracks[k]| && w == AfterRemove(s.tracks, k, i)
    requires Length(s.tracks) <= s.tracks[k][i].time
    ensures WithoutLastTempo(s.tempos, s.tracks[k][i].time) == Rebuilt(s.ppqn, w) <==>
            s.tracks[k][i].time > 0 && Alone(w, s.tracks[k][i].time)
  {
    hide *;
    var e := s.tracks[k][i];
    ValidHere(s, k, i);
    var j := PlayedWith(s.tracks, w, k, i);
    RebuiltIs(s.ppqn, s.tracks);
    RebuiltIs(s.ppqn, w);
    DropIff(s.ppqn, Merged(w), j, e);
    AloneMerged(w, e.time);
  }

  lemma ValidHere(s: Song, k: nat, i: nat)
    requires InSync(s) && k < |s.tracks| && i < |s.tracks[k]|
    ensures ValidTracks(s.tracks) && s.ppqn > 0 && s.tempos == Rebuilt(s.ppqn, s.tracks) && s.tracks[k][i].time >= 0
  {
    assert Valid(s.tracks[k]);
  }

  lemma RebuiltIs(ppqn: int, tracks: seq<Track>)
    requires ppqn > 0 && ValidTracks(tracks)
    ensures Timed(Merged(tracks)) && (forall a :: 0 <= a < |Merged(tracks)| ==> Merged(tracks)[a].time >= 0)
    ensures Rebuilt(ppqn, tracks) == Build(ppqn, Merged(tracks))
  {
    MergedSorted(tracks);
  }

  /** The playback of the song is that of what is left, with the event put in. */
  lemma PlayedWith(tracks: seq<Track>, w: seq<Track>, k: nat, i: nat) returns (j: nat)
    requires k < |tracks| && i < |tracks[k]| && ValidTracks(tracks) && w == AfterRemove(tracks, k, i)
    requires Length(tracks) <= tracks[k][i].time
    ensures ValidTracks(w) && j <= |Merged(w)| && Merged(tracks) == InsertAt(Merged(w), j, tracks[k][i])
    ensures forall a :: 0 <= a < |Merged(w)| ==> Merged(w)[a].time <= tracks[k][i].time
  {
    hide *;
    var e := tracks[k][i];
    PutBack(tracks, k, i);
    RemovedSlot(tracks, k, i);
    j := MergeInsert(w, k, i, e);
    MergedWithin(tracks, e.time);
    WithinToo(Merged(w), j, e, e.time);
  }

  lemma RemovedSlot(tracks: seq<Track>, k: nat, i: nat)
    requires k < |tracks| && i < |tracks[k]| && ValidTracks(tracks)
    ensures i <= |AfterRemove(tracks, k, i)[k]|
  {
  }

  lemma WithinToo(m: seq<Ev>, j: nat, e: Ev, p: int)
    requires j <= |m| && forall i :: 0 <= i < |InsertAt(m, j, e)| ==> InsertAt(m, j, e)[i].time <= p
    ensures forall i :: 0 <= i < |m| ==> m[i].time <= p
  {
    forall i | 0 <= i < |m| ensures m[i].time <= p {
      assert m[i] == InsertAt(m, j, e)[if i < j then i else i + 1];
    }
  }

  // ---------------------------------------------------------------- examples

  const FAST := Ev(0, [0xFF, 0x51, 0x03, 0x00, 0x00, 0x01])
  const SLOW := Ev(0, [0xFF, 0x51, 0x03, 0x00, 0x00, 0x02])

  /** Taking the only tempo change off pulse 0 also takes the initial tempo. */
  lemma RemovalExample()
    ensures var s := Song(120, [[SLOW]], Rebuilt(120, [[SLOW]]));
            InSync(s) && !RemovalKeeps(s.tracks, 0, 0)
    ensures !InSync(Song(120, [[]], TemposWithout(120, Rebuilt(120, [[SLOW]]), [[SLOW]], [[]], SLOW)))
  {
    var s := Song(120, [[SLOW]], Rebuilt(120, [[SLOW]]));
    assert AfterRemove(s.tracks, 0, 0) == [[]];
    RemoveInSyncIff(s, 0, 0);
  }

  lemma OneEventMerged(tracks: seq<Track>, e: Ev)
    requires tracks == [[], [e]] && e.time >= 0
    ensures ValidTracks(tracks) && Merged(tracks) == [e] && Played(tracks)[0] == Pos(1, 0)
  {
    var ps := Played(tracks);
    assert InSong(tracks, Pos(1, 0));
    forall i | 0 <= i < |ps| ensures ps[i] == Pos(1, 0) {
      assert ps[i] in ps && InSong(tracks, ps[i]);
    }
    if |ps| > 1 {
      PlayedOnce(tracks, 0, 1);
    }
  }

  lemma RivalOrder()
    ensures ValidTracks([[], [SLOW]]) && ValidTracks([[FAST], [SLOW]])
    ensures Merged([[], [SLOW]]) == [SLOW] && Merged([[FAST], [SLOW]]) == InsertAt([SLOW], 0, FAST)
  {
    var tracks: seq<Track> := [[], [SLOW]];
    OneEventMerged(tracks, SLOW);
    assert InsertAt([], 0, FAST) == [FAST];
    assert Enlarged(tracks, 0, 0, FAST) == [[FAST], [SLOW]];
    OneEventValid(FAST);
    OneEventValid(SLOW);
    var j := MergeInsert(tracks, 0, 0, FAST);
    assert j == 0;
  }

  lemma OneEventValid(e: Ev)
    requires e.time >= 0
    ensures Valid([e])
  {
  }

  lemma RivalChanges()
    ensures ChangeOf(FAST.bytes) == SetTempo(1) && ChangeOf(SLOW.bytes) == SetTempo(2) && FAST.time == SLOW.time == 0
    ensures IsTempoOrSignature(FAST.bytes) && LastOfKind([SLOW], SetTempo(1)) == SetTempo(2)
  {
    assert LastOfKind([], SetTempo(1)) == NoChange;
    assert [SLOW][..0] == [];
  }

  lemma RivalStep(s: Song)
    requires s.ppqn > 0 && s.tracks == [[], [SLOW]] && InSync(s)
    ensures ValidTracks([[FAST], [SLOW]]) && Sound(s) && s.tempos != [] && s.tempos[0].pulses == 0
    ensures AddStep(s, 0, FAST) == Song(s.ppqn, [[FAST], [SLOW]], Step(s.tempos, s.ppqn, 0, ChangeOf(FAST.bytes)))
  {
    hide Step, ChangeOf, Rebuilt;
    RivalChanges();
    assert DropEot([], 0) == [];
    assert Add([], FAST) == [FAST];
    assert [[FAST], [SLOW]][..1] == [[FAST]] && [[FAST]][..0] == [];
    assert AfterAdd(s.tracks, 0, FAST) == [[FAST], [SLOW]];
  }

  /**
   A tempo change added at the end of the song on track 1 while track 2 has one at the same pulse: a
   rebuild disagrees.
   */
  lemma {:induction false} RivalExample(s: Song)
    requires s.ppqn > 0 && s.tracks == [[], [SLOW]] && InSync(s)
    ensures !InSync(AddStep(s, 0, FAST))
  {
    hide *;
    RivalOrder();
    RivalChanges();
    RivalStep(s);
    BuildShortcutIff(s.ppqn, [SLOW], 0, FAST);
    assert [SLOW][0..] == [SLOW];
    RivalRebuilt(s);
  }

  lemma RivalRebuilt(s: Song)
    requires InSync(s) && s.tracks == [[], [SLOW]] && ValidTracks([[FAST], [SLOW]])
    requires Merged(s.tracks) == [SLOW] && Merged([[FAST], [SLOW]]) == InsertAt([SLOW], 0, FAST)
    ensures s.tempos == Build(s.ppqn, [SLOW]) && 0 < s.ppqn && SLOW.time >= 0
    ensures forall m: Map :: m != Build(s.ppqn, InsertAt([SLOW], 0, FAST)) ==>
              !InSync(Song(s.ppqn, [[FAST], [SLOW]], m))
  {
    hide Build, Merged;
    RebuiltIs(s.ppqn, s.tracks);
    RebuiltIs(s.ppqn, [[FAST], [SLOW]]);
  }
}
