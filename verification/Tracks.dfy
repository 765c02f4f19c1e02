/**
 Tracks as values: what adding and removing an event does to the list of
 (time, message) pairs, and what it does to the playback order of the song.
 */
module Tracks {
  import opened Bytes
  import opened Playback

  /** An attached event: absolute time in pulses and the MIDI message. */
  datatype Ev = Ev(time: int, bytes: seq<Byte>)

  type Track = seq<Ev>

  function TrackTimes(t: Track): (r: seq<int>)
    ensures |r| == |t|
    ensures forall i :: 0 <= i < |t| ==> r[i] == t[i].time
  {
    seq(|t|, i requires 0 <= i < |t| => t[i].time)
  }

  ghost predicate Valid(t: Track) {
    Sorted(TrackTimes(t)) && forall i :: 0 <= i < |t| ==> t[i].time >= 0
  }

  /** Pulses since the previous event of the track, or since its start. */
  function Delta(t: Track, i: nat): int
    requires i < |t|
  {
    if i == 0 then t[0].time else t[i].time - t[i - 1].time
  }

  function LastTime(t: Track): int {
    if t == [] then 0 else t[|t| - 1].time
  }

  /** The End Of Track message, exactly as `smf_event_is_eot` recognises it. */
  predicate IsEot(m: seq<Byte>) {
    m == [0xFF, 0x2F, 0x00]
  }

  // ----------------------------------------------------------- add and remove

  function InsertAt<T>(s: seq<T>, i: nat, x: T): seq<T>
    requires i <= |s|
  {
    s[..i] + [x] + s[i..]
  }

  function RemoveAt<T>(s: seq<T>, i: nat): seq<T>
    requires i < |s|
  {
    s[..i] + s[i + 1..]
  }

  /** `remove_eot_if_before_pulses`. */
  function DropEot(t: Track, pulses: int): Track {
    if t != [] && IsEot(t[|t| - 1].bytes) && t[|t| - 1].time <= pulses then t[..|t| - 1] else t
  }

  function FirstFrom(t: Track, time: int): (r: nat)
    ensures r <= |t|
    ensures r < |t| ==> t[r].time >= time
    ensures forall i :: 0 <= i < r ==> t[i].time < time
  {
    if t == [] || t[0].time >= time then 0 else 1 + FirstFrom(t[1..], time)
  }

  /** Where a new event of the given time lands: at the end, or before every event not earlier than it. */
  function Slot(t: Track, time: int): (r: nat)
    ensures r <= |t|
  {
    if LastTime(t) <= time then |t| else FirstFrom(t, time)
  }

  function Add(t: Track, e: Ev): Track {
    var d := DropEot(t, e.time);
    InsertAt(d, Slot(d, e.time), e)
  }

  lemma DropEotValid(t: Track, pulses: int)
    requires Valid(t)
    ensures Valid(DropEot(t, pulses))
  {
    var d := DropEot(t, pulses);
    assert forall i :: 0 <= i < |d| ==> TrackTimes(d)[i] == TrackTimes(t)[i];
  }

  /** Equal times: an append lands after all of them, an insertion before all of them; the order stays sound. */
  lemma SlotSplits(t: Track, time: int)
    requires Valid(t) && time >= 0
    ensures forall i :: 0 <= i < Slot(t, time) ==> t[i].time <= time
    ensures Slot(t, time) < |t| ==> forall i :: 0 <= i < Slot(t, time) ==> t[i].time < time
    ensures forall i :: Slot(t, time) <= i < |t| ==> t[i].time >= time
    ensures Slot(t, time) < |t| <==> LastTime(t) > time
  {
    var s, times := Slot(t, time), TrackTimes(t);
    forall i | 0 <= i < |t|
      ensures i < s ==> t[i].time <= time
      ensures i >= s ==> t[i].time >= time
    {
      assert times[i] <= times[|t| - 1];
      if LastTime(t) > time && i >= s {
        assert times[s] <= times[i];
      }
    }
  }

  lemma InsertValid(t: Track, i: nat, e: Ev)
    requires Valid(t) && i <= |t| && e.time >= 0
    requires forall j :: 0 <= j < i ==> t[j].time <= e.time
    requires forall j :: i <= j < |t| ==> t[j].time >= e.time
    ensures Valid(InsertAt(t, i, e))
  {
    var r := InsertAt(t, i, e);
    forall a, b | 0 <= a < b < |r| ensures TrackTimes(r)[a] <= TrackTimes(r)[b] {
      assert r[a] == if a < i then t[a] else if a == i then e else t[a - 1];
      assert r[b] == if b < i then t[b] else if b == i then e else t[b - 1];
      var a', b' := if a <= i then a else a - 1, if b <= i then b else b - 1;
      if a != i && b != i {
        assert a' < b' ==> TrackTimes(t)[a'] <= TrackTimes(t)[b'];
      }
    }
  }

  lemma AddValid(t: Track, e: Ev)
    requires Valid(t) && e.time >= 0
    ensures Valid(Add(t, e))
  {
    var d := DropEot(t, e.time);
    DropEotValid(t, e.time);
    SlotSplits(d, e.time);
    InsertValid(d, Slot(d, e.time), e);
  }

  lemma RemoveValid(t: Track, i: nat)
    requires Valid(t) && i < |t|
    ensures Valid(RemoveAt(t, i))
  {
    var r := RemoveAt(t, i);
    forall a, b | 0 <= a < b < |r| ensures TrackTimes(r)[a] <= TrackTimes(r)[b] {
      var a', b' := if a < i then a else a + 1, if b < i then b else b + 1;
      assert TrackTimes(t)[a'] <= TrackTimes(t)[b'];
    }
  }

  /** Removing an event just added gives the track back, unless an End Of Track was displaced. */
  lemma RemoveUndoesAdd(t: Track, e: Ev)
    ensures var d := DropEot(t, e.time);
            RemoveAt(Add(t, e), Slot(d, e.time)) == d
    ensures DropEot(t, e.time) == t <==> !(t != [] && IsEot(t[|t| - 1].bytes) && t[|t| - 1].time <= e.time)
  {
  }

  // ------------------------------------------------------------- End Of Track

  /** At most one End Of Track, and nothing after it. */
  ghost predicate EotOnlyLast(t: Track) {
    forall i :: 0 <= i < |t| - 1 ==> !IsEot(t[i].bytes)
  }

  lemma InsertBeforeLast(t: Track, s: nat, e: Ev)
    requires s < |t| && EotOnlyLast(t)
    ensures EotOnlyLast(InsertAt(t, s, e)) <==> !IsEot(e.bytes)
  {
    var r := InsertAt(t, s, e);
    assert r[s] == e;
    forall i | 0 <= i < |r| - 1 && i != s ensures !IsEot(r[i].bytes) {
      assert r[i] == t[if i < s then i else i - 1];
    }
  }

  lemma AppendAfterDrop(t: Track, e: Ev)
    requires Valid(t) && EotOnlyLast(t) && e.time >= LastTime(t) && e.time >= 0
    ensures Add(t, e) == DropEot(t, e.time) + [e] && EotOnlyLast(Add(t, e))
  {
    var d := DropEot(t, e.time);
    if d != [] {
      assert TrackTimes(t)[|d| - 1] <= TrackTimes(t)[|t| - 1];
    }
    assert Add(t, e) == d + [e];
    forall i | 0 <= i < |d| ensures !IsEot(d[i].bytes) {
      assert d[i] == t[i];
    }
  }

  /**
   Adding keeps the End Of Track last, except in exactly one case: a further End
   Of Track added strictly before the last event.
   */
  lemma {:induction false} AddKeepsEotLast(t: Track, e: Ev)
    requires Valid(t) && EotOnlyLast(t) && e.time >= 0
    ensures EotOnlyLast(Add(t, e)) <==> !(IsEot(e.bytes) && LastTime(t) > e.time)
  {
    if LastTime(t) > e.time {
      assert DropEot(t, e.time) == t;
      SlotSplits(t, e.time);
      InsertBeforeLast(t, Slot(t, e.time), e);
    } else {
      AppendAfterDrop(t, e);
    }
  }

  // ------------------------------------------------------- playback of a song

  function SongTimes(tracks: seq<Track>): (r: Times)
    ensures |r| == |tracks|
    ensures forall t :: 0 <= t < |tracks| ==> r[t] == TrackTimes(tracks[t])
  {
    seq(|tracks|, t requires 0 <= t < |tracks| => TrackTimes(tracks[t]))
  }

  ghost predicate ValidTracks(tracks: seq<Track>) {
    forall t :: 0 <= t < |tracks| ==> Valid(tracks[t])
  }

  ghost predicate InSong(tracks: seq<Track>, p: Pos) {
    p.track < |tracks| && p.index < |tracks[p.track]|
  }

  ghost function At(tracks: seq<Track>, p: Pos): Ev
    requires InSong(tracks, p)
  {
    tracks[p.track][p.index]
  }

  ghost function EventsAt(tracks: seq<Track>, ps: seq<Pos>): (r: seq<Ev>)
    requires forall p :: p in ps ==> InSong(tracks, p)
    ensures |r| == |ps|
    ensures forall i :: 0 <= i < |ps| ==> r[i] == At(tracks, ps[i])
  {
    seq(|ps|, i requires 0 <= i < |ps| => assert ps[i] in ps; At(tracks, ps[i]))
  }

  ghost function Played(tracks: seq<Track>): (r: seq<Pos>)
    requires ValidTracks(tracks)
    ensures forall p :: p in r <==> InSong(tracks, p)
    ensures StrictlyOrdered(SongTimes(tracks), r)
  {
    var times := SongTimes(tracks);
    assert forall p: Pos :: Ahead(times, Start(|times|), p) <==> InSong(tracks, p);
    PlayOrder(times)
  }

  /** All events of the song in playback order. */
  ghost function Merged(tracks: seq<Track>): (r: seq<Ev>)
    requires ValidTracks(tracks)
    ensures |r| == |Played(tracks)|
    ensures forall i :: 0 <= i < |r| ==> InSong(tracks, Played(tracks)[i]) && r[i] == At(tracks, Played(tracks)[i])
  {
    EventsAt(tracks, Played(tracks))
  }

  lemma MergedSorted(tracks: seq<Track>)
    requires ValidTracks(tracks)
    ensures forall i :: 0 <= i < |Merged(tracks)| ==> Merged(tracks)[i].time >= 0
    ensures forall i, j :: 0 <= i < j < |Merged(tracks)| ==> Merged(tracks)[i].time <= Merged(tracks)[j].time
  {
    var times, ps := SongTimes(tracks), Played(tracks);
    forall i, j | 0 <= i < j < |ps| ensures Merged(tracks)[i].time <= Merged(tracks)[j].time {
      assert Before(times, ps[i], ps[j]);
    }
    forall i | 0 <= i < |ps| ensures Merged(tracks)[i].time >= 0 {
      var p := ps[i];
      assert InSong(tracks, p) && Valid(tracks[p.track]);
    }
  }

  /** Where p of the enlarged song was before slot `slot` of track k was filled, and back. */
  ghost function Unshift(k: nat, slot: nat, p: Pos): Pos {
    if p.track == k && p.index > slot then Pos(k, p.index - 1) else p
  }

  ghost function Shift(k: nat, slot: nat, p: Pos): Pos {
    if p.track == k && p.index >= slot then Pos(k, p.index + 1) else p
  }

  ghost function Enlarged(tracks: seq<Track>, k: nat, slot: nat, e: Ev): seq<Track>
    requires k < |tracks| && slot <= |tracks[k]|
  {
    tracks[k := InsertAt(tracks[k], slot, e)]
  }

  lemma ShiftInverse(tracks: seq<Track>, k: nat, slot: nat, e: Ev, q: Pos)
    requires k < |tracks| && slot <= |tracks[k]|
    ensures InSong(tracks, q) ==>
              var q' := Shift(k, slot, q);
              InSong(Enlarged(tracks, k, slot, e), q') && q' != Pos(k, slot) && Unshift(k, slot, q') == q
    ensures InSong(Enlarged(tracks, k, slot, e), q) && q != Pos(k, slot) ==>
              var q' := Unshift(k, slot, q);
              InSong(tracks, q') && At(tracks, q') == At(Enlarged(tracks, k, slot, e), q)
  {
  }

  lemma UnshiftKeepsOrder(tracks: seq<Track>, k: nat, slot: nat, e: Ev, a: Pos, b: Pos)
    requires k < |tracks| && slot <= |tracks[k]|
    requires var tracks' := Enlarged(tracks, k, slot, e);
             InSong(tracks', a) && InSong(tracks', b) && a != Pos(k, slot) && b != Pos(k, slot)
             && Before(SongTimes(tracks'), a, b)
    ensures var a', b' := Unshift(k, slot, a), Unshift(k, slot, b);
            InSong(tracks, a') && InSong(tracks, b') && Before(SongTimes(tracks), a', b')
  {
    ShiftInverse(tracks, k, slot, e, a);
    ShiftInverse(tracks, k, slot, e, b);
  }

  /** s without its j-th place, every remaining place moved back. */
  ghost function Back(k: nat, slot: nat, s: seq<Pos>, j: nat): (r: seq<Pos>)
    requires j < |s|
    ensures |r| == |s| - 1
    ensures forall i :: 0 <= i < |r| ==> r[i] == Unshift(k, slot, s[Skip(j, i)])
  {
    seq(|s| - 1, i requires 0 <= i < |s| - 1 => Unshift(k, slot, s[Skip(j, i)]))
  }

  function Skip(j: nat, i: nat): nat {
    if i < j then i else i + 1
  }

  lemma BackInSong(tracks: seq<Track>, k: nat, slot: nat, e: Ev, s: seq<Pos>, j: nat, i: nat)
    requires k < |tracks| && slot <= |tracks[k]|
    requires StrictlyOrdered(SongTimes(Enlarged(tracks, k, slot, e)), s)
    requires j < |s| && s[j] == Pos(k, slot) && i < |s| - 1
    ensures var tracks', q := Enlarged(tracks, k, slot, e), s[Skip(j, i)];
            && InSong(tracks', q) && InSong(tracks', Pos(k, slot)) && q != Pos(k, slot)
            && (if i < j then Before(SongTimes(tracks'), q, Pos(k, slot))
                         else Before(SongTimes(tracks'), Pos(k, slot), q))
            && InSong(tracks, Unshift(k, slot, q))
            && At(tracks, Unshift(k, slot, q)) == At(tracks', q)
  {
    var tracks', q := Enlarged(tracks, k, slot, e), s[Skip(j, i)];
    assert q in s && s[j] in s;
    assert if i < j then Before(SongTimes(tracks'), q, s[j]) else Before(SongTimes(tracks'), s[j], q);
    ShiftInverse(tracks, k, slot, e, q);
  }

  lemma BackOrdered(tracks: seq<Track>, k: nat, slot: nat, e: Ev, s: seq<Pos>, j: nat)
    requires k < |tracks| && slot <= |tracks[k]|
    requires StrictlyOrdered(SongTimes(Enlarged(tracks, k, slot, e)), s)
    requires j < |s| && s[j] == Pos(k, slot)
    ensures StrictlyOrdered(SongTimes(tracks), Back(k, slot, s, j))
  {
    var times, back := SongTimes(tracks), Back(k, slot, s, j);
    forall i | 0 <= i < |back| ensures Exists(times, back[i]) {
      BackInSong(tracks, k, slot, e, s, j, i);
    }
    forall a, b | 0 <= a < b < |back| ensures Before(times, back[a], back[b]) {
      BackInSong(tracks, k, slot, e, s, j, a);
      BackInSong(tracks, k, slot, e, s, j, b);
      UnshiftKeepsOrder(tracks, k, slot, e, s[Skip(j, a)], s[Skip(j, b)]);
    }
  }

  lemma BackMember(tracks: seq<Track>, k: nat, slot: nat, e: Ev, s: seq<Pos>, j: nat, q: Pos)
    requires k < |tracks| && slot <= |tracks[k]| && InSong(tracks, q)
    requires j < |s| && s[j] == Pos(k, slot) && Shift(k, slot, q) in s
    ensures q in Back(k, slot, s, j)
  {
    ShiftInverse(tracks, k, slot, e, q);
    var i :| 0 <= i < |s| && s[i] == Shift(k, slot, q);
    var i' := if i < j then i else i - 1;
    assert Skip(j, i') == i;
    assert Back(k, slot, s, j)[i'] == q;
  }

  /** Playback of the enlarged song, without the new event, is playback of the old one. */
  lemma PlayedWithout(tracks: seq<Track>, k: nat, slot: nat, e: Ev, j: nat)
    requires k < |tracks| && slot <= |tracks[k]|
    requires ValidTracks(tracks) && ValidTracks(Enlarged(tracks, k, slot, e))
    requires j < |Played(Enlarged(tracks, k, slot, e))| && Played(Enlarged(tracks, k, slot, e))[j] == Pos(k, slot)
    ensures Played(tracks) == Back(k, slot, Played(Enlarged(tracks, k, slot, e)), j)
  {
    var ps, ps' := Played(tracks), Played(Enlarged(tracks, k, slot, e));
    var back := Back(k, slot, ps', j);
    BackOrdered(tracks, k, slot, e, ps', j);
    forall q ensures q in ps <==> q in back {
      if q in ps {
        ShiftInverse(tracks, k, slot, e, q);
        BackMember(tracks, k, slot, e, ps', j, q);
      }
      if q in back {
        var i :| 0 <= i < |back| && back[i] == q;
        BackInSong(tracks, k, slot, e, ps', j, i);
      }
    }
    OrderedUnique(SongTimes(tracks), back, ps);
  }

  lemma MergePlace(tracks: seq<Track>, k: nat, slot: nat, e: Ev, j: nat, i: nat)
    requires k < |tracks| && slot <= |tracks[k]|
    requires ValidTracks(tracks) && ValidTracks(Enlarged(tracks, k, slot, e))
    requires j < |Played(Enlarged(tracks, k, slot, e))| && Played(Enlarged(tracks, k, slot, e))[j] == Pos(k, slot)
    requires i < |Played(tracks)| && Played(tracks) == Back(k, slot, Played(Enlarged(tracks, k, slot, e)), j)
    ensures Merged(tracks)[i] == Merged(Enlarged(tracks, k, slot, e))[Skip(j, i)]
    ensures i < j ==> Merged(tracks)[i].time <= e.time
    ensures i >= j ==> Merged(tracks)[i].time >= e.time
    ensures Merged(tracks)[i].time == e.time ==>
              var p := Played(tracks)[i];
              i < j <==> (p.track < k || (p.track == k && p.index < slot))
  {
    var tracks' := Enlarged(tracks, k, slot, e);
    BackInSong(tracks, k, slot, e, Played(tracks'), j, i);
    assert At(tracks', Pos(k, slot)) == e;
  }

  /**
   Putting one event into one track puts it in one place of the playback order
   and leaves everything else as it was: after all earlier events, before all
   later ones, and among events of its own time by track.
   */
  lemma MergeInsert(tracks: seq<Track>, k: nat, slot: nat, e: Ev) returns (j: nat)
    requires k < |tracks| && slot <= |tracks[k]|
    requires ValidTracks(tracks) && ValidTracks(Enlarged(tracks, k, slot, e))
    ensures j <= |Merged(tracks)|
    ensures Merged(Enlarged(tracks, k, slot, e)) == InsertAt(Merged(tracks), j, e)
    ensures Played(Enlarged(tracks, k, slot, e))[j] == Pos(k, slot)
    ensures forall i :: 0 <= i < j ==> Merged(tracks)[i].time <= e.time
    ensures forall i :: j <= i < |Merged(tracks)| ==> Merged(tracks)[i].time >= e.time
    ensures forall i :: 0 <= i < |Merged(tracks)| && Merged(tracks)[i].time == e.time ==>
              var p := Played(tracks)[i];
              i < j <==> (p.track < k || (p.track == k && p.index < slot))
  {
    var tracks' := Enlarged(tracks, k, slot, e);
    var p := Pos(k, slot);
    assert InSong(tracks', p) && At(tracks', p) == e;
    j :| 0 <= j < |Played(tracks')| && Played(tracks')[j] == p;
    PlayedWithout(tracks, k, slot, e, j);
    forall i | 0 <= i < |Played(tracks)|
      ensures Merged(tracks)[i] == Merged(tracks')[Skip(j, i)]
      ensures i < j ==> Merged(tracks)[i].time <= e.time
      ensures i >= j ==> Merged(tracks)[i].time >= e.time
      ensures Merged(tracks)[i].time == e.time ==>
                var q := Played(tracks)[i];
                i < j <==> (q.track < k || (q.track == k && q.index < slot))
    {
      MergePlace(tracks, k, slot, e, j, i);
    }
    SkipInsert(Merged(tracks), Merged(tracks'), j, e);
  }

  lemma SkipInsert(m: seq<Ev>, m': seq<Ev>, j: nat, e: Ev)
    requires j < |m'| == |m| + 1 && m'[j] == e
    requires forall i :: 0 <= i < |m| ==> m[i] == m'[Skip(j, i)]
    ensures m' == InsertAt(m, j, e)
  {
    forall i | 0 <= i < |m'| ensures m'[i] == InsertAt(m, j, e)[i] {
      if i < j {
        assert m[i] == m'[Skip(j, i)];
      } else if i > j {
        assert m[i - 1] == m'[Skip(j, i - 1)];
      }
    }
  }
}
