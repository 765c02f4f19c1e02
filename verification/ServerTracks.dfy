/**
 The server's tracks: linked lists of events with current and delta times, their
 copies, and the splitting of a piece among computers.
 */
module ServerTracks {
  import opened Bytes
  import opened Vlq
  import opened Dealing

  datatype Payload =
    | Regular(kind: int, chan: int, data: seq<Byte>)
    | Sysex(message: seq<Byte>)
    | Meta(metaType: Byte, data: seq<Byte>)

  /** What an event says, and when. */
  datatype Note = Note(curtime: Word, payload: Payload)

  class Mevent {
    const note: Note
    var deltatime: Word
    var next: Mevent?

    constructor (note: Note)
      ensures this.note == note && deltatime == 0 && next == null
    {
      this.note, deltatime, next := note, 0, null;
    }

    /** `Mevent_copy`. */
    constructor Copy(e: Mevent)
      ensures note == e.note && deltatime == e.deltatime && next == null
    {
      note, deltatime, next := e.note, e.deltatime, null;
    }
  }

  /** Subtraction of `unsigned long`. */
  function Gap(from: Word, to: Word): Word {
    if from <= to then to - from else to - from + WORD
  }

  datatype TrackInfo = TrackInfo(name: string, instrument: string, text: string, isTempotrack: bool)

  class Mtrack {
    var first: Mevent?
    var last: Mevent?
    var len: int
    var info: TrackInfo
    ghost var events: seq<Mevent>

    constructor (info: TrackInfo)
      ensures Valid() && events == [] && this.info == info
    {
      first, last, len, this.info, events := null, null, 0, info, [];
    }

    /** The list from `first` on is `events`, and every delta but the first is the gap to the event before. */
    ghost predicate Valid()
      reads this`first, this`last, this`len, this`events, events`next, events`deltatime
    {
      && len == |events|
      && (forall i, j :: 0 <= i < j < |events| ==> events[i] != events[j])
      && first == (if events == [] then null else events[0])
      && (events != [] ==> last == events[|events| - 1] && last.next == null)
      && (forall i :: 0 <= i < |events| - 1 ==> events[i].next == events[i + 1])
      && forall i :: 0 < i < |events| ==> events[i].deltatime == Gap(events[i - 1].note.curtime, events[i].note.curtime)
    }

    ghost function Notes(): (r: seq<Note>)
      reads this`events
    {
      NotesOf(events)
    }

    /** `append_mevent`. */
    method Append(e: Mevent)
      requires Valid() && e !in events && e.next == null
      modifies this`first, this`last, this`len, this`events, e`deltatime, events`next
      ensures Valid() && events == old(events) + [e] && Notes() == old(Notes()) + [e.note]
      ensures old(events) == [] ==> e.deltatime == old(e.deltatime)
    {
      if len == 0 {
        first := e;
        last := e;
        len := 1;
      } else {
        e.deltatime := Gap(last.note.curtime, e.note.curtime);
        last.next := e;
        last := e;
        len := len + 1;
      }
      events := events + [e];
    }

    /** `Mtrack_copy`: new events, the same times and payloads. */
    method Copy() returns (copy: Mtrack)
      requires Valid()
      ensures fresh(copy) && copy.Valid() && copy.Notes() == Notes() && copy.info == info
      ensures forall i :: 0 <= i < |copy.events| ==> fresh(copy.events[i])
      ensures |copy.events| == |events|
      ensures forall i :: 0 <= i < |events| ==> copy.events[i].deltatime == events[i].deltatime
    {
      hide *;
      copy := new Mtrack(info);
      var e := first;
      ghost var n := 0;
      ValidMeans(0);
      while e != null
        invariant 0 <= n <= |events| && Valid() && e == (if n < |events| then events[n] else null)
        invariant fresh(copy) && copy.Valid() && |copy.events| == n && copy.info == info
        invariant forall i :: 0 <= i < n ==> fresh(copy.events[i]) && copy.events[i].note == events[i].note
        invariant n > 0 ==> copy.events[0].deltatime == events[0].deltatime
        decreases |events| - n
      {
        ValidMeans(n);
        var c := new Mevent.Copy(e);
        copy.Append(c);
        e := e.next;
        n := n + 1;
      }
      SameNotes(copy);
    }

    lemma ValidMeans(n: nat)
      requires Valid() && n <= |events|
      ensures first == if events == [] then null else events[0]
      ensures n < |events| ==> events[n].next == if n + 1 < |events| then events[n + 1] else null
    {
    }

    lemma SameNotes(copy: Mtrack)
      requires Valid() && copy.Valid() && |copy.events| == |events|
      requires forall i :: 0 <= i < |events| ==> copy.events[i].note == events[i].note
      requires events != [] ==> copy.events[0].deltatime == events[0].deltatime
      ensures copy.Notes() == Notes()
      ensures forall i :: 0 <= i < |events| ==> copy.events[i].deltatime == events[i].deltatime
    {
      forall i | 0 <= i < |events| ensures copy.events[i].deltatime == events[i].deltatime {
        if i > 0 {
          assert copy.events[i - 1].note == events[i - 1].note && copy.events[i].note == events[i].note;
        }
      }
    }
  }

  ghost function NotesOf(events: seq<Mevent>): (r: seq<Note>)
    ensures |r| == |events| && forall i :: 0 <= i < |r| ==> r[i] == events[i].note
  {
    seq(|events|, i requires 0 <= i < |events| => events[i].note)
  }

  /** In a track in time order, the deltas after the first are exact differences. */
  lemma {:induction false} DeltasAddUp(t: Mtrack, i: nat)
    requires t.Valid() && i < |t.events|
    requires forall j, k :: 0 <= j < k < |t.events| ==> t.events[j].note.curtime <= t.events[k].note.curtime
    ensures t.events[0].note.curtime + SumDeltas(t.events, i) == t.events[i].note.curtime
  {
    if i > 0 {
      DeltasAddUp(t, i - 1);
    }
  }

  /** The deltas of events 1 to i. */
  ghost function SumDeltas(events: seq<Mevent>, i: nat): int
    requires i < |events|
    reads events`deltatime
  {
    if i == 0 then 0 else SumDeltas(events, i - 1) + events[i].deltatime
  }

  // ----------------------------------------------------------------- splitting

  ghost predicate Within(events: seq<Mevent>, pool: set<Mevent>) {
    forall i :: 0 <= i < |events| ==> events[i] in pool
  }

  class Mfile {
    var format: int
    var division: int
    var hasTempotrack: bool
    var ntracks: int
    var tracks: seq<Mtrack>
    /** The events of all tracks. */
    ghost var pool: set<Mevent>
    /** The tracks as values. */
    ghost var parts: seq<seq<Note>>

    /** `Mfile_from_headers`. */
    constructor (format: int, division: int)
      ensures this.format == format && this.division == division && !hasTempotrack
      ensures ntracks == 0 && tracks == [] && pool == {} && Linked()
      ensures parts == []
    {
      this.format, this.division, hasTempotrack, ntracks, tracks, pool, parts := format, division, false, 0, [], {}, [];
    }

    ghost predicate LinkedAt(k: nat)
      requires k < |tracks| && k < |parts|
      reads this`tracks, this`pool, this`parts, tracks`first, tracks`last, tracks`len, tracks`events, pool`next
      reads pool`deltatime
    {
      Within(tracks[k].events, pool) && tracks[k].Valid() && parts[k] == tracks[k].Notes()
    }

    ghost predicate Linked()
      reads this`tracks, this`pool, this`parts, tracks`first, tracks`last, tracks`len, tracks`events, pool`next
      reads pool`deltatime
    {
      |parts| == |tracks| && forall k :: 0 <= k < |tracks| ==> LinkedAt(k)
    }

    /** Copy a track into the next place. */
    method TakeCopy(track: Mtrack)
      requires Linked() && track.Valid()
      modifies this`tracks, this`pool, this`parts
      ensures Linked() && parts == old(parts) + [track.Notes()]
      ensures |tracks| == |old(tracks)| + 1 && tracks[..|old(tracks)|] == old(tracks) && fresh(tracks[|old(tracks)|])
      ensures fresh(pool - old(pool))
    {
      hide Mtrack.Valid, Mtrack.Notes;
      ghost var n := |tracks|;
      var copy := track.Copy();
      tracks := tracks + [copy];
      pool := pool + set i | 0 <= i < |copy.events| :: copy.events[i];
      parts := parts + [copy.Notes()];
      forall k | 0 <= k < |tracks| ensures LinkedAt(k) {
        if k < n {
          assert old(LinkedAt(k));
        }
      }
    }
  }

  /** `track_num_map`. */
  method TrackNumMap(srcLen: nat, destLen: nat) returns (m: array<nat>)
    requires destLen > 0
    ensures fresh(m) && m.Length == destLen
    ensures forall i :: 0 <= i < destLen ==> m[i] == Share(srcLen, destLen, i)
  {
    m := new nat[destLen];
    var base := srcLen / destLen;
    var additional := srcLen % destLen;
    DivMod(srcLen, destLen);
    var i := 0;
    while i < destLen
      invariant 0 <= i <= destLen
      invariant additional == if i < srcLen % destLen then srcLen % destLen - i else 0
      invariant forall k :: 0 <= k < i ==> m[k] == Share(srcLen, destLen, k)
    {
      m[i] := base;
      if additional > 0 {
        m[i] := m[i] + 1;
        additional := additional - 1;
      }
      i := i + 1;
    }
  }

  lemma LinkedMeans(mfile: Mfile, k: nat)
    requires mfile.Linked() && k < |mfile.tracks|
    ensures |mfile.parts| == |mfile.tracks| && mfile.tracks[k].Valid() && mfile.parts[k] == mfile.tracks[k].Notes()
  {
    assert mfile.LinkedAt(k);
  }

  lemma LinkedCount(mfile: Mfile)
    requires mfile.Linked()
    ensures |mfile.parts| == |mfile.tracks|
  {
  }

  /** What one destination gets when there are at least as many as parts. */
  method OnePart(mfile: Mfile, srcI: nat) returns (dmfile: Mfile)
    requires mfile.Linked() && mfile.format == 1 && 0 < srcI < |mfile.tracks|
    ensures fresh(dmfile) && dmfile.Linked() && dmfile.format == mfile.format && dmfile.division == mfile.division
    ensures fresh(dmfile.pool) && forall j :: 0 <= j < |dmfile.tracks| ==> fresh(dmfile.tracks[j])
    ensures dmfile.hasTempotrack && dmfile.ntracks == |dmfile.parts|
    ensures |mfile.parts| == |mfile.tracks| && dmfile.parts == [mfile.parts[0], mfile.parts[srcI]]
  {
    hide *;
    dmfile := new Mfile(mfile.format, mfile.division);
    dmfile.ntracks := 2;
    dmfile.hasTempotrack := true;
    LinkedMeans(mfile, 0);
    LinkedMeans(mfile, srcI);
    dmfile.TakeCopy(mfile.tracks[0]);
    LinkedMeans(mfile, srcI);
    dmfile.TakeCopy(mfile.tracks[srcI]);
  }

  /** What destination i gets when parts are mixed: every ndest-th part, behind the tempo track if there is one. */
  method MixParts(mfile: Mfile, ndest: nat, i: nat, share: nat) returns (dmfile: Mfile)
    requires mfile.Linked() && (mfile.format == 1 || mfile.format == 2) && i < ndest
    requires mfile.format == 1 ==> mfile.tracks != []
    requires var nsrc := if mfile.format == 1 then |mfile.tracks| - 1 else |mfile.tracks|;
             share == Share(nsrc, ndest, i)
    ensures fresh(dmfile) && dmfile.Linked() && dmfile.format == mfile.format && dmfile.division == mfile.division
    ensures fresh(dmfile.pool) && forall j :: 0 <= j < |dmfile.tracks| ==> fresh(dmfile.tracks[j])
    ensures dmfile.ntracks == |dmfile.parts| && |mfile.parts| == |mfile.tracks|
    ensures dmfile.parts == if mfile.format == 1 then [mfile.parts[0]] + Hand(mfile.parts[1..], ndest, i)
                            else Hand(mfile.parts, ndest, i)
  {
    hide *;
    dmfile := new Mfile(mfile.format, mfile.division);
    LinkedCount(mfile);
    if mfile.format == 1 {
      dmfile.ntracks := share + 1;
      LinkedMeans(mfile, 0);
      dmfile.TakeCopy(mfile.tracks[0]);
      DealInto(dmfile, mfile, ndest, i, share, 1);
    } else {
      dmfile.ntracks := share;
      assert mfile.parts[0..] == mfile.parts;
      DealInto(dmfile, mfile, ndest, i, share, 0);
    }
  }

  /** The inner loop: the tracks from number `skip` on, dealt out. */
  method DealInto(dmfile: Mfile, mfile: Mfile, ndest: nat, i: nat, share: nat, skip: nat)
    requires mfile.Linked() && dmfile.Linked() && dmfile != mfile && i < ndest
    requires skip <= |mfile.tracks| && share == Share(|mfile.tracks| - skip, ndest, i)
    modifies dmfile`tracks, dmfile`pool, dmfile`parts
    ensures mfile.Linked() && dmfile.Linked() && |mfile.parts| == |mfile.tracks|
    ensures dmfile.parts == old(dmfile.parts) + Hand(mfile.parts[skip..], ndest, i)
    ensures fresh(dmfile.pool - old(dmfile.pool)) && |old(dmfile.tracks)| <= |dmfile.tracks|
    ensures dmfile.tracks[..|old(dmfile.tracks)|] == old(dmfile.tracks)
    ensures forall j :: |old(dmfile.tracks)| <= j < |dmfile.tracks| ==> fresh(dmfile.tracks[j])
  {
    ghost var front, hand := dmfile.parts, Hand(mfile.parts[skip..], ndest, i);
    var d := 0;
    assert front + hand[..0] == front;
    while d < share
      invariant 0 <= d <= share && dmfile.Linked() && mfile.Linked() && dmfile.parts == front + hand[..d]
      invariant fresh(dmfile.pool - old(dmfile.pool)) && |old(dmfile.tracks)| <= |dmfile.tracks|
      invariant dmfile.tracks[..|old(dmfile.tracks)|] == old(dmfile.tracks)
      invariant forall j :: |old(dmfile.tracks)| <= j < |dmfile.tracks| ==> fresh(dmfile.tracks[j])
    {
      var srcI := i + d * ndest + skip;
      DealtInRange(|mfile.tracks| - skip, ndest, i, d);
      assert mfile.LinkedAt(srcI) && mfile.parts[srcI] == hand[d];
      dmfile.TakeCopy(mfile.tracks[srcI]);
      assert front + hand[..d + 1] == front + hand[..d] + [hand[d]];
      d := d + 1;
    }
    assert hand[..d] == hand;
  }

  /** What destination i ends up with. */
  ghost function Split(format: int, parts: seq<seq<Note>>, ndest: nat, i: nat): seq<seq<Note>>
    requires (format == 1 && |parts| > 1) || (format == 2 && |parts| > ndest)
    requires i < ndest
  {
    if format == 1 then
      [parts[0]] + if ndest >= |parts| - 1 then [parts[i % (|parts| - 1) + 1]] else Hand(parts[1..], ndest, i)
    else Hand(parts, ndest, i)
  }

  /** The file made for destination i. */
  ghost predicate IsSplit(d: Mfile, format: int, division: int, parts: seq<seq<Note>>, ndest: nat, i: nat)
    requires (format == 1 && |parts| > 1) || (format == 2 && |parts| > ndest)
    requires i < ndest
    reads d, d.tracks`first, d.tracks`last, d.tracks`len, d.tracks`events, d.pool`next, d.pool`deltatime
  {
    && d.Linked() && d.ntracks == |d.parts| && d.format == format && d.division == division
    && d.parts == Split(format, parts, ndest, i)
  }

  /** The body of the loop of `Mfile_split_by_tracks`. */
  method SplitOne(mfile: Mfile, ndest: nat, nsrc: nat, i: nat, destMap: array<nat>) returns (dmfile: Mfile)
    requires mfile.Linked() && i < ndest && |mfile.parts| == |mfile.tracks|
    requires (mfile.format == 1 && |mfile.parts| > 1) || (mfile.format == 2 && |mfile.parts| > ndest)
    requires nsrc == |mfile.tracks| - (if mfile.format == 1 then 1 else 0)
    requires ndest < nsrc ==> destMap.Length == ndest && destMap[i] == Share(nsrc, ndest, i)
    ensures fresh(dmfile) && mfile.Linked() && IsSplit(dmfile, mfile.format, mfile.division, mfile.parts, ndest, i)
    ensures fresh(dmfile.pool) && forall j :: 0 <= j < |dmfile.tracks| ==> fresh(dmfile.tracks[j])
  {
    if ndest >= nsrc {
      dmfile := OnePart(mfile, i % nsrc + 1);
    } else {
      dmfile := MixParts(mfile, ndest, i, destMap[i]);
    }
  }

  /**
   `Mfile_split_by_tracks`.  Format 2 with as many computers as tracks is excluded: there
   the source reads past its last track.
   */
  method SplitByTracks(mfile: Mfile, ndest: nat) returns (r: Option<seq<Mfile>>)
    requires mfile.Linked() && mfile.ntracks == |mfile.tracks| == |mfile.parts| && ndest > 0
    requires mfile.format == 0 || (mfile.format == 1 && mfile.ntracks > 1)
               || (mfile.format == 2 && mfile.ntracks > ndest)
    ensures mfile.format == 0 ==> r == None
    ensures mfile.format != 0 ==> r.Some? && |r.value| == ndest
    ensures mfile.format != 0 ==>
              forall i :: 0 <= i < ndest ==> IsSplit(r.value[i], mfile.format, mfile.division, mfile.parts, ndest, i)
    ensures r.Some? ==> forall i :: 0 <= i < |r.value| ==> fresh(r.value[i]) && fresh(r.value[i].pool)
    ensures r.Some? ==>
              forall i, j :: 0 <= i < |r.value| && 0 <= j < |r.value[i].tracks| ==> fresh(r.value[i].tracks[j])
  {
    hide *;
    if mfile.format == 0 {
      return None;
    }
    var nsrc := mfile.ntracks;
    if mfile.format == 1 {
      nsrc := nsrc - 1;
    }
    var mfiles: seq<Mfile> := [];
    var destMap := new nat[0];
    if ndest < nsrc {
      destMap := TrackNumMap(nsrc, ndest);
    }
    var i := 0;
    while i < ndest
      invariant 0 <= i <= ndest && |mfiles| == i && mfile.Linked()
      invariant ndest < nsrc ==>
                  destMap.Length == ndest && forall k :: 0 <= k < ndest ==> destMap[k] == Share(nsrc, ndest, k)
      invariant forall k :: 0 <= k < i ==> IsSplit(mfiles[k], mfile.format, mfile.division, mfile.parts, ndest, k)
      invariant forall k :: 0 <= k < i ==> fresh(mfiles[k]) && fresh(mfiles[k].pool)
      invariant forall k, j :: 0 <= k < i && 0 <= j < |mfiles[k].tracks| ==> fresh(mfiles[k].tracks[j])
    {
      var dmfile := SplitOne(mfile, ndest, nsrc, i, destMap);
      mfiles := mfiles + [dmfile];
      i := i + 1;
    }
    r := Some(mfiles);
  }

  // ------------------------------------------------------ what the split means

  /** What destination i got besides the tempo track. */
  ghost function Portion(parts: seq<seq<Note>>, ndest: nat, i: nat): seq<seq<Note>>
    requires |parts| > 1 && |parts| - 1 > ndest && i < ndest
  {
    Split(1, parts, ndest, i)[1..]
  }

  /**
   Format 1 among fewer computers than parts: every destination gets the tempo track and
   then its hand, and the hands together are the parts, each exactly once.
   */
  lemma {:induction false} SplitIsPartition(parts: seq<seq<Note>>, ndest: nat)
    requires 0 < ndest < |parts| - 1
    ensures forall i :: 0 <= i < ndest ==> Split(1, parts, ndest, i) == [parts[0]] + Portion(parts, ndest, i)
    ensures multiset(Concat(seq(ndest, i requires 0 <= i < ndest => Portion(parts, ndest, i)))) == multiset(parts[1..])
    ensures forall i :: 0 <= i < ndest ==> |Portion(parts, ndest, i)| == Share(|parts| - 1, ndest, i)
  {
    hide Concat, Hand, Share;
    var hands := seq(ndest, i requires 0 <= i < ndest => Portion(parts, ndest, i));
    assert hands == Hands(parts[1..], ndest);
    DealingConserves(parts[1..], ndest);
  }

  /** Format 2 among fewer computers than tracks: the hands together are all the tracks, each exactly once. */
  lemma {:induction false} FormatTwoSplit(parts: seq<seq<Note>>, ndest: nat)
    requires 0 < ndest < |parts|
    ensures multiset(Concat(seq(ndest, i requires 0 <= i < ndest => Split(2, parts, ndest, i)))) == multiset(parts)
  {
    hide Concat, Hand, Share;
    var hands := seq(ndest, i requires 0 <= i < ndest => Split(2, parts, ndest, i));
    assert hands == Hands(parts, ndest);
    DealingConserves(parts, ndest);
  }

  /** The destinations among the first n that get the tempo track and part s, and nothing else. */
  ghost function Receivers(parts: seq<seq<Note>>, ndest: nat, n: nat, s: nat): set<nat>
    requires 1 < |parts| && n <= ndest && s < |parts|
  {
    set i: nat | i < n && Split(1, parts, ndest, i) == [parts[0], parts[s]]
  }

  /** Whether part s is the one that destination i gets. */
  lemma OnePartSplit(parts: seq<seq<Note>>, ndest: nat, i: nat, s: nat)
    requires 0 < s < |parts| <= ndest + 1 && i < ndest
    requires forall a, b :: 0 < a < b < |parts| ==> parts[a] != parts[b]
    ensures i % (|parts| - 1) == s - 1 <==> Split(1, parts, ndest, i) == [parts[0], parts[s]]
  {
    var k := i % (|parts| - 1) + 1;
    assert Split(1, parts, ndest, i)[1] == parts[k];
  }

  lemma {:induction false} ReceiversArePlayers(parts: seq<seq<Note>>, ndest: nat, n: nat, s: nat)
    requires 0 < s < |parts| <= ndest + 1 && n <= ndest
    requires forall a, b :: 0 < a < b < |parts| ==> parts[a] != parts[b]
    ensures |Receivers(parts, ndest, n, s)| == Players(|parts| - 1, n, s - 1)
  {
    hide Split;
    var all := Receivers(parts, ndest, n, s);
    if n == 0 {
      assert all == {};
    } else {
      ReceiversArePlayers(parts, ndest, n - 1, s);
      var before := Receivers(parts, ndest, n - 1, s);
      OnePartSplit(parts, ndest, n - 1, s);
      assert all == before + if (n - 1) % (|parts| - 1) == s - 1 then {n - 1} else {};
    }
  }

  /**
   Format 1 among at least as many computers as parts: every computer gets the tempo track and one
   part, and every part goes to some computer; when the parts differ, to as many as its even share
   of the computers.
   */
  lemma {:induction false} EveryPartDealt(parts: seq<seq<Note>>, ndest: nat, s: nat)
    requires 0 < s < |parts| <= ndest + 1
    ensures forall i: nat :: i < ndest ==>
              exists k :: 0 < k < |parts| && Split(1, parts, ndest, i) == [parts[0], parts[k]]
    ensures exists i: nat :: i < ndest && Split(1, parts, ndest, i) == [parts[0], parts[s]]
    ensures (forall a, b :: 0 < a < b < |parts| ==> parts[a] != parts[b])
            ==> |Receivers(parts, ndest, ndest, s)| == Share(ndest, |parts| - 1, s - 1)
  {
    forall i: nat | i < ndest
      ensures exists k :: 0 < k < |parts| && Split(1, parts, ndest, i) == [parts[0], parts[k]]
    {
      var k := i % (|parts| - 1) + 1;
      assert Split(1, parts, ndest, i) == [parts[0], parts[k]];
    }
    assert (s - 1) % (|parts| - 1) == s - 1;
    assert Split(1, parts, ndest, s - 1) == [parts[0], parts[s]];
    if forall a, b :: 0 < a < b < |parts| ==> parts[a] != parts[b] {
      ReceiversArePlayers(parts, ndest, ndest, s);
      PlayersShare(|parts| - 1, ndest, s - 1);
    }
  }
}
