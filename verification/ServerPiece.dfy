/**
 A track of a piece on its way through the server: what the reader's callbacks store of it,
 and what the writer makes of the list they leave.
 */
module ServerPiece {
  import opened Bytes
  import opened Vlq
  import opened MidiStream
  import opened MidiWriter
  import S = ServerTracks

  // ------------------------------------------------------------------ storing

  /** Meta events the handlers store with a length of their own, whatever the file said. */
  function FixedLength(metaType: Byte): Option<nat> {
    if metaType == 0x00 || metaType == 0x59 then Some(2)
    else if metaType == 0x51 then Some(3)
    else if metaType == 0x54 then Some(5)
    else if metaType == 0x58 then Some(4)
    else if metaType == 0x2F then Some(0)
    else None
  }

  /** A stretch of the message buffer: the message, and behind it what earlier messages left. */
  function FromBuffer(message: seq<Byte>, behind: nat -> Byte, length: nat): (r: seq<Byte>)
    ensures |r| == length
    ensures forall i :: 0 <= i < length && i < |message| ==> r[i] == message[i]
  {
    seq<Byte>(length, i => if 0 <= i < |message| then message[i] else if i >= 0 then behind(i) else 0)
  }

  /** The data bytes of a channel message as its handler stores them; those of a pitch bend change places. */
  function ChannelData(kind: Byte, c1: Byte, c2: Byte): seq<Byte> {
    if kind == 0xC0 || kind == 0xD0 then [c1]
    else if kind == 0xE0 then [c2, c1]
    else [c1, c2]
  }

  /** A call of a callback with bytes where bytes belong. */
  predicate Callable(h: Heard) {
    match h
    case ChannelMessage(time, status, c1, c2) => time >= 0 && 0x80 <= status < 0xF0 && 0 <= c1 < 256 && 0 <= c2 < 256
    case SysexMessage(time, _) => time >= 0
    case ArbitraryMessage(time, _) => time >= 0
    case MetaMessage(time, _, _) => time >= 0
    case _ => true
  }

  /** What the callbacks make of what they hear; None where they store nothing. */
  function Stored(h: Heard, behind: nat -> Byte): Option<S.Note>
    requires Callable(h)
  {
    match h
    case ChannelMessage(time, status, c1, c2) =>
      var kind := status - status % 16;
      Some(S.Note(time % WORD, S.Regular(kind, status % 16, ChannelData(kind, c1, c2))))
    case SysexMessage(time, message) => Some(S.Note(time % WORD, S.Payload.Sysex(message)))
    case MetaMessage(time, t, message) =>
      var length := if FixedLength(t).Some? then FixedLength(t).value else |message|;
      Some(S.Note(time % WORD, S.Payload.Meta(t, FromBuffer(message, behind, length))))
    case _ => None
  }

  ghost predicate AllCallable(heard: seq<Heard>) {
    forall i :: 0 <= i < |heard| ==> Callable(heard[i])
  }

  /** What is stored of a track. */
  ghost function AllStored(heard: seq<Heard>, behind: nat -> Byte): (r: seq<S.Note>)
    requires AllCallable(heard)
    ensures |r| <= |heard|
    ensures |r| == |heard| <==> forall i :: 0 <= i < |heard| ==> Stored(heard[i], behind).Some?
    ensures |r| == |heard| ==> forall i :: 0 <= i < |heard| ==> Some(r[i]) == Stored(heard[i], behind)
  {
    if heard == [] then []
    else
      var init, last := AllStored(heard[..|heard| - 1], behind), Stored(heard[|heard| - 1], behind);
      assert forall i :: 0 <= i < |heard| - 1 ==> heard[..|heard| - 1][i] == heard[i];
      if last.None? then init else init + [last.value]
  }

  lemma NothingStored(behind: nat -> Byte)
    ensures AllCallable([]) && AllStored([], behind) == []
  {
  }

  lemma StoredSnoc(heard: seq<Heard>, i: nat, behind: nat -> Byte)
    requires AllCallable(heard) && i < |heard|
    ensures Callable(heard[i]) && AllCallable(heard[..i]) && AllCallable(heard[..i + 1])
    ensures AllStored(heard[..i + 1], behind)
         == AllStored(heard[..i], behind)
            + if Stored(heard[i], behind).Some? then [Stored(heard[i], behind).value] else []
  {
    hide Stored;
    assert heard[..i + 1][..i] == heard[..i] && heard[..i + 1][i] == heard[i];
  }

  /** The callbacks of one track, from `handle_track_start` on. */
  method StoreTrack(heard: seq<Heard>, info: S.TrackInfo, behind: nat -> Byte) returns (track: S.Mtrack)
    requires AllCallable(heard)
    ensures fresh(track) && track.Valid() && track.Notes() == AllStored(heard, behind)
    ensures track.events != [] ==> track.events[0].deltatime == 0
    ensures forall i :: 0 <= i < |track.events| ==> fresh(track.events[i])
  {
    hide Stored, AllStored, AllCallable, S.Mtrack.Valid;
    track := new S.Mtrack(info);
    NothingStored(behind);
    assert track.Notes() == [] && heard[..0] == [];
    var i := 0;
    while i < |heard|
      invariant 0 <= i <= |heard| && fresh(track) && track.Valid()
      invariant AllCallable(heard[..i]) && track.Notes() == AllStored(heard[..i], behind)
      invariant track.events != [] ==> track.events[0].deltatime == 0
      invariant forall k :: 0 <= k < |track.events| ==> fresh(track.events[k])
    {
      StoredSnoc(heard, i, behind);
      var note := Stored(heard[i], behind);
      if note.Some? {
        var e := new S.Mevent(note.value);
        track.Append(e);
      }
      i := i + 1;
    }
    assert heard[..i] == heard;
  }

  // ------------------------------------------------------------------ writing

  /** `write_event`: the call it makes for a stored event. */
  function Written(delta: Word, p: S.Payload): Event {
    match p
    case Regular(kind, chan, data) => Channel(delta, kind, chan, data)
    case Sysex(message) => Event.Sysex(delta, message)
    case Meta(t, data) => Event.Meta(delta, t, data)
  }

  /** What is written of a list of stored events. */
  ghost function AllWritten(events: seq<S.Mevent>): (r: seq<Event>)
    reads events`deltatime
    ensures |r| == |events|
    ensures forall i :: 0 <= i < |r| ==> r[i] == Written(events[i].deltatime, events[i].note.payload)
  {
    if events == [] then []
    else
      AllWritten(events[..|events| - 1])
      + [Written(events[|events| - 1].deltatime, events[|events| - 1].note.payload)]
  }

  /** `write_track`: the list is followed from its first event on. */
  method WriteTrack(w: Writer, track: S.Mtrack)
    requires track.Valid() && AllProper(AllWritten(track.events)) && w.AtEnd()
    modifies w
    ensures w.AtEnd() && w.file == old(w.file) + TrackOut(AllWritten(track.events), old(w.laststatus))
    ensures w.numbyteswritten == old(w.numbyteswritten) + |TrackOut(AllWritten(track.events), old(w.laststatus))|
  {
    hide *;
    ghost var es, last := AllWritten(track.events), w.laststatus;
    ghost var was, whole := w.file, TrackOut(es, last);
    assert es[0..] == es;
    var e := track.first;
    ghost var n := 0;
    track.ValidMeans(0);
    while e != null
      invariant 0 <= n <= |es| == |track.events| && w.AtEnd() && track.Valid()
      invariant e == if n < |track.events| then track.events[n] else null
      invariant AllProper(es) && AllProper(es[n..]) && es == AllWritten(track.events)
      invariant w.file + TrackOut(es[n..], w.laststatus) == was + whole
      invariant w.numbyteswritten + |TrackOut(es[n..], w.laststatus)| == old(w.numbyteswritten) + |whole|
      decreases |es| - n
    {
      track.ValidMeans(n);
      ghost var here, status := w.file, w.laststatus;
      Unfolded(es, n, status);
      w.WriteEvent(Written(e.deltatime, e.note.payload));
      assert here + (EventOut(es[n], status) + TrackOut(es[n + 1..], Status(es[n])))
          == here + EventOut(es[n], status) + TrackOut(es[n + 1..], Status(es[n]));
      e := e.next;
      n := n + 1;
    }
    Writer.NoEvents(w.laststatus);
    assert es[n..] == [] && w.file + [] == w.file;
  }

  // ------------------------------------------------ written, and heard again

  /** The time of event i when a track is read from its start. */
  ghost function Elapsed(es: seq<Event>, i: nat): nat
    requires i < |es|
  {
    if i == 0 then es[0].delta else Elapsed(es, i - 1) + es[i].delta
  }

  lemma {:induction false} ElapsedTail(es: seq<Event>, i: nat)
    requires 0 < i < |es|
    ensures Elapsed(es, i) == es[0].delta + Elapsed(es[1..], i - 1)
  {
    if i > 1 {
      ElapsedTail(es, i - 1);
    }
  }

  lemma {:induction false} HearAt(es: seq<Event>, time: int, i: nat)
    requires AllSized(es) && i < |es|
    ensures |HearAll(es, time)| == |es|
    ensures HearAll(es, time)[i] == Hear(es[i], time + Elapsed(es, i))
    decreases |es|
  {
    if i > 0 {
      HearAt(es[1..], time + es[0].delta, i - 1);
      ElapsedTail(es, i);
    } else if |es| > 1 {
      HearAt(es[1..], time + es[0].delta, 0);
    }
  }

  lemma HearCallable(e: Event, time: int)
    requires Sized(e) && time >= 0
    ensures Callable(Hear(e, time))
  {
  }

  lemma AllHearable(es: seq<Event>)
    requires AllSized(es)
    ensures AllCallable(HearAll(es, 0)) && |HearAll(es, 0)| == |es|
    ensures forall i :: 0 <= i < |es| ==> HearAll(es, 0)[i] == Hear(es[i], Elapsed(es, i))
  {
    assert es == [] ==> HearAll(es, 0) == [];
    forall i | 0 <= i < |es|
      ensures |HearAll(es, 0)| == |es| && HearAll(es, 0)[i] == Hear(es[i], Elapsed(es, i))
      ensures Callable(HearAll(es, 0)[i])
    {
      HearAt(es, 0, i);
      HearCallable(es[i], Elapsed(es, i));
    }
  }

  ghost predicate InOrder(events: seq<S.Mevent>) {
    forall i, j :: 0 <= i < j < |events| ==> events[i].note.curtime <= events[j].note.curtime
  }

  lemma {:induction false} WrittenElapsed(t: S.Mtrack, i: nat)
    requires t.Valid() && InOrder(t.events) && i < |t.events|
    ensures Elapsed(AllWritten(t.events), i)
         == t.events[0].deltatime + (t.events[i].note.curtime - t.events[0].note.curtime)
  {
    if i > 0 {
      WrittenElapsed(t, i - 1);
    }
  }

  /**
   A track in time order, written and read back: its chunk is consumed, and every event is
   heard at its distance from the first one, behind the delta the first one has kept.
   */
  lemma WrittenHeard(t: S.Mtrack, rest: seq<Byte>, mode: Mode)
    requires t.Valid() && InOrder(t.events) && AllReadable(AllWritten(t.events), 0, mode)
    requires |TrackOut(AllWritten(t.events), 0)| < 0x1_0000_0000
    ensures var es := AllWritten(t.events);
            var heard := HearAll(es, 0);
            && ReadBody(Be32(|TrackOut(es, 0)|) + TrackOut(es, 0) + rest, mode)
               == Some((rest, [TrackStart] + heard + [TrackEnd]))
            && |heard| == |t.events|
            && forall i :: 0 <= i < |heard| ==>
                 heard[i] == Hear(es[i], t.events[0].deltatime
                                         + (t.events[i].note.curtime - t.events[0].note.curtime))
  {
    hide *;
    var es := AllWritten(t.events);
    BodyReadBack(es, rest, mode);
    AllHearable(es);
    forall i | 0 <= i < |es|
      ensures Elapsed(es, i) == t.events[0].deltatime + (t.events[i].note.curtime - t.events[0].note.curtime)
    {
      WrittenElapsed(t, i);
    }
  }

  /** All events are heard at their own times exactly when the first one's delta is its time. */
  lemma OnTimeIff(t: S.Mtrack)
    requires t.Valid() && InOrder(t.events)
    ensures (forall i :: 0 <= i < |t.events| ==> Elapsed(AllWritten(t.events), i) == t.events[i].note.curtime) <==>
            t.events == [] || t.events[0].deltatime == t.events[0].note.curtime
  {
    forall i | 0 <= i < |t.events|
      ensures Elapsed(AllWritten(t.events), i)
           == t.events[0].deltatime + (t.events[i].note.curtime - t.events[0].note.curtime)
    {
      WrittenElapsed(t, i);
    }
  }

  // ----------------------------------------------------- read, and written again

  /**
   The lengths meta events have in the standard: three bytes for a tempo, four for a signature, five
   for an SMPTE offset, two for a key and for a sequence number, none for the end of the track.
   */
  predicate StandardLength(metaType: Byte, length: nat) {
    && (metaType == 0x51 ==> length == 3) && (metaType == 0x58 ==> length == 4)
    && (metaType == 0x54 ==> length == 5) && (metaType == 0x59 ==> length == 2)
    && (metaType == 0x00 ==> length == 2) && (metaType == 0x2F ==> length == 0)
  }

  /**
   The events that come through reading and writing: channel messages, but a pitch bend only with
   two equal bytes; meta events, but those the standard gives a length only in that length.
   System exclusives grow by a status byte, and 0xF7 events are dropped.
   */
  predicate Survives(e: Event) {
    match e
    case Channel(_, kind, _, data) => kind == 0xE0 ==> |data| == 2 && data[0] == data[1]
    case Meta(_, t, data) => StandardLength(t, |data|)
    case _ => false
  }

  /** One event, read, stored and written again. */
  lemma {:induction false} SurvivesIff(e: Event, time: int, behind: nat -> Byte)
    requires Sized(e) && time >= 0
    ensures Callable(Hear(e, time))
    ensures var note := Stored(Hear(e, time), behind);
            && (note.None? <==> e.Arbitrary?)
            && (note.Some? ==> note.value.curtime == time % WORD)
            && (note.Some? && Written(e.delta, note.value.payload) == e <==> Survives(e))
  {
    HearCallable(e, time);
    var note := Stored(Hear(e, time), behind);
    match e
    case Channel(_, kind, chan, data) =>
      assert Status(e) - Status(e) % 16 == kind && Status(e) % 16 == chan;
      assert data == if |data| == 1 then [data[0]] else [data[0], data[1]];
      if kind == 0xE0 {
        assert note.value.payload.data[0] == data[1];
      }
    case Sysex(_, data) => assert |[0xF0] + data| != |data|;
    case Arbitrary(_, _) =>
    case Meta(_, t, data) =>
      var stored := note.value.payload.data;
      assert |stored| == |data| ==> stored == data;
  }

  lemma GapOfSum(a: nat, d: nat)
    requires d < WORD
    ensures S.Gap(a % WORD, (a + d) % WORD) == d
  {
    var q := a / WORD;
    assert a == q * WORD + a % WORD;
    if a % WORD + d < WORD {
      ModIs(a + d, q, a % WORD + d);
    } else {
      assert (q + 1) * WORD == q * WORD + WORD;
      ModIs(a + d, q + 1, a % WORD + d - WORD);
    }
  }

  lemma ModIs(n: nat, q: nat, m: nat)
    requires n == q * WORD + m && m < WORD
    ensures n % WORD == m
  {
  }

  /** Event i of the stored track is written with the delta it was read with; the first one with none. */
  lemma RewrittenAt(es: seq<Event>, track: S.Mtrack, behind: nat -> Byte, i: nat)
    requires AllSized(es) && i < |es| == |track.events| && track.Valid()
    requires AllCallable(HearAll(es, 0)) && track.Notes() == AllStored(HearAll(es, 0), behind)
    requires track.events[0].deltatime == 0
    ensures AllWritten(track.events)[i] == es[i] <==> Survives(es[i]) && (i == 0 ==> es[0].delta == 0)
  {
    hide *;
    AllHearable(es);
    StoredAt(es, track, behind, i);
    if i > 0 {
      StoredAt(es, track, behind, i - 1);
      ElapsedStep(es, i);
      GapOfSum(Elapsed(es, i - 1), es[i].delta);
      DeltaIs(track, i);
    }
    WrittenDelta(track.events[i].deltatime, es[i], track.events[i].note.payload);
  }

  lemma StoredAt(es: seq<Event>, track: S.Mtrack, behind: nat -> Byte, i: nat)
    requires AllSized(es) && i < |es| == |track.events|
    requires AllCallable(HearAll(es, 0)) && track.Notes() == AllStored(HearAll(es, 0), behind)
    ensures Sized(es[i]) && es[i].delta < WORD
    ensures track.events[i].note.curtime == Elapsed(es, i) % WORD
    ensures Written(es[i].delta, track.events[i].note.payload) == es[i] <==> Survives(es[i])
  {
    hide HearAll, Hear, Stored, Written, Survives, AllStored, Elapsed;
    AllHearable(es);
    SurvivesIff(es[i], Elapsed(es, i), behind);
    assert track.Notes()[i] == track.events[i].note;
  }

  lemma ElapsedStep(es: seq<Event>, i: nat)
    requires 0 < i < |es|
    ensures Elapsed(es, i) == Elapsed(es, i - 1) + es[i].delta
  {
  }

  lemma DeltaIs(track: S.Mtrack, i: nat)
    requires track.Valid() && 0 < i < |track.events|
    ensures track.events[i].deltatime == S.Gap(track.events[i - 1].note.curtime, track.events[i].note.curtime)
  {
  }

  lemma WrittenDelta(delta: Word, e: Event, p: S.Payload)
    requires e.delta < WORD
    ensures Written(delta, p) == e <==> delta == e.delta && Written(e.delta, p) == e
  {
  }

  /**
   A track read by the server and written again is the same track exactly when all its events
   survive and the first one is at time 0.
   */
  lemma {:induction false} RewrittenIff(es: seq<Event>, track: S.Mtrack, behind: nat -> Byte)
    requires AllSized(es) && track.Valid()
    requires AllCallable(HearAll(es, 0)) && track.Notes() == AllStored(HearAll(es, 0), behind)
    requires track.events != [] ==> track.events[0].deltatime == 0
    ensures AllWritten(track.events) == es <==>
            (forall i :: 0 <= i < |es| ==> Survives(es[i])) && (es == [] || es[0].delta == 0)
  {
    AllHearable(es);
    forall i | 0 <= i < |es| ensures Stored(HearAll(es, 0)[i], behind).Some? <==> !es[i].Arbitrary? {
      SurvivesIff(es[i], Elapsed(es, i), behind);
    }
    if |track.events| == |es| {
      forall i | 0 <= i < |es|
        ensures AllWritten(track.events)[i] == es[i] <==> Survives(es[i]) && (i == 0 ==> es[0].delta == 0)
      {
        RewrittenAt(es, track, behind, i);
      }
    } else {
      assert exists i :: 0 <= i < |es| && !Survives(es[i]);
    }
  }

  /** A pitch bend to one side of the middle: written again, it bends to the other. */
  lemma PitchBendExample(behind: nat -> Byte)
    ensures var e := Channel(0, 0xE0, 0, [0x00, 0x7F]);
            && Sized(e) && Callable(Hear(e, 0)) && Stored(Hear(e, 0), behind).Some?
            && Written(0, Stored(Hear(e, 0), behind).value.payload) == Channel(0, 0xE0, 0, [0x7F, 0x00])
  {
  }

  /** A meta event of its standard length is stored with all its data and written again as it was. */
  lemma MetaKept(delta: Word, t: Byte, data: seq<Byte>, time: nat, behind: nat -> Byte)
    requires |data| < 0x8000_0000 && StandardLength(t, |data|)
    ensures var e := Event.Meta(delta, t, data);
            && Sized(e) && Callable(Hear(e, time))
            && Stored(Hear(e, time), behind) == Some(S.Note(time % WORD, S.Payload.Meta(t, data)))
            && Written(delta, S.Payload.Meta(t, data)) == e
  {
    hide Emitted;
    var e := Event.Meta(delta, t, data);
    var note := Stored(Hear(e, time), behind);
    assert note.value.payload.data == data;
  }

  /** Half a second to the quarter note is stored as 07 A1 20. */
  lemma TempoKeptExample(behind: nat -> Byte)
    ensures var h := MetaMessage(0, 0x51, [0x07, 0xA1, 0x20]);
            Callable(h) && Stored(h, behind) == Some(S.Note(0, S.Payload.Meta(0x51, [0x07, 0xA1, 0x20])))
  {
    MetaKept(0, 0x51, [0x07, 0xA1, 0x20], 0, behind);
  }
}
