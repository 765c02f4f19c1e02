/**
 Saving: the checks `smf_save` makes, the bytes it appends to the file buffer, and
 the chunk lengths it patches in afterwards.
 */
module SmfSave {
  import opened Bytes
  import opened Chunks
  import opened Vlq
  import opened Tracks
  import opened SmfTracks
  import opened SmfSong
  import opened Incremental
  import opened TempoMap
  import opened SmfFormat

  // ---------------------------------------------------------------- validation

  datatype Validation = Accepted | Refused(code: int) | Aborts

  /** The inner loop of `smf_validate` from event i on; `found` when an End Of Track has been seen. */
  function CheckEvents(t: Track, i: nat, found: bool): Validation
    requires i <= |t|
    decreases |t| - i
  {
    if i == |t| then Accepted
    else
      match Validity(t[i].bytes)
      case Abort => Aborts
      case Ok(true) =>
        if IsEot(t[i].bytes) && found then Refused(-6) else CheckEvents(t, i + 1, found || IsEot(t[i].bytes))
      case _ => Refused(-5)
  }

  ghost predicate HasEot(t: Track) {
    exists i :: 0 <= i < |t| && IsEot(t[i].bytes)
  }

  ghost predicate OneEot(t: Track) {
    forall i, j :: 0 <= i < j < |t| ==> !(IsEot(t[i].bytes) && IsEot(t[j].bytes))
  }

  /** A track passes exactly when its messages are good and it has at most one End Of Track. */
  lemma {:induction false} CheckEventsIff(t: Track, i: nat)
    requires i <= |t| && forall j :: 0 <= j < i ==> Good(t[j].bytes)
    requires OneEot(t[..i])
    ensures CheckEvents(t, i, HasEot(t[..i])) == Accepted <==> AllGood(t) && OneEot(t)
    decreases |t| - i
  {
    if i == |t| {
      assert t[..i] == t;
    } else {
      assert t[..i + 1] == t[..i] + [t[i]];
      var m := t[i].bytes;
      if Good(m) {
        if IsEot(m) && HasEot(t[..i]) {
          var j :| 0 <= j < i && IsEot(t[..i][j].bytes);
          assert IsEot(t[j].bytes) && IsEot(t[i].bytes);
        } else {
          HasEotGrows(t, i);
          CheckEventsIff(t, i + 1);
        }
      }
    }
  }

  lemma HasEotGrows(t: Track, i: nat)
    requires i < |t|
    ensures HasEot(t[..i + 1]) <==> HasEot(t[..i]) || IsEot(t[i].bytes)
    ensures OneEot(t[..i]) && !(IsEot(t[i].bytes) && HasEot(t[..i])) ==> OneEot(t[..i + 1])
  {
    var s, r := t[..i], t[..i + 1];
    assert r[i] == t[i] && forall j :: 0 <= j < i ==> r[j] == s[j];
    if HasEot(s) {
      var j :| 0 <= j < |s| && IsEot(s[j].bytes);
      assert IsEot(r[j].bytes);
    }
  }

  /** The track with the End Of Track `smf_validate` adds. */
  ghost function WithEot(t: Track): Track {
    if HasEot(t) then t else t + [Ev(LastTime(t), EOT)]
  }

  /** The first j tracks completed, the others as they were. */
  ghost function Completed(v: seq<Track>, j: nat): (r: seq<Track>)
    requires j <= |v|
    ensures |r| == |v|
    ensures forall k :: 0 <= k < |v| ==> r[k] == if k < j then WithEot(v[k]) else v[k]
  {
    seq(|v|, k requires 0 <= k < |v| => if k < j then WithEot(v[k]) else v[k])
  }

  /** The outer loop of `smf_validate` from track k on. */
  function CheckTracks(v: seq<Track>, k: nat): Validation
    requires k <= |v|
    decreases |v| - k
  {
    if k == |v| then Accepted
    else
      var c := CheckEvents(v[k], 0, false);
      if c == Accepted then CheckTracks(v, k + 1) else c
  }

  /** How many tracks pass before the first that does not. */
  function Passing(v: seq<Track>, k: nat): (r: nat)
    requires k <= |v|
    ensures k <= r <= |v|
    decreases |v| - k
  {
    if k < |v| && CheckEvents(v[k], 0, false) == Accepted then Passing(v, k + 1) else k
  }

  /** `smf_validate`, its verdict. */
  function CheckSong(format: int, ppqn: int, v: seq<Track>): Validation {
    if format < 0 || format > 2 then Refused(-1)
    else if |v| < 1 then Refused(-2)
    else if format == 0 && |v| > 1 then Refused(-3)
    else if ppqn <= 0 then Refused(-4)
    else CheckTracks(v, 0)
  }

  /** The tracks as `smf_validate` leaves them, whatever its verdict. */
  ghost function Checked(format: int, ppqn: int, v: seq<Track>): seq<Track> {
    if format < 0 || format > 2 || |v| < 1 || (format == 0 && |v| > 1) || ppqn <= 0 then v
    else Completed(v, Passing(v, 0))
  }

  /**
   The same for a song that may have lost its tempo map: an End Of Track can only be added
   where there is a tempo, else the assertion in `seconds_from_pulses` fails.
   */
  ghost function Verdict(format: int, ppqn: int, timed: bool, v: seq<Track>): Validation {
    if !timed && Checked(format, ppqn, v) != v then Aborts else CheckSong(format, ppqn, v)
  }

  ghost function Validated(format: int, ppqn: int, timed: bool, v: seq<Track>): seq<Track> {
    if timed then Checked(format, ppqn, v) else v
  }

  lemma VerdictIs(format: int, ppqn: int, timed: bool, v: seq<Track>)
    ensures timed || Checked(format, ppqn, v) == v ==>
              Verdict(format, ppqn, timed, v) == CheckSong(format, ppqn, v)
              && Validated(format, ppqn, timed, v) == Checked(format, ppqn, v)
    ensures !timed && Checked(format, ppqn, v) != v ==>
              Verdict(format, ppqn, timed, v) == Aborts && Validated(format, ppqn, timed, v) == v
  {
  }

  /** A track without End Of Track that is reached does get one. */
  lemma Lacking(v: seq<Track>, k: nat)
    requires k < Passing(v, 0) && !HasEot(v[k])
    ensures Completed(v, Passing(v, 0)) != v
  {
    assert |Completed(v, Passing(v, 0))[k]| == |v[k]| + 1;
  }

  lemma WithEotGood(t: Track)
    requires Valid(t) && AllGood(t) && OneEot(t)
    ensures GoodTrack(WithEot(t)) && OneEot(WithEot(t))
    ensures HasEot(WithEot(t))
  {
    var r := WithEot(t);
    if !HasEot(t) {
      LastTimeNatural(t);
      InsertEnd(t, Ev(LastTime(t), EOT));
      assert r[|t|] == Ev(LastTime(t), EOT);
      forall i | 0 <= i < |t| ensures !IsEot(r[i].bytes) {
        assert r[i] == t[i];
      }
    }
    GoodIsWritable(r);
  }

  lemma LastTimeNatural(t: Track)
    requires Valid(t)
    ensures LastTime(t) >= 0
  {
  }

  lemma InsertEnd(t: Track, e: Ev)
    requires Valid(t) && e.time >= LastTime(t) && e.time >= 0
    ensures Valid(t + [e])
  {
    forall i | 0 <= i < |t| ensures t[i].time <= e.time {
      assert TrackTimes(t)[i] <= TrackTimes(t)[|t| - 1];
    }
    assert InsertAt(t, |t|, e) == t + [e];
    InsertValid(t, |t|, e);
  }

  lemma {:induction false} AllPass(v: seq<Track>, k: nat)
    requires k <= |v|
    ensures CheckTracks(v, k) == Accepted <==> Passing(v, k) == |v|
    ensures CheckTracks(v, k) == Accepted <==> forall j :: k <= j < |v| ==> AllGood(v[j]) && OneEot(v[j])
    decreases |v| - k
  {
    if k < |v| {
      AllPass(v, k + 1);
      assert v[k][..0] == [];
      CheckEventsIff(v[k], 0);
    }
  }

  /** The verdict on the message at which the checks stop: a good one is an End Of Track too many. */
  function Fault(m: Message): Validation {
    if m == [] || m[0] == 0xF7 then Aborts else if Good(m) then Refused(-6) else Refused(-5)
  }

  lemma NoSecond(t: Track, j: nat, i: nat)
    requires j < i < |t| && OneEot(t[..i])
    ensures !(IsEot(t[j].bytes) && HasEot(t[..j]))
  {
    forall n | 0 <= n < j ensures !(IsEot(t[j].bytes) && IsEot(t[..j][n].bytes)) {
      assert t[..i][n] == t[n] && t[..i][j] == t[j];
    }
  }

  /** Event i is the first at fault among the events from j on. */
  lemma {:induction false} EventsFault(t: Track, j: nat, i: nat)
    requires j <= i < |t| && (forall n :: 0 <= n < i ==> Good(t[n].bytes)) && OneEot(t[..i])
    requires !Good(t[i].bytes) || (IsEot(t[i].bytes) && HasEot(t[..i]))
    ensures CheckEvents(t, j, HasEot(t[..j])) == Fault(t[i].bytes)
    decreases i - j
  {
    GoodLengths(t[i].bytes);
    if j < i {
      assert t[..i][..j] == t[..j];
      HasEotGrows(t, j);
      NoSecond(t, j, i);
      EventsFault(t, j + 1, i);
    }
  }

  lemma {:induction false} TracksFault(v: seq<Track>, j: nat, k: nat)
    requires j <= k < |v| && forall n :: 0 <= n < k ==> AllGood(v[n]) && OneEot(v[n])
    requires CheckEvents(v[k], 0, false) != Accepted
    ensures CheckTracks(v, j) == CheckEvents(v[k], 0, false)
    decreases k - j
  {
    hide CheckEvents;
    if j < k {
      assert v[j][..0] == [];
      CheckEventsIff(v[j], 0);
      TracksFault(v, j + 1, k);
    }
  }

  /** With the header fields in order, the error of a song is that of its first event at fault, track by track. */
  lemma {:induction false} FirstFault(format: int, ppqn: int, v: seq<Track>, k: nat, i: nat)
    requires 0 <= format <= 2 && v != [] && (format == 0 ==> |v| == 1) && ppqn > 0
    requires k < |v| && i < |v[k]| && forall n :: 0 <= n < k ==> AllGood(v[n]) && OneEot(v[n])
    requires (forall n :: 0 <= n < i ==> Good(v[k][n].bytes)) && OneEot(v[k][..i])
    requires !Good(v[k][i].bytes) || (IsEot(v[k][i].bytes) && HasEot(v[k][..i]))
    ensures CheckSong(format, ppqn, v) == Fault(v[k][i].bytes)
  {
    hide CheckEvents, CheckTracks;
    assert v[k][..0] == [];
    EventsFault(v[k], 0, i);
    TracksFault(v, 0, k);
  }

  lemma {:induction false} TrackErrors(v: seq<Track>, k: nat)
    requires k <= |v|
    ensures CheckTracks(v, k) in {Accepted, Aborts, Refused(-5), Refused(-6)}
    decreases |v| - k
  {
    hide CheckEvents;
    if k < |v| {
      EventErrors(v[k], 0, false);
      TrackErrors(v, k + 1);
    }
  }

  lemma {:induction false} EventErrors(t: Track, i: nat, found: bool)
    requires i <= |t|
    ensures CheckEvents(t, i, found) in {Accepted, Aborts, Refused(-5), Refused(-6)}
    decreases |t| - i
  {
    if i < |t| {
      EventErrors(t, i + 1, found || IsEot(t[i].bytes));
    }
  }

  /** The errors of the header fields, each where it is the first. */
  lemma HeaderErrors(format: int, ppqn: int, v: seq<Track>)
    ensures CheckSong(format, ppqn, v) == Refused(-1) <==> !(0 <= format <= 2)
    ensures CheckSong(format, ppqn, v) == Refused(-2) <==> 0 <= format <= 2 && v == []
    ensures CheckSong(format, ppqn, v) == Refused(-3) <==> format == 0 && |v| > 1
    ensures CheckSong(format, ppqn, v) == Refused(-4) <==>
            0 <= format <= 2 && v != [] && (format == 0 ==> |v| == 1) && ppqn <= 0
  {
    hide CheckTracks;
    TrackErrors(v, 0);
  }

  /** A song passes exactly when what is left of it can be written, and had at most one End Of Track a track. */
  lemma {:induction false} CheckSongIff(format: int, ppqn: int, v: seq<Track>)
    requires ValidTracks(v)
    ensures CheckSong(format, ppqn, v) == Accepted <==>
            && 0 <= format <= 2 && v != [] && (format == 0 ==> |v| == 1) && ppqn > 0
            && forall k :: 0 <= k < |v| ==> AllGood(v[k]) && OneEot(v[k])
    ensures CheckSong(format, ppqn, v) == Accepted ==>
              && Checked(format, ppqn, v) == Completed(v, |v|)
              && 0 <= format && 0 < ppqn && Savable(format, ppqn, Checked(format, ppqn, v))
  {
    AllPass(v, 0);
    if CheckSong(format, ppqn, v) == Accepted {
      var r := Completed(v, |v|);
      forall k | 0 <= k < |r| ensures GoodTrack(r[k]) {
        WithEotGood(v[k]);
      }
    }
  }

  // ------------------------------------------------------------------- writing

  /** What a C `int` leaves of deltas and message lengths. */
  ghost predicate Fits(t: Track) {
    forall i :: 0 <= i < |t| ==> Delta(t, i) < 0x8000_0000 && |t[i].bytes| < 0x8000_0000
  }

  lemma EmittedSmall(v: nat)
    requires v < 0x8000_0000
    ensures v < WORD && Emitted(v) == Encode(v)
  {
    WriterCorrectIff(v);
  }

  /** `smf_append`. */
  method Append(smf: Smf, buffer: seq<Byte>)
    modifies smf`fileBuffer
    ensures smf.fileBuffer == old(smf.fileBuffer) + buffer
  {
    smf.fileBuffer := smf.fileBuffer + buffer;
  }

  /** `write_mthd_header`. */
  method WriteMthdHeader(smf: Smf)
    requires smf.format >= 0 && smf.numberOfTracks >= 0 && smf.ppqn >= 0
    modifies smf`fileBuffer
    ensures smf.fileBuffer == old(smf.fileBuffer) + Header(smf.format, smf.numberOfTracks, smf.ppqn)
  {
    var chunk := MTHD + Be32(6);
    chunk := chunk + Be16(smf.format);
    chunk := chunk + Be16(smf.numberOfTracks);
    chunk := chunk + Be16(smf.ppqn);
    assert chunk == Header(smf.format, smf.numberOfTracks, smf.ppqn);
    Append(smf, chunk);
  }

  /** `track_append`: the first bytes also fix where the track starts. */
  method TrackAppend(smf: Smf, track: SmfTrack, buffer: seq<Byte>)
    modifies smf`fileBuffer, track`bufferStart, track`bufferLength
    ensures smf.fileBuffer == old(smf.fileBuffer) + buffer
    ensures track.bufferLength == old(track.bufferLength) + |buffer|
    ensures track.bufferStart == if old(track.bufferStart) == -1 then |old(smf.fileBuffer)| else old(track.bufferStart)
  {
    var at := |smf.fileBuffer|;
    Append(smf, buffer);
    track.bufferLength := track.bufferLength + |buffer|;
    if track.bufferStart == -1 {
      track.bufferStart := at;
    }
  }

  /** `write_vlq`. */
  method WriteVlq(smf: Smf, track: SmfTrack, value: nat)
    requires track.bufferStart != -1 && value < 0x8000_0000
    modifies smf`fileBuffer, track`bufferStart, track`bufferLength
    ensures smf.fileBuffer == old(smf.fileBuffer) + Encode(value)
    ensures track.bufferLength == old(track.bufferLength) + |Encode(value)|
              && track.bufferStart == old(track.bufferStart)
  {
    EmittedSmall(value);
    var buf := FormatVlq(value);
    TrackAppend(smf, track, buf);
  }

  lemma MessageBytesAre(m: Message)
    requires m != []
    ensures m[0] == 0xF0 ==> MessageBytes(m) == [0xF0] + Encode(|m| - 1) + m[1..]
    ensures 0xF0 < m[0] < 0xFF ==> MessageBytes(m) == [0xF7] + Encode(|m|) + m
    ensures m[0] < 0xF0 || m[0] == 0xFF ==> MessageBytes(m) == m
  {
  }

  /** `write_event_contents`, with the system exclusive and escaped forms. */
  method WriteEventContents(smf: Smf, track: SmfTrack, m: Message)
    requires track.bufferStart != -1 && m != [] && |m| < 0x8000_0000
    modifies smf`fileBuffer, track`bufferStart, track`bufferLength
    ensures smf.fileBuffer == old(smf.fileBuffer) + MessageBytes(m)
    ensures track.bufferLength == old(track.bufferLength) + |MessageBytes(m)|
              && track.bufferStart == old(track.bufferStart)
  {
    hide *;
    MessageBytesAre(m);
    if m[0] >= 0xF0 && m[0] != 0xFF {
      if m[0] == 0xF0 {
        TrackAppend(smf, track, [0xF0]);
        WriteVlq(smf, track, |m| - 1);
        TrackAppend(smf, track, m[1..]);
      } else {
        TrackAppend(smf, track, [0xF7]);
        WriteVlq(smf, track, |m|);
        TrackAppend(smf, track, m);
      }
    } else {
      TrackAppend(smf, track, m);
    }
  }

  /** `write_event`. */
  method WriteEvent(smf: Smf, track: SmfTrack, event: SmfEvent)
    requires track.bufferStart != -1 && event.bytes != []
    requires 0 <= event.delta < 0x8000_0000 && |event.bytes| < 0x8000_0000
    modifies smf`fileBuffer, track`bufferStart, track`bufferLength
    ensures smf.fileBuffer == old(smf.fileBuffer) + EventBytes(event.delta, event.bytes)
    ensures track.bufferLength == old(track.bufferLength) + |EventBytes(event.delta, event.bytes)|
    ensures track.bufferStart == old(track.bufferStart)
  {
    WriteVlq(smf, track, event.delta);
    WriteEventContents(smf, track, event.bytes);
  }

  /** `write_mtrk_header`; the four length bytes are whatever was on the stack. */
  method WriteMtrkHeader(smf: Smf, track: SmfTrack)
    requires track.bufferStart == -1 && track.bufferLength == 0
    modifies smf`fileBuffer, track`bufferStart, track`bufferLength
    ensures track.bufferStart == |old(smf.fileBuffer)| && track.bufferLength == 8
    ensures |smf.fileBuffer| == |old(smf.fileBuffer)| + 8
              && smf.fileBuffer[..|smf.fileBuffer| - 4] == old(smf.fileBuffer) + MTRK
  {
    var a: Byte, b: Byte, c: Byte, d: Byte := *, *, *, *;
    TrackAppend(smf, track, MTRK + [a, b, c, d]);
  }

  /** `write_mtrk_length`: the length goes back into the header. */
  method WriteMtrkLength(smf: Smf, track: SmfTrack, ghost before: seq<Byte>, ghost body: seq<Byte>)
    requires track.bufferStart == |before| && track.bufferLength == |body| + 8
    requires |smf.fileBuffer| == |before| + 8 + |body|
    requires smf.fileBuffer[..|before| + 4] == before + MTRK && smf.fileBuffer[|before| + 8..] == body
    modifies smf`fileBuffer
    ensures smf.fileBuffer == before + Chunk(MTRK, body)
  {
    var at := track.bufferStart;
    smf.fileBuffer := smf.fileBuffer[..at + 4] + Be32(track.bufferLength - 8) + smf.fileBuffer[at + 8..];
  }

  /** `write_track`. */
  method WriteTrack(smf: Smf, track: SmfTrack)
    requires track.Synced() && track.NumberAt(0) && track.bufferStart == -1 && track.bufferLength == 0
    requires Writable(track.contents) && Fits(track.contents)
    modifies smf`fileBuffer, track`bufferStart, track`bufferLength, track`nextEventNumber, track`timeOfNextEvent
    ensures track.Synced() && smf.fileBuffer == old(smf.fileBuffer) + Chunk(MTRK, Body(track.contents, 0))
  {
    hide *;
    ghost var t, before := track.contents, smf.fileBuffer;
    WriteMtrkHeader(smf, track);
    track.SyncedMeans();
    ghost var written: seq<Byte> := [];
    ghost var n := 0;
    while true
      invariant n <= |t| && track.Synced() && track.NumberAt(n)
      invariant |smf.fileBuffer| == |before| + 8 + |written| && smf.fileBuffer[|before| + 8..] == written
      invariant smf.fileBuffer[..|before| + 4] == before + MTRK
      invariant Body(t, 0) == written + Body(t, n)
      invariant track.bufferStart == |before| && track.bufferLength == 8 + |written|
      decreases |t| - n
    {
      var event := track.GetNextEvent(n);
      EventKnown(track, n);
      if event == null {
        assert written + [] == written;
        break;
      }
      WriteEvent(smf, track, event);
      written := written + EventBytes(event.delta, event.bytes);
      n := n + 1;
    }
    WriteMtrkLength(smf, track, before, written);
  }

  /** What the writer relies on for event n, if there is one. */
  lemma EventKnown(track: SmfTrack, n: nat)
    requires track.Synced() && n <= |track.contents| && Writable(track.contents) && Fits(track.contents)
    ensures n == |track.contents| ==> Body(track.contents, n) == []
    ensures n < |track.contents| ==>
              var e := track.events[n];
              && e.delta >= 0 && e.bytes != [] && e.delta < 0x8000_0000 && |e.bytes| < 0x8000_0000
              && Body(track.contents, n) == EventBytes(e.delta, e.bytes) + Body(track.contents, n + 1)
    ensures track.CursorAt(n) ==> track.NumberAt(n)
    ensures n < |track.contents| && track.CursorAt(n + 1) ==> track.NumberAt(n + 1)
  {
    track.ContentsValid();
    if n < |track.contents| {
      assert WritableAt(track.contents, n);
      assert track.contents[n] == Ev(track.events[n].time, track.events[n].bytes);
    }
  }

  // ---------------------------------------------------------------- the song

  /** The loop over the events of one track in `smf_validate`. */
  method CheckTrack(track: SmfTrack) returns (v: Validation, eotFound: bool)
    requires track.Synced()
    ensures v == CheckEvents(track.contents, 0, false)
    ensures v == Accepted ==> (eotFound <==> HasEot(track.contents))
    ensures track.Synced()
  {
    ghost var t := track.contents;
    eotFound := false;
    var eventno := 1;
    while eventno <= track.numberOfEvents
      invariant 1 <= eventno <= |t| + 1
      invariant CheckEvents(t, 0, false) == CheckEvents(t, eventno - 1, eotFound)
      invariant eotFound <==> HasEot(t[..eventno - 1])
      decreases |t| - eventno
    {
      var event := track.events[eventno - 1];
      assert t[eventno - 1].bytes == event.bytes;
      HasEotGrows(t, eventno - 1);
      match Validity(event.bytes) {
        case Abort =>
          return Aborts, eotFound;
        case Ok(true) =>
          if IsEot(event.bytes) {
            if eotFound {
              return Refused(-6), eotFound;
            }
            eotFound := true;
          }
        case _ =>
          return Refused(-5), eotFound;
      }
      eventno := eventno + 1;
    }
    assert t[..eventno - 1] == t;
    v := Accepted;
  }

  lemma EotStep(s: Song, k: nat)
    requires Sound(s) && k < |s.tracks|
    ensures LastTime(s.tracks[k]) + 0 >= 0
    ensures !HasEot(s.tracks[k]) ==>
              AddStep(s, k, Ev(LastTime(s.tracks[k]) + 0, [0xFF, 0x2F, 0x00]))
                  == s.(tracks := s.tracks[k := WithEot(s.tracks[k])])
  {
    LastTimeNatural(s.tracks[k]);
    if !HasEot(s.tracks[k]) {
      AppendEot(s.tracks[k]);
    }
  }

  lemma CompletedStep(v: seq<Track>, k: nat)
    requires k < |v|
    ensures Completed(v, k + 1) == Completed(v, k)[k := WithEot(v[k])] && Completed(v, k)[k] == v[k]
    ensures HasEot(v[k]) ==> Completed(v, k + 1) == Completed(v, k)
  {
  }

  lemma CheckStep(v: seq<Track>, k: nat)
    requires k < |v|
    ensures CheckEvents(v[k], 0, false) == Accepted ==>
              CheckTracks(v, k) == CheckTracks(v, k + 1) && Passing(v, k) == Passing(v, k + 1)
    ensures CheckEvents(v[k], 0, false) != Accepted ==>
              CheckTracks(v, k) == CheckEvents(v[k], 0, false) && Passing(v, k) == k
  {
  }

  lemma AtStart(ts: seq<SmfTrack>)
    ensures (forall j :: 0 <= j < |ts| ==> ts[j].NumberAt(0)) <==>
            forall j :: 0 <= j < |ts| ==> ts[j].nextEventNumber == if ts[j].contents == [] then -1 else 1
  {
    assert forall j :: 0 <= j < |ts| ==>
      (ts[j].NumberAt(0) <==> ts[j].nextEventNumber == if ts[j].contents == [] then -1 else 1);
  }

  lemma EotAdded(v: seq<Track>, k: nat)
    requires k < |v| && !HasEot(v[k])
    ensures |Completed(v, k + 1)[k]| == |v[k]| + 1
  {
  }

  lemma Verdicts(format: int, ppqn: int, v: seq<Track>)
    ensures format < 0 || format > 2 ==> CheckSong(format, ppqn, v) == Refused(-1)
    ensures 0 <= format <= 2 && |v| < 1 ==> CheckSong(format, ppqn, v) == Refused(-2)
    ensures format == 0 && |v| > 1 ==> CheckSong(format, ppqn, v) == Refused(-3)
    ensures 0 <= format <= 2 && |v| >= 1 && (format == 0 ==> |v| <= 1) && ppqn <= 0 ==>
              CheckSong(format, ppqn, v) == Refused(-4)
    ensures if 0 <= format <= 2 && |v| >= 1 && (format == 0 ==> |v| <= 1) && ppqn > 0
            then CheckSong(format, ppqn, v) == CheckTracks(v, 0)
                && Checked(format, ppqn, v) == Completed(v, Passing(v, 0))
            else Checked(format, ppqn, v) == v
    ensures Completed(v, 0) == v && CheckTracks(v, |v|) == Accepted && Passing(v, |v|) == |v|
  {
  }

  /** The End Of Track that `smf_validate` adds to a track without one. */
  method CompleteTrack(smf: Smf, track: SmfTrack, ghost v: seq<Track>, ghost k: nat)
    requires smf.Structure() && smf.EmptyIdle() && Workable(Song(smf.ppqn, smf.view, smf.tempos)) && smf.tempos != []
    requires k < |v| == |smf.tracks| && smf.tracks[k] == track && smf.view == Completed(v, k) && !HasEot(v[k])
    requires forall j :: 0 <= j < |smf.tracks| ==> smf.tracks[j].NumberAt(0)
    modifies smf`view, smf`lists, smf`pool, smf`tempos, smf`lastSeekPosition, smf`cursors
    modifies smf.tracks`nextEventNumber, smf.tracks`timeOfNextEvent
    modifies track`events, track`numberOfEvents, track`contents
    modifies smf.pool`eventNumber, smf.pool`delta, smf.pool`seconds, smf.pool`track, smf.pool`time
    ensures smf.Structure() && smf.EmptyIdle() && Workable(Song(smf.ppqn, smf.view, smf.tempos))
    ensures smf.view == Completed(v, k + 1)
    ensures smf.tempos == old(smf.tempos) && smf.ppqn > 0 && fresh(smf.pool - old(smf.pool))
    ensures forall j :: 0 <= j < |smf.tracks| ==> smf.tracks[j].NumberAt(0)
    ensures old(smf.InSyncWithRebuild()) ==> smf.InSyncWithRebuild()
    ensures forall e :: e in smf.pool && e in old(smf.pool) ==> e.time == old(e.time) && e.seconds == old(e.seconds)
    ensures forall e :: e in smf.pool && e !in old(smf.pool) ==>
              Lookup(smf.tempos, e.time) >= 0 && e.seconds == SecondsAt(smf.tempos, smf.ppqn, e.time)
  {
    hide *;
    smf.Mirrored();
    CompletedStep(v, k);
    WorkableSound(Song(smf.ppqn, smf.view, smf.tempos));
    EotStep(Song(smf.ppqn, smf.view, smf.tempos), k);
    track.SyncedMeans();
    AtStart(smf.tracks);
    var failed := smf.AddEotDeltaPulses(track, k, 0);
    smf.Mirrored();
    track.SyncedMeans();
    EotAdded(v, k);
    AtStart(smf.tracks);
    WorkableSound(Song(smf.ppqn, smf.view, smf.tempos));
  }

  /** The body of the loop over tracks in `smf_validate`: check track k, and complete it. */
  method ValidateTrack(smf: Smf, track: SmfTrack, ghost v: seq<Track>, ghost k: nat) returns (verdict: Validation)
    requires smf.Structure() && smf.EmptyIdle() && Workable(Song(smf.ppqn, smf.view, smf.tempos))
    requires k < |v| == |smf.tracks| && smf.tracks[k] == track && smf.view == Completed(v, k)
    requires forall j :: 0 <= j < |smf.tracks| ==> smf.tracks[j].NumberAt(0)
    modifies smf`view, smf`lists, smf`pool, smf`tempos, smf`lastSeekPosition, smf`cursors
    modifies smf.tracks`nextEventNumber, smf.tracks`timeOfNextEvent
    modifies track`events, track`numberOfEvents, track`contents
    modifies smf.pool`eventNumber, smf.pool`delta, smf.pool`seconds, smf.pool`track, smf.pool`time
    ensures smf.Structure() && smf.EmptyIdle() && Workable(Song(smf.ppqn, smf.view, smf.tempos))
    ensures verdict == if CheckEvents(v[k], 0, false) == Accepted && smf.tempos == [] && !HasEot(v[k]) then Aborts
                       else CheckEvents(v[k], 0, false)
    ensures smf.view == Completed(v, if verdict == Accepted then k + 1 else k)
    ensures smf.tempos == old(smf.tempos) && smf.ppqn > 0 && fresh(smf.pool - old(smf.pool))
    ensures forall j :: 0 <= j < |smf.tracks| ==> smf.tracks[j].NumberAt(0)
    ensures old(smf.InSyncWithRebuild()) ==> smf.InSyncWithRebuild()
    ensures forall e :: e in smf.pool && e in old(smf.pool) ==> e.time == old(e.time) && e.seconds == old(e.seconds)
    ensures forall e :: e in smf.pool && e !in old(smf.pool) ==>
              Lookup(smf.tempos, e.time) >= 0 && e.seconds == SecondsAt(smf.tempos, smf.ppqn, e.time)
  {
    hide *;
    smf.Mirrored();
    CompletedStep(v, k);
    var eotFound;
    verdict, eotFound := CheckTrack(track);
    if verdict == Accepted && !eotFound {
      if smf.tempos == [] {
        return Aborts;
      }
      CompleteTrack(smf, track, v, k);
    }
  }

  /** `smf_validate`. */
  method Validate(smf: Smf) returns (r: Validation)
    requires smf.Structure() && smf.EmptyIdle() && Workable(Song(smf.ppqn, smf.view, smf.tempos))
    requires forall j :: 0 <= j < |smf.tracks| ==> smf.tracks[j].NumberAt(0)
    modifies smf`view, smf`lists, smf`pool, smf`tempos, smf`lastSeekPosition, smf`cursors
    modifies smf.tracks`nextEventNumber, smf.tracks`timeOfNextEvent
    modifies smf.tracks`events, smf.tracks`numberOfEvents, smf.tracks`contents
    modifies smf.pool`eventNumber, smf.pool`delta, smf.pool`seconds, smf.pool`track, smf.pool`time
    ensures smf.Structure() && smf.EmptyIdle() && Workable(Song(smf.ppqn, smf.view, smf.tempos))
    ensures r == Verdict(smf.format, smf.ppqn, smf.tempos != [], old(smf.view))
    ensures smf.view == Validated(smf.format, smf.ppqn, smf.tempos != [], old(smf.view))
              && smf.tempos == old(smf.tempos)
    ensures forall j :: 0 <= j < |smf.tracks| ==> smf.tracks[j].NumberAt(0)
    ensures old(smf.InSyncWithRebuild()) ==> smf.InSyncWithRebuild()
    ensures forall e :: e in smf.pool && e in old(smf.pool) ==> e.time == old(e.time) && e.seconds == old(e.seconds)
    ensures forall e :: e in smf.pool && e !in old(smf.pool) ==>
              Lookup(smf.tempos, e.time) >= 0 && e.seconds == SecondsAt(smf.tempos, smf.ppqn, e.time)
  {
    hide *;
    ghost var v := smf.view;
    smf.Mirrored();
    Verdicts(smf.format, smf.ppqn, v);
    VerdictIs(smf.format, smf.ppqn, smf.tempos != [], v);
    if smf.format < 0 || smf.format > 2 {
      return Refused(-1);
    }
    if smf.numberOfTracks < 1 {
      return Refused(-2);
    }
    if smf.format == 0 && smf.numberOfTracks > 1 {
      return Refused(-3);
    }
    if smf.ppqn <= 0 {
      return Refused(-4);
    }
    r := ValidateTracks(smf);
  }

  /** The loop over tracks in `smf_validate`. */
  method ValidateTracks(smf: Smf) returns (r: Validation)
    requires smf.Structure() && smf.EmptyIdle() && Workable(Song(smf.ppqn, smf.view, smf.tempos))
    requires forall j :: 0 <= j < |smf.tracks| ==> smf.tracks[j].NumberAt(0)
    modifies smf`view, smf`lists, smf`pool, smf`tempos, smf`lastSeekPosition, smf`cursors
    modifies smf.tracks`nextEventNumber, smf.tracks`timeOfNextEvent
    modifies smf.tracks`events, smf.tracks`numberOfEvents, smf.tracks`contents
    modifies smf.pool`eventNumber, smf.pool`delta, smf.pool`seconds, smf.pool`track, smf.pool`time
    ensures smf.Structure() && smf.EmptyIdle() && Workable(Song(smf.ppqn, smf.view, smf.tempos))
    ensures var v := old(smf.view);
            var full := Completed(v, Passing(v, 0));
            if smf.tempos == [] && full != v then r == Aborts && smf.view == v
            else r == CheckTracks(v, 0) && smf.view == full
    ensures smf.tempos == old(smf.tempos)
    ensures forall j :: 0 <= j < |smf.tracks| ==> smf.tracks[j].NumberAt(0)
    ensures old(smf.InSyncWithRebuild()) ==> smf.InSyncWithRebuild()
    ensures forall e :: e in smf.pool && e in old(smf.pool) ==> e.time == old(e.time) && e.seconds == old(e.seconds)
    ensures forall e :: e in smf.pool && e !in old(smf.pool) ==>
              Lookup(smf.tempos, e.time) >= 0 && e.seconds == SecondsAt(smf.tempos, smf.ppqn, e.time)
  {
    hide *;
    ghost var v := smf.view;
    smf.Mirrored();
    Verdicts(smf.format, smf.ppqn, v);
    var trackno := 1;
    while trackno <= smf.numberOfTracks
      invariant 1 <= trackno <= smf.numberOfTracks + 1
      invariant smf.Structure() && smf.EmptyIdle() && Workable(Song(smf.ppqn, smf.view, smf.tempos))
      invariant smf.tempos == old(smf.tempos) && fresh(smf.pool - old(smf.pool))
      invariant forall j :: 0 <= j < |smf.tracks| ==> smf.tracks[j].NumberAt(0)
      invariant smf.ppqn > 0 && smf.view == Completed(v, trackno - 1) && (smf.tempos == [] ==> smf.view == v)
      invariant CheckTracks(v, 0) == CheckTracks(v, trackno - 1) && Passing(v, 0) == Passing(v, trackno - 1)
      invariant old(smf.InSyncWithRebuild()) ==> smf.InSyncWithRebuild()
      invariant forall e :: e in smf.pool && e in old(smf.pool) ==> e.time == old(e.time) && e.seconds == old(e.seconds)
      invariant forall e :: e in smf.pool && e !in old(smf.pool) ==>
                  Lookup(smf.tempos, e.time) >= 0 && e.seconds == SecondsAt(smf.tempos, smf.ppqn, e.time)
    {
      CheckStep(v, trackno - 1);
      CompletedStep(v, trackno - 1);
      var verdict := ValidateTrack(smf, smf.tracks[trackno - 1], v, trackno - 1);
      if verdict != Accepted {
        if smf.tempos == [] && CheckEvents(v[trackno - 1], 0, false) == Accepted {
          Lacking(v, trackno - 1);
        }
        return verdict;
      }
      trackno := trackno + 1;
    }
    r := Accepted;
  }

  datatype SaveOutcome = Saved(file: seq<Byte>) | NotSaved | SaveAborted

  /** `pointers_are_clear`. */
  ghost predicate Clear(ts: seq<SmfTrack>)
    reads ts`bufferStart, ts`bufferLength
  {
    forall j :: 0 <= j < |ts| ==> ts[j].bufferStart == -1 && ts[j].bufferLength == 0
  }

  ghost predicate AllFit(v: seq<Track>) {
    forall k :: 0 <= k < |v| ==> Fits(v[k])
  }

  lemma CompletedFit(v: seq<Track>)
    requires AllFit(v)
    ensures AllFit(Completed(v, |v|))
  {
    forall k | 0 <= k < |v| ensures Fits(WithEot(v[k])) {
      var t := v[k];
      forall i | 0 <= i < |WithEot(t)|
        ensures Delta(WithEot(t), i) < 0x8000_0000 && |WithEot(t)[i].bytes| < 0x8000_0000
      {
        if i < |t| {
          assert Delta(WithEot(t), i) == Delta(t, i);
        }
      }
    }
  }

  lemma ChunksUnfold(v: seq<Track>, k: nat)
    requires GoodTracks(v) && k <= |v|
    ensures k == |v| ==> TrackChunks(v, k) == []
    ensures k < |v| ==> Writable(v[k]) && TrackChunks(v, k) == Chunk(MTRK, Body(v[k], 0)) + TrackChunks(v, k + 1)
    ensures AllFit(v) && k < |v| ==> Fits(v[k])
  {
  }

  lemma Others(ts: seq<SmfTrack>, i: nat)
    requires Distinct(ts) && i < |ts|
    ensures forall j :: 0 <= j < |ts| && j != i ==> ts[j] != ts[i]
  {
    forall j | 0 <= j < |ts| && j != i ensures ts[j] != ts[i] {
      assert Index(ts, ts[j]) == j && Index(ts, ts[i]) == i;
    }
  }

  lemma ClearMeans(ts: seq<SmfTrack>)
    requires Clear(ts)
    ensures forall j :: 0 <= j < |ts| ==> ts[j].bufferStart == -1 && ts[j].bufferLength == 0
  {
  }

  /** The loop of `smf_save`: one chunk a track. */
  method WriteTracks(smf: Smf)
    requires smf.Structure() && Distinct(smf.tracks) && Clear(smf.tracks) && GoodTracks(smf.view) && AllFit(smf.view)
    requires forall j :: 0 <= j < |smf.tracks| ==> smf.tracks[j].NumberAt(0)
    modifies smf`fileBuffer, smf.tracks`bufferStart, smf.tracks`bufferLength
    modifies smf.tracks`nextEventNumber, smf.tracks`timeOfNextEvent
    ensures smf.Structure() && smf.fileBuffer == old(smf.fileBuffer) + TrackChunks(smf.view, 0)
  {
    hide *;
    smf.Mirrored();
    ClearMeans(smf.tracks);
    assert smf.fileBuffer + TrackChunks(smf.view, 0) == old(smf.fileBuffer) + TrackChunks(smf.view, 0);
    var i := 1;
    while i <= smf.numberOfTracks
      invariant 1 <= i <= smf.numberOfTracks + 1 && smf.Structure()
      invariant forall j :: i - 1 <= j < |smf.tracks| ==>
                  smf.tracks[j].NumberAt(0) && smf.tracks[j].bufferStart == -1 && smf.tracks[j].bufferLength == 0
      invariant smf.fileBuffer + TrackChunks(smf.view, i - 1) == old(smf.fileBuffer) + TrackChunks(smf.view, 0)
    {
      var track := smf.tracks[i - 1];
      smf.Mirrored();
      ChunksUnfold(smf.view, i - 1);
      Others(smf.tracks, i - 1);
      ghost var before, chunk := smf.fileBuffer, Chunk(MTRK, Body(smf.view[i - 1], 0));
      WriteTrack(smf, track);
      assert before + (chunk + TrackChunks(smf.view, i)) == (before + chunk) + TrackChunks(smf.view, i);
      i := i + 1;
    }
    ChunksUnfold(smf.view, i - 1);
    assert smf.fileBuffer + [] == smf.fileBuffer;
  }

  /** `free_buffer`. */
  method FreeBuffer(smf: Smf)
    requires smf.numberOfTracks == |smf.tracks|
    modifies smf`fileBuffer, smf.tracks`bufferStart, smf.tracks`bufferLength
    ensures smf.fileBuffer == [] && Clear(smf.tracks)
  {
    smf.fileBuffer := [];
    var i := 1;
    while i <= smf.numberOfTracks
      invariant 1 <= i <= smf.numberOfTracks + 1 && smf.fileBuffer == []
      invariant forall j :: 0 <= j < i - 1 ==> smf.tracks[j].bufferStart == -1 && smf.tracks[j].bufferLength == 0
    {
      smf.tracks[i - 1].bufferStart := -1;
      smf.tracks[i - 1].bufferLength := 0;
      i := i + 1;
    }
  }

  lemma AboutToWrite(format: int, ppqn: int, timed: bool, v: seq<Track>)
    requires ValidTracks(v) && AllFit(v) && Verdict(format, ppqn, timed, v) == Accepted
    ensures var w := Validated(format, ppqn, timed, v);
            format >= 0 && ppqn >= 0 && Savable(format, ppqn, w) && GoodTracks(w) && AllFit(w)
  {
    VerdictIs(format, ppqn, timed, v);
    CheckSongIff(format, ppqn, v);
    CompletedFit(v);
  }

  lemma WrittenFile(format: nat, ppqn: nat, w: seq<Track>, header: seq<Byte>)
    requires AllWritable(w) && header == [] + Header(format, |w|, ppqn)
    ensures header + TrackChunks(w, 0) == FileBytes(format, ppqn, w)
  {
  }

  /** The part of `smf_save` behind the checks: the file, and the buffer free again. */
  method WriteSong(smf: Smf) returns (file: seq<Byte>)
    requires smf.Structure() && smf.format >= 0 && smf.ppqn >= 0 && Savable(smf.format, smf.ppqn, smf.view)
    requires GoodTracks(smf.view) && AllFit(smf.view) && smf.fileBuffer == [] && Clear(smf.tracks)
    requires forall j :: 0 <= j < |smf.tracks| ==> smf.tracks[j].NumberAt(0)
    modifies smf`fileBuffer, smf.tracks`bufferStart, smf.tracks`bufferLength
    modifies smf.tracks`nextEventNumber, smf.tracks`timeOfNextEvent
    ensures smf.Structure() && smf.fileBuffer == [] && Clear(smf.tracks)
    ensures AllWritable(smf.view) && file == FileBytes(smf.format, smf.ppqn, smf.view)
  {
    hide *;
    smf.Mirrored();
    smf.DistinctTracks();
    WriteMthdHeader(smf);
    ghost var header := smf.fileBuffer;
    WriteTracks(smf);
    WrittenFile(smf.format, smf.ppqn, smf.view, header);
    file := smf.fileBuffer;
    FreeBuffer(smf);
  }

  /** `smf_save` up to the file write; what would be written is returned. */
  method Save(smf: Smf) returns (r: SaveOutcome)
    requires smf.Structure() && smf.EmptyIdle() && Workable(Song(smf.ppqn, smf.view, smf.tempos))
    requires smf.fileBuffer == [] && Clear(smf.tracks) && AllFit(smf.view)
    modifies smf`view, smf`lists, smf`pool, smf`tempos, smf`lastSeekPosition, smf`cursors, smf`fileBuffer
    modifies smf.tracks`nextEventNumber, smf.tracks`timeOfNextEvent, smf.tracks`bufferStart, smf.tracks`bufferLength
    modifies smf.tracks`events, smf.tracks`numberOfEvents, smf.tracks`contents
    modifies smf.pool`eventNumber, smf.pool`delta, smf.pool`seconds, smf.pool`track, smf.pool`time
    ensures smf.Structure() && Workable(Song(smf.ppqn, smf.view, smf.tempos)) && smf.tempos == old(smf.tempos)
    ensures smf.fileBuffer == [] && Clear(smf.tracks)
    ensures smf.view == Validated(smf.format, smf.ppqn, smf.tempos != [], old(smf.view))
    ensures r.Saved? <==> Verdict(smf.format, smf.ppqn, smf.tempos != [], old(smf.view)) == Accepted
    ensures r.SaveAborted? <==> Verdict(smf.format, smf.ppqn, smf.tempos != [], old(smf.view)) == Aborts
    ensures r.Saved? ==> smf.format >= 0 && smf.ppqn >= 0 && Savable(smf.format, smf.ppqn, smf.view)
    ensures r.Saved? ==> AllWritable(smf.view) && r.file == FileBytes(smf.format, smf.ppqn, smf.view)
    ensures old(smf.InSyncWithRebuild()) ==> smf.InSyncWithRebuild()
    ensures forall e :: e in smf.pool && e in old(smf.pool) ==> e.time == old(e.time) && e.seconds == old(e.seconds)
    ensures forall e :: e in smf.pool && e !in old(smf.pool) ==>
              Lookup(smf.tempos, e.time) >= 0 && e.seconds == SecondsAt(smf.tempos, smf.ppqn, e.time)
  {
    hide *;
    smf.Rewind();
    smf.ViewValid();
    var verdict := Validate(smf);
    if verdict == Aborts {
      return SaveAborted;
    }
    if verdict != Accepted {
      return NotSaved;
    }
    AboutToWrite(smf.format, smf.ppqn, smf.tempos != [], old(smf.view));
    var file := WriteSong(smf);
    r := Saved(file);
  }
}
