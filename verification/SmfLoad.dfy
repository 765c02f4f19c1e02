/**
 Loading: the offsets `smf_load_from_memory` advances over the file, and the song it
 builds by attaching each parsed event.
 */
module SmfLoad {
  import opened Bytes
  import opened Chunks
  import opened Vlq
  import opened Tracks
  import Playback
  import opened TempoMap
  import opened Incremental
  import opened Edits
  import opened SmfTracks
  import opened SmfSong
  import opened SmfFormat

  /** A song under construction: map and event times are those of a rebuild. */
  ghost predicate Loadable(smf: Smf)
    reads smf`tracks, smf`numberOfTracks, smf`ppqn, smf`pool, smf`view, smf`lists, smf`tempos
    reads smf.tracks`smf, smf.tracks`trackNumber, smf.tracks`numberOfEvents, smf.tracks`events, smf.tracks`contents
    reads smf.tracks`nextEventNumber
    reads smf.pool`track, smf.pool`trackNumber, smf.pool`eventNumber, smf.pool`delta, smf.pool`time, smf.pool`seconds
  {
    smf.Structure() && smf.EmptyIdle() && smf.InSyncWithRebuild()
  }

  lemma LoadableMeans(smf: Smf)
    requires Loadable(smf)
    ensures smf.Structure() && smf.EmptyIdle() && smf.InSyncWithRebuild()
    ensures smf.ppqn > 0 && ValidMap(smf.tempos, smf.ppqn)
    ensures Sound(Song(smf.ppqn, smf.view, smf.tempos)) && InSync(Song(smf.ppqn, smf.view, smf.tempos))
    ensures |smf.view| == |smf.lists| == |smf.tracks| == smf.numberOfTracks
    ensures forall k :: 0 <= k < |smf.view| ==> |smf.view[k]| == |smf.lists[k]| && Valid(smf.view[k])
  {
    forall k | 0 <= k < |smf.view| ensures |smf.view[k]| == |smf.lists[k]| && Valid(smf.view[k]) {
      smf.Separate(k);
      smf.ViewValid();
    }
    RebuiltReached(smf.ppqn, smf.view, Length(smf.view));
  }

  lemma NowLoadable(smf: Smf)
    requires smf.Structure() && smf.EmptyIdle() && smf.InSyncWithRebuild()
    ensures Loadable(smf)
  {
  }

  /** The loader adds to the last track only, so nothing is ever played after the new event. */
  lemma LastHasNoRival(v: seq<Track>, e: Ev)
    requires v != []
    ensures NoRival(v, |v| - 1, e)
  {
  }

  /** `next_chunk`. */
  method AdvanceChunk(smf: Smf) returns (at: int, r: Outcome<ChunkHeader>)
    requires |smf.fileBuffer| < 0x8000_0000
    modifies smf`nextChunkOffset
    ensures at == old(smf.nextChunkOffset) && r == NextChunk(smf.fileBuffer, at)
    ensures smf.nextChunkOffset == if r.Ok? then r.value.next else at
  {
    var file := smf.fileBuffer;
    at := smf.nextChunkOffset;
    if file == [] || at < 0 {
      return at, Abort;
    }
    if at + 8 >= |file| {
      return at, Fail;
    }
    var id := file[at..at + 4];
    if !IsAlpha(id[0]) || !IsAlpha(id[1]) || !IsAlpha(id[2]) || !IsAlpha(id[3]) {
      return at, Fail;
    }
    var length := FromBe32(file[at + 4..at + 8]);
    smf.nextChunkOffset := Int32(at + 8 + length);
    if smf.nextChunkOffset > |file| {
      smf.nextChunkOffset := |file|;
    }
    r := Ok(ChunkHeader(id, length, smf.nextChunkOffset));
  }

  /** `parse_mthd_chunk`: the number of tracks announced. */
  method ParseMthdChunk(smf: Smf, mem: Memory) returns (r: Outcome<nat>)
    requires smf.fileBuffer == mem.file && smf.nextChunkOffset == 0 && |mem.file| < 0x8000_0000
    modifies smf`nextChunkOffset, smf`format, smf`ppqn
    ensures match ParseHeader(mem)
            case Abort => r == Abort
            case Fail => r == Fail
            case Ok(h) =>
              && r == Ok(h.tracks) && smf.format == h.format && smf.ppqn == h.ppqn
              && smf.nextChunkOffset == h.next
  {
    if |smf.fileBuffer| < 6 {
      return Fail;
    }
    if smf.fileBuffer[..4] != MTHD {
      return Fail;
    }
    var at, header := AdvanceChunk(smf);
    if header.Abort? {
      return Abort;
    }
    if header.Fail? {
      return Fail;
    }
    if header.value.length != 6 {
      return Fail;
    }
    smf.format := FromBe16(mem.Stretch(8, 2));
    if smf.format < 0 || smf.format > 2 {
      return Fail;
    }
    if smf.format == 2 {
      return Fail;
    }
    var expected := FromBe16(mem.Stretch(10, 2));
    if expected == 0 {
      return Fail;
    }
    var division := mem.Stretch(12, 2);
    if division[0] < 128 {
      smf.ppqn := FromBe16(division);
    } else {
      smf.ppqn := 0;
    }
    if smf.ppqn == 0 {
      return Fail;
    }
    r := Ok(expected);
  }

  // ------------------------------------------------------------------- events

  /** What is left to parse of a track's chunk. */
  ghost predicate Parsing(track: SmfTrack, mem: Memory, buf: seq<Byte>)
    reads track`bufferStart, track`bufferLength, track`nextEventOffset
  {
    && track.bufferStart >= 0 && 8 <= track.nextEventOffset <= track.bufferLength
    && buf == mem.Stretch(track.bufferStart + track.nextEventOffset, track.bufferLength - track.nextEventOffset)
  }

  lemma StretchSuffix(mem: Memory, from: nat, length: nat, n: nat)
    requires n <= length
    ensures mem.Stretch(from, length)[n..] == mem.Stretch(from + n, length - n)
  {
  }

  lemma ParsingMeans(track: SmfTrack, mem: Memory, buf: seq<Byte>)
    requires Parsing(track, mem, buf)
    ensures track.bufferStart >= 0 && 8 <= track.nextEventOffset <= track.bufferLength
    ensures buf == mem.Stretch(track.bufferStart + track.nextEventOffset, track.bufferLength - track.nextEventOffset)
  {
  }

  lemma ParsedOn(track: SmfTrack, mem: Memory, buf: seq<Byte>, offset: int, used: nat)
    requires track.bufferStart >= 0 && 8 <= offset <= track.bufferLength && used <= |buf|
    requires buf == mem.Stretch(track.bufferStart + offset, track.bufferLength - offset)
    requires track.nextEventOffset == offset + used
    ensures Parsing(track, mem, buf[used..])
  {
    StretchSuffix(mem, track.bufferStart + offset, track.bufferLength - offset, used);
  }

  lemma ParseEventUnfold(c: seq<Byte>, last: Byte)
    ensures c == [] ==> ParseEvent(c, last) == Abort
    ensures c != [] && !Extraction(c).Extracted? ==> ParseEvent(c, last) == Fail
    ensures c != [] && Extraction(c).Extracted? && Extraction(c).len >= |c| ==> ParseEvent(c, last) == Fail
    ensures c != [] && Extraction(c).Extracted? && Extraction(c).len < |c| ==>
              var delta, n := Extraction(c).value, Extraction(c).len;
              var x := ExtractMidi(c[n..], last);
              && (x.Abort? ==> ParseEvent(c, last) == Abort)
              && (x.Fail? ==> ParseEvent(c, last) == Fail)
              && (x.Ok? ==> ParseEvent(c, last) == Ok((delta, x.value.0, n + x.value.1))
                            && x.value.0 != [] && n + x.value.1 <= |c|)
  {
    hide ExtractMidi, Extraction;
  }

  /** The tracks after an add that keeps the song loadable. */
  lemma AddedLoadable(smf: Smf, s: Song, k: nat, delta: nat, m: Message)
    requires smf.Structure() && smf.EmptyIdle() && smf.InSyncWithRebuild() && Sound(s) && k < |s.tracks|
    requires LastTime(s.tracks[k]) + delta >= 0
    requires Song(smf.ppqn, smf.view, smf.tempos) == AddStep(s, k, Ev(LastTime(s.tracks[k]) + delta, m))
    ensures Loadable(smf) && smf.view == s.tracks[k := Add(s.tracks[k], Ev(LastTime(s.tracks[k]) + delta, m))]
  {
  }

  /** The event just parsed is added to the track, the last of the song. */
  method AddParsed(smf: Smf, track: SmfTrack, ghost k: nat, event: SmfEvent, delta: nat)
    requires Loadable(smf) && k == |smf.tracks| - 1 == |smf.view| - 1 && smf.tracks[k] == track
    requires event.Detached() && event.time == -1 && event.seconds == -1.0
    modifies smf`view, smf`lists, smf`pool, smf`tempos, smf`lastSeekPosition, smf`cursors
    modifies smf.tracks`nextEventNumber, smf.tracks`timeOfNextEvent
    modifies track`events, track`numberOfEvents, track`contents
    modifies smf.pool`eventNumber, smf.pool`delta, smf.pool`seconds, smf.pool`track, smf.pool`time
    modifies event`track, event`trackNumber, event`eventNumber, event`delta, event`seconds, event`time
    ensures Loadable(smf) && smf.pool <= old(smf.pool) + {event}
    ensures smf.view == old(smf.view)[k := Add(old(smf.view)[k], Ev(LastTime(old(smf.view)[k]) + delta, event.bytes))]
  {
    hide *;
    LoadableMeans(smf);
    LastHasNoRival(smf.view, Ev(LastTime(smf.view[k]) + delta, event.bytes));
    smf.AddEventDeltaPulses(track, k, event, delta);
    AddedLoadable(smf, old(Song(smf.ppqn, smf.view, smf.tempos)), k, delta, event.bytes);
  }

  /** `parse_next_event`. */
  method ParseNextEvent(smf: Smf, track: SmfTrack, ghost k: nat, mem: Memory, ghost buf: seq<Byte>)
    returns (r: Outcome<SmfEvent>)
    requires Loadable(smf) && k == |smf.tracks| - 1 == |smf.view| - 1 && smf.tracks[k] == track
               && Parsing(track, mem, buf)
    modifies smf`view, smf`lists, smf`pool, smf`tempos, smf`lastSeekPosition, smf`cursors
    modifies smf.tracks`nextEventNumber, smf.tracks`timeOfNextEvent
    modifies track`events, track`numberOfEvents, track`contents, track`lastStatus, track`nextEventOffset
    modifies smf.pool`eventNumber, smf.pool`delta, smf.pool`seconds, smf.pool`track, smf.pool`time
    ensures Loadable(smf) && fresh(smf.pool - old(smf.pool))
    ensures match ParseEvent(buf, old(track.lastStatus))
            case Abort => r == Abort && smf.view == old(smf.view)
            case Fail => r == Fail && smf.view == old(smf.view)
            case Ok((delta, m, used)) =>
              && r.Ok? && r.value.bytes == m && track.lastStatus == m[0] && used <= |buf|
              && smf.view == old(smf.view)[k := Add(old(smf.view)[k], Ev(LastTime(old(smf.view)[k]) + delta, m))]
              && Parsing(track, mem, buf[used..])
  {
    hide *;
    LoadableMeans(smf);
    ParsingMeans(track, mem, buf);
    var c := mem.Stretch(track.bufferStart + track.nextEventOffset, track.bufferLength - track.nextEventOffset);
    ParseEventUnfold(c, track.lastStatus);
    if c == [] {
      return Abort;
    }
    var time := ExtractVlq(c);
    if !time.Extracted? {
      return Fail;
    }
    if time.len >= |c| {
      return Fail;
    }
    var message := ExtractMidi(c[time.len..], track.lastStatus);
    if message.Fail? {
      return Fail;
    }
    if message.Abort? {
      return Abort;
    }
    var event := new SmfEvent(message.value.0);
    track.lastStatus := event.bytes[0];
    track.nextEventOffset := track.nextEventOffset + (time.len + message.value.1);
    AddParsed(smf, track, k, event, time.value);
    ParsedOn(track, mem, buf, old(track.nextEventOffset), time.len + message.value.1);
    r := Ok(event);
  }

  // ------------------------------------------------------------------- tracks

  lemma ParseEventsUnfold(buf: seq<Byte>, last: Byte, t: Track)
    ensures match ParseEvent(buf, last)
            case Abort => ParseEvents(buf, last, t) == Abort
            case Fail => ParseEvents(buf, last, t) == Ok(Add(t, Ev(LastTime(t), EOT)))
            case Ok((delta, m, used)) =>
              var grown := Add(t, Ev(LastTime(t) + delta, m));
              && 1 <= used <= |buf| && Good(m) && m != []
              && ParseEvents(buf, last, t) == if EndsTrack(m) then Ok(grown) else ParseEvents(buf[used..], m[0], grown)
  {
    hide ParseEvent, Add;
  }

  /** The loop of `parse_mtrk_chunk`. */
  method ParseTrackEvents(smf: Smf, track: SmfTrack, ghost k: nat, mem: Memory, ghost buf: seq<Byte>)
    returns (r: Outcome<()>)
    requires Loadable(smf) && k == |smf.tracks| - 1 == |smf.view| - 1 && smf.tracks[k] == track && smf.view[k] == []
    requires Parsing(track, mem, buf)
    modifies smf`view, smf`lists, smf`pool, smf`tempos, smf`lastSeekPosition, smf`cursors
    modifies smf.tracks`nextEventNumber, smf.tracks`timeOfNextEvent
    modifies track`events, track`numberOfEvents, track`contents, track`lastStatus, track`nextEventOffset
    modifies smf.pool`eventNumber, smf.pool`delta, smf.pool`seconds, smf.pool`track, smf.pool`time
    ensures Loadable(smf) && fresh(smf.pool - old(smf.pool))
    ensures r.Abort? <==> ParseEvents(buf, old(track.lastStatus), []).Abort?
    ensures !r.Abort? ==> r.Ok? && smf.view == old(smf.view)[k := ParseEvents(buf, old(track.lastStatus), []).value]
  {
    hide *;
    ghost var rest, t := buf, [];
    ghost var v := smf.view;
    while true
      invariant Loadable(smf) && fresh(smf.pool - old(smf.pool)) && Parsing(track, mem, rest)
      invariant smf.view == v[k := t]
                  && ParseEvents(rest, track.lastStatus, t) == ParseEvents(buf, old(track.lastStatus), [])
      decreases |rest|
    {
      ghost var last := track.lastStatus;
      ParseEventsUnfold(rest, last, t);
      var event := ParseNextEvent(smf, track, k, mem, rest);
      if event.Abort? {
        return Abort;
      }
      if event.Fail? {
        TruncateTrack(smf, track, k, t);
        break;
      }
      assert Good(event.value.bytes);
      ghost var (delta, m, used) := ParseEvent(rest, last).value;
      rest, t := rest[used..], Add(t, Ev(LastTime(t) + delta, m));
      if EndsTrack(event.value.bytes) {
        break;
      }
    }
    r := Ok(());
  }

  lemma EotIs()
    ensures EOT == [0xFF, 0x2F, 0x00]
  {
  }

  /** A track that cannot be parsed further gets an End Of Track. */
  method TruncateTrack(smf: Smf, track: SmfTrack, ghost k: nat, ghost t: Track)
    requires Loadable(smf) && k == |smf.tracks| - 1 == |smf.view| - 1 && smf.tracks[k] == track && smf.view[k] == t
    modifies smf`view, smf`lists, smf`pool, smf`tempos, smf`lastSeekPosition, smf`cursors
    modifies smf.tracks`nextEventNumber, smf.tracks`timeOfNextEvent
    modifies track`events, track`numberOfEvents, track`contents
    modifies smf.pool`eventNumber, smf.pool`delta, smf.pool`seconds, smf.pool`track, smf.pool`time
    ensures Loadable(smf) && fresh(smf.pool - old(smf.pool))
    ensures smf.view == old(smf.view)[k := Add(t, Ev(LastTime(t), EOT))]
  {
    hide *;
    LoadableMeans(smf);
    EotIs();
    var failed := smf.AddEotDeltaPulses(track, k, 0);
    AddedLoadable(smf, old(Song(smf.ppqn, smf.view, smf.tempos)), k, 0, EOT);
  }

  /** `parse_mtrk_chunk`. */
  method ParseMtrkChunk(smf: Smf, track: SmfTrack, ghost k: nat, mem: Memory) returns (r: Outcome<()>)
    requires Loadable(smf) && k == |smf.tracks| - 1 == |smf.view| - 1 && smf.tracks[k] == track && smf.view[k] == []
    requires track.lastStatus == 0 && smf.fileBuffer == mem.file && |mem.file| < 0x8000_0000
    modifies smf`view, smf`lists, smf`pool, smf`tempos, smf`lastSeekPosition, smf`cursors, smf`nextChunkOffset
    modifies smf.tracks`nextEventNumber, smf.tracks`timeOfNextEvent
    modifies track`events, track`numberOfEvents, track`contents, track`lastStatus, track`nextEventOffset
    modifies track`bufferStart, track`bufferLength
    modifies smf.pool`eventNumber, smf.pool`delta, smf.pool`seconds, smf.pool`track, smf.pool`time
    ensures Loadable(smf) && fresh(smf.pool - old(smf.pool))
    ensures match NextChunk(mem.file, old(smf.nextChunkOffset))
            case Abort => r == Abort
            case Fail => r == Fail && smf.nextChunkOffset == old(smf.nextChunkOffset) && smf.view == old(smf.view)
            case Ok(header) =>
              && smf.nextChunkOffset == header.next && old(smf.nextChunkOffset) >= 0
              && match ParseTrack(mem, old(smf.nextChunkOffset), header)
                 case Abort => r == Abort
                 case Fail => r == Fail && smf.view == old(smf.view)
                 case Ok(t) => r.Ok? && smf.view == old(smf.view)[k := t]
  {
    hide *;
    var at, header := AdvanceChunk(smf);
    if header.Abort? {
      return Abort;
    }
    if header.Fail? {
      return Fail;
    }
    ParseTrackUnfold(mem, at, header.value);
    if header.value.id != MTRK {
      return Fail;
    }
    track.bufferStart := at;
    track.bufferLength := Int32(8 + header.value.length);
    track.nextEventOffset := 8;
    if track.bufferLength <= 8 {
      return Abort;
    }
    ghost var buf := mem.Stretch(at + 8, track.bufferLength - 8);
    StartParsing(track, mem, buf);
    r := ParseTrackEvents(smf, track, k, mem, buf);
    track.bufferStart, track.bufferLength, track.nextEventOffset := -1, 0, -1;
  }

  lemma StartParsing(track: SmfTrack, mem: Memory, buf: seq<Byte>)
    requires track.bufferStart >= 0 && track.nextEventOffset == 8 <= track.bufferLength
    requires buf == mem.Stretch(track.bufferStart + 8, track.bufferLength - 8)
    ensures Parsing(track, mem, buf)
  {
  }

  lemma ParseTrackUnfold(mem: Memory, at: int, header: ChunkHeader)
    requires NextChunk(mem.file, at) == Ok(header)
    ensures at >= 0 && (header.id != MTRK ==> ParseTrack(mem, at, header) == Fail)
    ensures header.id == MTRK && Int32(8 + header.length) <= 8 ==> ParseTrack(mem, at, header) == Abort
    ensures header.id == MTRK && Int32(8 + header.length) > 8 ==>
              ParseTrack(mem, at, header) == ParseEvents(mem.Stretch(at + 8, Int32(8 + header.length) - 8), 0, [])
  {
    hide ParseEvents;
  }

  // --------------------------------------------------------------------- songs

  ghost function SoFar(smf: Smf): Loaded
    requires smf.format >= 0 && smf.ppqn >= 0
    reads smf`format, smf`ppqn, smf`view
  {
    Loaded(smf.format, smf.ppqn, smf.view)
  }

  lemma SoFarIs(smf: Smf)
    requires smf.format >= 0 && smf.ppqn >= 0
    ensures SoFar(smf) == Loaded(smf.format, smf.ppqn, smf.view)
  {
  }

  lemma GrowIs(s: Loaded, format: nat)
    requires format == if |s.tracks| + 1 > 1 then 1 else s.format
    ensures Grow(s) == s.(format := format)
  {
  }

  lemma Detach<T>(s: seq<T>, x: T)
    ensures RemoveAt(s + [x], |s|) == s
    ensures (s + [x])[|s|] == x
    ensures forall y :: (s + [x])[|s| := y] == s + [y]
  {
    assert (s + [x])[..|s|] + (s + [x])[|s| + 1..] == s;
    forall y ensures (s + [x])[|s| := y] == s + [y] {
      assert forall i :: 0 <= i <= |s| ==> (s + [x])[|s| := y][i] == (s + [y])[i];
    }
  }

  /** The body of the loop of `smf_load_from_memory`. */
  method LoadTrack(smf: Smf, mem: Memory, ghost left: nat) returns (r: Outcome<()>)
    requires Loadable(smf) && smf.fileBuffer == mem.file && |mem.file| < 0x8000_0000 && smf.format >= 0 && smf.ppqn >= 0
    modifies smf, smf.tracks, smf.pool
    ensures Loadable(smf) && smf.fileBuffer == mem.file && smf.format >= 0 && smf.ppqn >= 0
    ensures fresh(smf.pool - old(smf.pool))
    ensures forall j :: 0 <= j < |smf.tracks| ==> smf.tracks[j] in old(smf.tracks) || fresh(smf.tracks[j])
    ensures LoadTracks(mem, old(smf.nextChunkOffset), left + 1, old(SoFar(smf)))
         == if r.Abort? then Abort else LoadTracks(mem, smf.nextChunkOffset, left, SoFar(smf))
  {
    hide *;
    LoadableMeans(smf);
    SoFarIs(smf);
    LoadTracksUnfold(mem, smf.nextChunkOffset, left, SoFar(smf));
    ghost var k := |smf.tracks|;
    var track := AttachTrack(smf);
    GrowIs(old(SoFar(smf)), smf.format);
    r := FillTrack(smf, track, k, mem, old(smf.view));
    SoFarIs(smf);
  }

  /** Parse a chunk into the track just attached, or take the track off again. */
  method FillTrack(smf: Smf, track: SmfTrack, ghost k: nat, mem: Memory, ghost v: seq<Track>) returns (r: Outcome<()>)
    requires Loadable(smf) && smf.fileBuffer == mem.file && |mem.file| < 0x8000_0000 && track.lastStatus == 0
    requires k == |v| == |smf.tracks| - 1 && smf.tracks[k] == track && smf.view == v + [[]]
    modifies smf`view, smf`lists, smf`pool, smf`tempos, smf`lastSeekPosition, smf`cursors, smf`nextChunkOffset
    modifies smf`tracks, smf`numberOfTracks, smf.tracks, smf.pool
    ensures Loadable(smf) && fresh(smf.pool - old(smf.pool))
    ensures smf.tracks == old(smf.tracks) || smf.tracks == old(smf.tracks)[..k]
    ensures match NextChunk(mem.file, old(smf.nextChunkOffset))
            case Abort => r.Abort?
            case Fail => r.Fail? && smf.view == v && smf.nextChunkOffset == old(smf.nextChunkOffset)
            case Ok(header) =>
              && smf.nextChunkOffset == header.next && old(smf.nextChunkOffset) >= 0
              && match ParseTrack(mem, old(smf.nextChunkOffset), header)
                 case Abort => r.Abort?
                 case Fail => r.Fail? && smf.view == v
                 case Ok(t) => r.Ok? && smf.view == v + [t]
  {
    hide *;
    LoadableMeans(smf);
    Detach(v, []);
    r := ParseMtrkChunk(smf, track, k, mem);
    if r.Fail? {
      DropTrack(smf, track, k, v);
    }
  }

  /** `smf_track_new`, then `smf_add_track`. */
  method AttachTrack(smf: Smf) returns (track: SmfTrack)
    requires Loadable(smf)
    modifies smf`tracks, smf`numberOfTracks, smf`view, smf`lists, smf`pool, smf`format
    ensures Loadable(smf) && fresh(track) && track.lastStatus == 0 && smf.pool == old(smf.pool)
    ensures smf.tracks == old(smf.tracks) + [track] && smf.view == old(smf.view) + [[]]
    ensures |smf.tracks| == |smf.view| && smf.tracks[|old(smf.tracks)|] == track && smf.view[|old(smf.tracks)|] == []
    ensures smf.format == if |old(smf.view)| + 1 > 1 then 1 else old(smf.format)
  {
    hide *;
    LoadableMeans(smf);
    track := new SmfTrack();
    track.KeptIff(track.trackNumber);
    smf.AddTrack(track, track.trackNumber);
    NowLoadable(smf);
  }

  /** `smf_track_delete` on the last track, still empty. */
  method DropTrack(smf: Smf, track: SmfTrack, ghost k: nat, ghost v: seq<Track>)
    requires Loadable(smf) && k < |smf.tracks| && smf.tracks[k] == track && k == |v| == |smf.tracks| - 1
               && smf.view == v + [[]]
    modifies smf`tracks, smf`numberOfTracks, smf`view, smf`lists, smf`pool
    modifies smf.tracks`trackNumber, track`smf, smf.pool`trackNumber
    ensures Loadable(smf) && smf.view == v && smf.pool <= old(smf.pool)
    ensures smf.tracks == old(smf.tracks)[..k]
  {
    hide *;
    LoadableMeans(smf);
    ghost var was, l := smf.tracks, smf.lists;
    Detach(v, []);
    Detach(was[..k], was[k]);
    Detach(l[..k], l[k]);
    assert was == was[..k] + [was[k]] && l == l[..k] + [l[k]];
    EmptyNeutral(v);
    smf.RemoveTrack(track, k);
    NowLoadable(smf);
  }

  /** A track still empty goes without a trace. */
  lemma EmptyNeutral(v: seq<Track>)
    ensures |v + [[]]| == |v| + 1 && (v + [[]])[|v|] == [] && Neutral((v + [[]])[|v|])
  {
  }

  lemma NothingYet(smf: Smf)
    requires smf.tracks == [] && smf.view == [] && smf.lists == [] && smf.pool == {} && smf.numberOfTracks == 0
    requires smf.ppqn > 0 && smf.tempos == [INITIAL]
    ensures Loadable(smf)
  {
  }

  /** `smf_load_from_memory`. */
  method LoadFromMemory(mem: Memory) returns (r: Outcome<Smf>)
    requires |mem.file| < 0x8000_0000
    ensures match Load(mem)
            case Abort => r == Abort
            case Fail => r == Fail
            case Ok(s) =>
              && r.Ok? && fresh(r.value) && Loadable(r.value)
              && (forall j :: 0 <= j < |r.value.tracks| ==> fresh(r.value.tracks[j]))
              && r.value.format == s.format && r.value.ppqn == s.ppqn && r.value.view == s.tracks
  {
    hide *;
    var smf := new Smf();
    smf.Mirrored();
    smf.fileBuffer := mem.file;
    smf.nextChunkOffset := 0;
    LoadUnfold(mem);
    var expected := ParseMthdChunk(smf, mem);
    if expected.Abort? {
      return Abort;
    }
    if expected.Fail? {
      return Fail;
    }
    NothingYet(smf);
    SoFarIs(smf);
    var i := 1;
    while i <= expected.value
      invariant 1 <= i <= expected.value + 1
      invariant fresh(smf) && fresh(smf.pool) && forall j :: 0 <= j < |smf.tracks| ==> fresh(smf.tracks[j])
      invariant Loadable(smf) && smf.fileBuffer == mem.file && smf.format >= 0 && smf.ppqn >= 0
      invariant Load(mem) == LoadTracks(mem, smf.nextChunkOffset, expected.value + 1 - i, SoFar(smf))
    {
      var loaded := LoadTrack(smf, mem, expected.value - i);
      if loaded.Abort? {
        return Abort;
      }
      i := i + 1;
    }
    LoadTracksUnfold(mem, smf.nextChunkOffset, 0, SoFar(smf));
    SoFarIs(smf);
    smf.fileBuffer, smf.nextChunkOffset := [], -1;
    r := Ok(smf);
  }

  lemma LoadUnfold(mem: Memory)
    ensures match ParseHeader(mem)
            case Abort => Load(mem) == Abort
            case Fail => Load(mem) == Fail
            case Ok(h) =>
              && h.ppqn > 0 && h.tracks > 0
              && Load(mem) == LoadTracks(mem, h.next, h.tracks, Loaded(h.format, h.ppqn, []))
  {
    hide ParseHeader, LoadTracks;
  }

  /** `smf_load`, the file read: a song ready to be played from the start, its times those of a rebuild. */
  method LoadSong(mem: Memory) returns (r: Outcome<Smf>)
    requires |mem.file| < 0x8000_0000
    ensures match Load(mem)
            case Abort => r == Abort
            case Fail => r == Fail
            case Ok(s) =>
              && r.Ok? && fresh(r.value) && r.value.Structure() && r.value.Ready() && r.value.Playable()
              && r.value.InSyncWithRebuild()
              && r.value.format == s.format && r.value.ppqn == s.ppqn && r.value.view == s.tracks
              && r.value.Remaining() == Playback.PlayOrder(SongTimes(s.tracks))
  {
    r := LoadFromMemory(mem);
    if r.Ok? {
      r.value.Rewind();
    }
  }
}
