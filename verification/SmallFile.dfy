/**
 One small file, byte by byte: a tempo of half a second to the quarter note, one note of a
 quarter, and the end of the track.  Both writers write it and both readers read it.
 */
module SmallFile {
  import opened Bytes
  import opened Chunks
  import opened Tracks
  import opened Vlq
  import F = SmfFormat
  import M = MidiStream

  const TRACK: seq<Byte> := [
    0x00, 0xFF, 0x51, 0x03, 0x07, 0xA1, 0x20,
    0x00, 0x90, 0x3C, 0x40,
    0x60, 0x80, 0x3C, 0x40,
    0x00, 0xFF, 0x2F, 0x00]

  const FILE: seq<Byte> := [
    0x4D, 0x54, 0x68, 0x64, 0x00, 0x00, 0x00, 0x06, 0x00, 0x00, 0x00, 0x01, 0x00, 0x60,
    0x4D, 0x54, 0x72, 0x6B, 0x00, 0x00, 0x00, 0x13] + TRACK

  /** The track for libsmf, and the same events for the server. */
  const SONG: Track := [
    Ev(0, [0xFF, 0x51, 0x03, 0x07, 0xA1, 0x20]), Ev(0, [0x90, 0x3C, 0x40]), Ev(96, [0x80, 0x3C, 0x40]),
    Ev(96, [0xFF, 0x2F, 0x00])]

  const EVENTS: seq<M.Event> := [
    M.Event.Meta(0, 0x51, [0x07, 0xA1, 0x20]), M.Event.Channel(0, 0x90, 0, [0x3C, 0x40]),
    M.Event.Channel(96, 0x80, 0, [0x3C, 0x40]), M.Event.Meta(0, 0x2F, [])]

  lemma Quantities()
    ensures Encode(0) == Emitted(0) == [0x00] && Encode(3) == Emitted(3) == [0x03]
    ensures Encode(96) == Emitted(96) == [0x60]
  {
    WriterCorrectIff(0);
    WriterCorrectIff(3);
    WriterCorrectIff(96);
  }

  lemma HeaderBytes()
    ensures Header(0, 1, 96) == FILE[..14]
    ensures Chunk(MTRK, TRACK) == FILE[14..]
  {
  }

  lemma SmfTrackBytes()
    ensures F.Writable(SONG) && F.Body(SONG, 0) == TRACK
  {
    hide Encode;
    Quantities();
    assert F.Body(SONG, 4) == [];
    assert F.Body(SONG, 3) == TRACK[15..];
    assert F.Body(SONG, 2) == TRACK[11..];
    assert F.Body(SONG, 1) == TRACK[7..];
  }

  lemma EventBytes()
    ensures M.AllProper(EVENTS)
    ensures M.EventOut(EVENTS[0], 0) == TRACK[..7] && M.EventOut(EVENTS[1], 0xFF) == TRACK[7..11]
    ensures M.EventOut(EVENTS[2], 0x90) == TRACK[11..15] && M.EventOut(EVENTS[3], 0x80) == TRACK[15..]
    ensures M.Status(EVENTS[0]) == M.Status(EVENTS[3]) == 0xFF
    ensures M.Status(EVENTS[1]) == 0x90 && M.Status(EVENTS[2]) == 0x80
  {
    hide Emitted;
    Quantities();
  }

  lemma ServerTrackBytes()
    ensures M.AllProper(EVENTS) && M.TrackOut(EVENTS, 0) == TRACK
  {
    hide M.EventOut, M.Status, M.AllProper;
    EventBytes();
    M.Unfolded(EVENTS, 0, 0);
    M.Unfolded(EVENTS, 1, 0xFF);
    M.Unfolded(EVENTS, 2, 0x90);
    M.Unfolded(EVENTS, 3, 0x80);
    assert EVENTS[0..] == EVENTS && EVENTS[4..] == [];
    assert TRACK == TRACK[..7] + (TRACK[7..11] + (TRACK[11..15] + (TRACK[15..] + [])));
  }

  lemma GoodSong()
    ensures F.Savable(0, 96, [SONG]) && F.Restorable(0, 96, [SONG])
  {
    hide F.Body, F.Writable, F.AllWritable;
    SmfTrackBytes();
    assert Valid(SONG);
    forall i | 0 <= i < 4 ensures F.Good(SONG[i].bytes) && F.RestorableAt(SONG, i) {
      F.GoodLengths(SONG[i].bytes);
    }
    assert F.RestorableTrack(SONG);
  }

  lemma ReadableEvents(mode: M.Mode)
    ensures M.AllReadable(EVENTS, 0, mode) && M.AllSized(EVENTS)
  {
    assert M.AllReadable(EVENTS[4..], 0xFF, mode);
    assert M.AllReadable(EVENTS[3..], 0x80, mode);
    assert M.AllReadable(EVENTS[2..], 0x90, mode);
    assert M.AllReadable(EVENTS[1..], 0xFF, mode);
  }

  lemma NextHeard(es: seq<M.Event>, n: nat, time: int)
    requires M.AllSized(es) && n < |es|
    ensures M.HearAll(es[n..], time)
            == [M.Hear(es[n], time + es[n].delta)] + M.HearAll(es[n + 1..], time + es[n].delta)
    ensures M.HearAll(es[|es|..], time) == []
  {
    hide M.Hear, M.Sized;
    assert es[n..][1..] == es[n + 1..] && es[n..][0] == es[n];
  }

  lemma HeardEvents(mode: M.Mode)
    requires M.ReadableTracks([EVENTS], mode)
    ensures M.HearTracks([EVENTS], mode) == [
              M.TrackStart,
              M.MetaMessage(0, 0x51, [0x07, 0xA1, 0x20]), M.ChannelMessage(0, 0x90, 0x3C, 0x40),
              M.ChannelMessage(96, 0x80, 0x3C, 0x40), M.MetaMessage(96, 0x2F, []), M.TrackEnd]
  {
    hide M.AllReadable, M.TrackOut, M.HearAll;
    ReadableEvents(mode);
    NextHeard(EVENTS, 0, 0);
    NextHeard(EVENTS, 1, 0);
    NextHeard(EVENTS, 2, 0);
    NextHeard(EVENTS, 3, 96);
    assert EVENTS[0..] == EVENTS && |EVENTS| == 4;
    assert M.HearTracks([EVENTS][1..], mode) == [];
  }

  /** What saving the song writes, and what loading those bytes gives, whatever lies behind them in memory. */
  lemma {:induction false} SmfFile(mem: F.Memory)
    requires mem.file == FILE
    ensures F.AllWritable([SONG]) && F.FileBytes(0, 96, [SONG]) == FILE
    ensures F.Load(mem) == F.Ok(F.Loaded(0, 96, [SONG]))
  {
    hide F.Load, F.Body, Header, Chunk, F.RestorableMessage, F.Good;
    SmfTrackBytes();
    HeaderBytes();
    assert FILE[..14] + (FILE[14..] + []) == FILE;
    assert F.TrackChunks([SONG], 1) == [];
    GoodSong();
    F.SaveLoadIff(0, 96, [SONG], mem);
  }

  /** What the server writes for the events, and what its callbacks hear of those bytes. */
  lemma {:induction false} ServerFile(mode: M.Mode)
    ensures M.ProperTracks([EVENTS]) && M.FileOut(0, 96, [EVENTS]) == FILE
    ensures M.ReadFile(FILE, mode) == Some([
              M.FileHeader(0, 1, 96), M.TrackStart,
              M.MetaMessage(0, 0x51, [0x07, 0xA1, 0x20]), M.ChannelMessage(0, 0x90, 0x3C, 0x40),
              M.ChannelMessage(96, 0x80, 0x3C, 0x40), M.MetaMessage(96, 0x2F, []), M.TrackEnd])
  {
    hide M.ReadFile, M.TrackOut, Header, Chunk, Emitted;
    ServerTrackBytes();
    HeaderBytes();
    assert FILE[..14] + (FILE[14..] + []) == FILE;
    assert M.TracksOut([EVENTS][1..]) == [];
    ReadableEvents(mode);
    M.FileReadBack(0, 96, [EVENTS], mode);
    HeardEvents(mode);
    assert [M.FileHeader(0, 1, 96)] + M.HearTracks([EVENTS], mode) == [
        M.FileHeader(0, 1, 96), M.TrackStart,
        M.MetaMessage(0, 0x51, [0x07, 0xA1, 0x20]), M.ChannelMessage(0, 0x90, 0x3C, 0x40),
        M.ChannelMessage(96, 0x80, 0x3C, 0x40), M.MetaMessage(96, 0x2F, []), M.TrackEnd];
  }
}
