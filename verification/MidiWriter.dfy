/**
 The writing half of `midifile.c`: it remembers the last status, counts the bytes
 written and seeks back to fill in the length of a track.
 */
module MidiWriter {
  import opened Bytes
  import opened Chunks
  import opened Vlq
  import opened MidiStream

  // -------------------------------------------------------------------- writer

  /** The file after `bytes` were written at `pos`, over what was there. */
  function Put(file: seq<Byte>, pos: nat, bytes: seq<Byte>): seq<Byte>
    requires pos <= |file|
  {
    file[..pos] + bytes + (if pos + |bytes| <= |file| then file[pos + |bytes|..] else [])
  }

  lemma PutPut(file: seq<Byte>, pos: nat, a: seq<Byte>, b: seq<Byte>)
    requires pos <= |file|
    ensures |Put(file, pos, a)| >= pos + |a|
    ensures Put(Put(file, pos, a), pos + |a|, b) == Put(file, pos, a + b)
  {
  }

  class Writer {
    var file: seq<Byte>
    var pos: nat
    var laststatus: int
    var numbyteswritten: int

    constructor ()
      ensures file == [] && AtEnd()
    {
      file, pos, laststatus, numbyteswritten := [], 0, 0, 0;
    }

    predicate AtEnd()
      reads this`file, this`pos
    {
      pos == |file|
    }

    /** `eputc`. */
    method EPutc(c: Byte)
      requires pos <= |file|
      modifies this`file, this`pos, this`numbyteswritten
      ensures file == Put(old(file), old(pos), [c]) && pos == old(pos) + 1 <= |file|
      ensures old(AtEnd()) ==> AtEnd() && file == old(file) + [c]
      ensures numbyteswritten == old(numbyteswritten) + 1
    {
      if pos < |file| {
        file := file[pos := c];
      } else {
        file := file + [c];
      }
      pos := pos + 1;
      numbyteswritten := numbyteswritten + 1;
    }

    /** `write32bit`. */
    method Write32bit(data: nat)
      requires pos <= |file|
      modifies this`file, this`pos, this`numbyteswritten
      ensures file == Put(old(file), old(pos), Be32(data)) && pos == old(pos) + 4 <= |file|
      ensures numbyteswritten == old(numbyteswritten) + 4
    {
      hide Put;
      ghost var was, at := file, pos;
      ghost var b := Be32(data);
      EPutc(data / 0x100_0000 % 256);
      EPutc(data / 0x1_0000 % 256);
      EPutc(data / 256 % 256);
      EPutc(data % 256);
      FourBytes(data);
      PutPut(was, at, [b[0]], [b[1]]);
      PutPut(was, at, [b[0]] + [b[1]], [b[2]]);
      PutPut(was, at, [b[0]] + [b[1]] + [b[2]], [b[3]]);
    }

    static lemma FourBytes(data: nat)
      ensures var b := Be32(data);
              && b == [b[0]] + [b[1]] + [b[2]] + [b[3]]
              && b[0] == data / 0x100_0000 % 256 && b[1] == data / 0x1_0000 % 256
              && b[2] == data / 256 % 256 && b[3] == data % 256
    {
      assert data / 0x1_0000 / 256 == data / 0x100_0000;
    }

    /** `write16bit`. */
    method Write16bit(data: nat)
      requires AtEnd()
      modifies this`file, this`pos, this`numbyteswritten
      ensures AtEnd() && file == old(file) + Be16(data) && numbyteswritten == old(numbyteswritten) + 2
    {
      EPutc(data / 256 % 256);
      EPutc(data % 256);
    }

    /** `WriteVarLen`. */
    method WriteVarLen(value: Word)
      requires AtEnd()
      modifies this`file, this`pos, this`numbyteswritten
      ensures AtEnd() && file == old(file) + Emitted(value)
      ensures numbyteswritten == old(numbyteswritten) + |Emitted(value)|
    {
      hide *;
      var buffer := PackGroups(value);
      ghost var word := Kept(Encode(value));
      ghost var was, count := file, numbyteswritten;
      KeptShape(value);
      assert word[0..] == word && was + word[..0] == was;
      ghost var k := 0;
      EndMeans();
      while true
        invariant k <= |word| && file == was + word[..k] && numbyteswritten == count + k && pos == |file|
        invariant k == |word| ==> word[|word| - 1] >= 128
        invariant buffer == Pack(word[k..])
        decreases |word| - k
      {
        if k < |word| {
          PackHead(word, k);
          assert was + word[..k + 1] == was + word[..k] + [word[k]];
        } else {
          assert was + (word + [0]) == was + word[..k] + [0];
        }
        EndMeans();
        EPutc(buffer % 256);
        EndMeans();
        k := k + 1;
        if buffer % 256 >= 128 {
          buffer := buffer / 256;
        } else {
          return;
        }
      }
    }

    lemma EndMeans()
      ensures AtEnd() <==> pos == |file|
    {
    }

    /** The loops of both write routines over the data bytes. */
    method WriteData(data: seq<Byte>)
      requires AtEnd() && |data| < 0x8000_0000
      modifies this`file, this`pos, this`numbyteswritten
      ensures AtEnd() && file == old(file) + data && numbyteswritten == old(numbyteswritten) + |data|
    {
      var i := 0;
      while i < Int32(|data|)
        invariant 0 <= i <= |data| && AtEnd() && file == old(file) + data[..i]
                    && numbyteswritten == old(numbyteswritten) + i
      {
        assert data[..i + 1] == data[..i] + [data[i]];
        EPutc(data[i]);
        i := i + 1;
      }
    }

    /** `mf_write_midi_event`. */
    method WriteMidiEvent(deltaTime: Word, kind: int, chan: int, data: seq<Byte>, ghost e: Event)
      requires Proper(e) && e.delta == deltaTime && e.data == data && AtEnd()
      requires if e.Channel? then e.kind == kind && e.chan == chan
               else chan == 0 && !e.Meta? && kind == Status(e)
      modifies this
      ensures AtEnd() && file == old(file) + EventOut(e, old(laststatus)) && laststatus == Status(e)
      ensures numbyteswritten == old(numbyteswritten) + |EventOut(e, old(laststatus))|
    {
      hide *;
      KindOf(e, laststatus);
      WriteVarLen(deltaTime);
      var c := kind + chan;
      if kind == 0xF0 || kind == 0xF7 {
        c := kind;
        laststatus := 0;
      }
      EndMeans();
      if laststatus != c {
        EPutc(c);
        laststatus := c;
      }
      if kind == 0xF0 || kind == 0xF7 {
        WriteVarLen(|data|);
      }
      WriteData(data);
      Pieces(old(file), Emitted(e.delta), StatusBytes(e, old(laststatus)), Payload(e), EventOut(e, old(laststatus)));
    }

    static lemma KindOf(e: Event, last: int)
      requires Proper(e) && !e.Meta?
      ensures EventOut(e, last) == Emitted(e.delta) + StatusBytes(e, last) + Payload(e)
      ensures e.Channel? ==> Status(e) == e.kind + e.chan && 0x80 <= e.kind < 0xF0
      ensures e.Channel? ==> StatusBytes(e, last) == if last != Status(e) then [Status(e)] else []
      ensures !e.Channel? ==> StatusBytes(e, last) == [Status(e)] && (Status(e) == 0xF0 || Status(e) == 0xF7)
      ensures Payload(e) == if e.Channel? then e.data else Emitted(|e.data|) + e.data
      ensures |e.data| < 0x8000_0000 && |e.data| < WORD
    {
    }

    static lemma Pieces(file: seq<Byte>, a: seq<Byte>, b: seq<Byte>, c: seq<Byte>, whole: seq<Byte>)
      requires whole == a + b + c
      ensures file + whole == file + a + b + c && |whole| == |a| + |b| + |c|
      ensures b == [] ==> file + whole == file + a + c
      ensures forall c1, c2 :: c == c1 + c2 ==> file + whole == file + a + b + c1 + c2
    {
    }

    /** `mf_write_meta_event`. */
    method WriteMetaEvent(deltaTime: Word, metaType: Byte, data: seq<Byte>)
      requires |data| < 0x8000_0000 && AtEnd()
      modifies this
      ensures AtEnd() && file == old(file) + EventOut(Meta(deltaTime, metaType, data), old(laststatus))
                && laststatus == 0xFF
      ensures numbyteswritten == old(numbyteswritten) + |EventOut(Meta(deltaTime, metaType, data), old(laststatus))|
    {
      hide *;
      ghost var e := Meta(deltaTime, metaType, data);
      MetaPieces(e, old(file), laststatus);
      WriteVarLen(deltaTime);
      EndMeans();
      laststatus := 0xFF;
      EPutc(0xFF);
      EPutc(metaType);
      WriteVarLen(|data|);
      WriteData(data);
    }

    static lemma MetaPieces(e: Event, file: seq<Byte>, last: int)
      requires e.Meta? && e.delta < WORD && |e.data| < 0x8000_0000
      ensures Proper(e) && |e.data| < WORD
      ensures file + EventOut(e, last) == file + Emitted(e.delta) + [0xFF] + [e.metaType] + Emitted(|e.data|) + e.data
      ensures |EventOut(e, last)| == |Emitted(e.delta)| + 2 + |Emitted(|e.data|)| + |e.data|
    {
      hide Emitted;
      var out := Emitted(e.delta) + [0xFF] + ([e.metaType] + Emitted(|e.data|) + e.data);
      assert EventOut(e, last) == out;
    }

    /** `write_event`, 0xF7 events included. */
    method WriteEvent(e: Event)
      requires Proper(e) && AtEnd()
      modifies this
      ensures AtEnd() && file == old(file) + EventOut(e, old(laststatus)) && laststatus == Status(e)
      ensures numbyteswritten == old(numbyteswritten) + |EventOut(e, old(laststatus))|
    {
      match e
      case Channel(delta, kind, chan, data) => WriteMidiEvent(delta, kind, chan, data, e);
      case Sysex(delta, data) => WriteMidiEvent(delta, 0xF0, 0, data, e);
      case Arbitrary(delta, data) => WriteMidiEvent(delta, 0xF7, 0, data, e);
      case Meta(delta, t, data) => WriteMetaEvent(delta, t, data);
    }

    /** `write_track`: the events of one track. */
    method WriteTrack(es: seq<Event>)
      requires AllProper(es) && AtEnd()
      modifies this
      ensures AtEnd() && file == old(file) + TrackOut(es, old(laststatus))
      ensures numbyteswritten == old(numbyteswritten) + |TrackOut(es, old(laststatus))|
    {
      hide *;
      ghost var was, whole := file, TrackOut(es, laststatus);
      var i := 0;
      assert es[0..] == es && was + whole == was + whole;
      while i < |es|
        invariant 0 <= i <= |es| && AtEnd() && AllProper(es[i..])
        invariant file + TrackOut(es[i..], laststatus) == was + whole
        invariant numbyteswritten + |TrackOut(es[i..], laststatus)| == old(numbyteswritten) + |whole|
      {
        ghost var here, last := file, laststatus;
        assert es[i..][1..] == es[i + 1..] && es[i..][0] == es[i];
        TrackOutUnfold(es[i..], last, []);
        WriteEvent(es[i]);
        ghost var out, more := EventOut(es[i], last), TrackOut(es[i + 1..], Status(es[i]));
        assert TrackOut(es[i..], last) + [] == TrackOut(es[i..], last) && more + [] == more;
        assert here + out + more == here + (out + more);
        i := i + 1;
      }
      NoEvents(laststatus);
      assert es[i..] == [] && file + [] == file;
    }

    static lemma NoEvents(last: int)
      ensures AllProper([]) && TrackOut([], last) == []
    {
    }

    /** `mf_write_track_chunk`: write, then seek back and put the length in. */
    method WriteTrackChunk(es: seq<Event>)
      requires AllProper(es) && AtEnd()
      modifies this
      ensures AtEnd() && file == old(file) + Chunk(MTRK, TrackOut(es, 0))
    {
      hide *;
      EndMeans();
      laststatus := 0;
      var offset := pos;
      ghost var was := file;
      Write32bit(0x4D54_726B);
      Write32bit(0);
      TwoWords(was, 0);
      EndMeans();
      numbyteswritten := 0;
      WriteTrack(es);
      EndMeans();
      var placeMarker := pos;
      pos := offset;
      var length := numbyteswritten;
      Rewritten(was, TrackOut(es, 0));
      Write32bit(0x4D54_726B);
      Write32bit(length);
      pos := placeMarker;
      EndMeans();
    }

    /** Identifier and length at the end of a file. */
    static lemma TwoWords(was: seq<Byte>, length: nat)
      ensures var one := Put(was, |was|, Be32(0x4D54_726B));
              && |one| == |was| + 4 && Put(one, |was| + 4, Be32(length)) == was + MTRK + Be32(length)
              && |was + MTRK + Be32(length)| == |was| + 8
    {
      TrackId();
    }

    static lemma TrackId()
      ensures Be32(0x4D54_726B) == MTRK && |MTRK| == 4
    {
    }

    /** Identifier and length over themselves, in front of a body. */
    static lemma Rewritten(was: seq<Byte>, body: seq<Byte>)
      ensures |MTRK| == 4
      ensures var file := was + MTRK + Be32(0) + body;
              var one := Put(file, |was|, Be32(0x4D54_726B));
              && |file| == |was| + 8 + |body| && |one| == |file|
              && Put(one, |was| + 4, Be32(|body|)) == was + Chunk(MTRK, body)
              && |was + Chunk(MTRK, body)| == |file|
    {
      hide Be32;
      TrackId();
      var file := was + MTRK + Be32(0) + body;
      assert Put(file, |was|, MTRK) == file;
    }

    /** `mf_write_header_chunk`. */
    method WriteHeaderChunk(format: nat, ntracks: nat, division: nat)
      requires file == [] && AtEnd()
      modifies this`file, this`pos, this`numbyteswritten
      ensures AtEnd() && file == Header(format, ntracks, division)
    {
      hide *;
      EndMeans();
      HeaderWords(format, ntracks, division);
      Write32bit(0x4D54_6864);
      Write32bit(6);
      EndMeans();
      Write16bit(format);
      Write16bit(ntracks);
      Write16bit(division);
    }

    static lemma HeaderWords(format: nat, ntracks: nat, division: nat)
      ensures var one := Put([], 0, Be32(0x4D54_6864));
              && |one| == 4 && |Put(one, 4, Be32(6))| == 8
              && Put(one, 4, Be32(6)) + Be16(format) + Be16(ntracks) + Be16(division)
                  == Header(format, ntracks, division)
    {
      assert Be32(0x4D54_6864) == MTHD;
    }

    /**
     `mfwrite`, with the track callback writing the events ts, and the events of the tempo
     track callback where one is installed.
     */
    method MfWrite(format: nat, ntracks: nat, division: nat, tempoTrack: Option<seq<Event>>, ts: seq<seq<Event>>)
      requires ProperTracks(ts) && ntracks == |ts| && file == [] && AtEnd()
      requires tempoTrack.Some? ==> AllProper(tempoTrack.value)
      modifies this
      ensures AtEnd() && file == Header(format, ntracks, division) + TempoOut(format, tempoTrack) + TracksOut(ts)
      ensures TempoOut(format, tempoTrack) == [] ==> file == FileOut(format, division, ts)
    {
      hide *;
      laststatus := 0;
      WriteHeaderChunk(format, ntracks, division);
      laststatus := 0;
      TempoOutIs(format, tempoTrack);
      if format == 1 {
        if tempoTrack.Some? {
          WriteTrack(tempoTrack.value);
        }
      }
      assert Header(format, ntracks, division) + [] == Header(format, ntracks, division);
      WriteTracks(ntracks, ts);
      FileIs(format, division, ts);
    }

    /** The loop of `mfwrite`. */
    method WriteTracks(ntracks: nat, ts: seq<seq<Event>>)
      requires ProperTracks(ts) && ntracks == |ts| && AtEnd()
      modifies this
      ensures AtEnd() && file == old(file) + TracksOut(ts)
    {
      hide *;
      var i := 0;
      ghost var front := file;
      assert ts[0..] == ts;
      while i < ntracks
        invariant 0 <= i <= ntracks && AtEnd() && ProperTracks(ts[i..])
        invariant file + TracksOut(ts[i..]) == front + TracksOut(ts)
      {
        assert ts[i..][1..] == ts[i + 1..] && ts[i..][0] == ts[i];
        ghost var was := file;
        TracksOutUnfold(ts[i..]);
        WriteTrackChunk(ts[i]);
        ghost var chunk, more := Chunk(MTRK, TrackOut(ts[i], 0)), TracksOut(ts[i + 1..]);
        assert was + (chunk + more) == was + chunk + more;
        i := i + 1;
      }
      TracksOutUnfold(ts[i..]);
      assert file + [] == file;
    }

    static lemma TempoOutIs(format: nat, tempoTrack: Option<seq<Event>>)
      requires tempoTrack.Some? ==> AllProper(tempoTrack.value)
      ensures TempoOut(format, tempoTrack)
           == if format == 1 && tempoTrack.Some? then TrackOut(tempoTrack.value, 0) else []
    {
    }

    static lemma FileIs(format: nat, division: nat, ts: seq<seq<Event>>)
      requires ProperTracks(ts)
      ensures FileOut(format, division, ts) == Header(format, |ts|, division) + [] + TracksOut(ts)
    {
      hide TracksOut, Header, ProperTracks;
    }

    static lemma TracksOutUnfold(ts: seq<seq<Event>>)
      requires ProperTracks(ts)
      ensures ts == [] ==> TracksOut(ts) == []
      ensures ts != [] ==> AllProper(ts[0]) && ProperTracks(ts[1..])
                           && TracksOut(ts) == Chunk(MTRK, TrackOut(ts[0], 0)) + TracksOut(ts[1..])
    {
    }
  }
}
