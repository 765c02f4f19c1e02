/**
 The file format as libsmf writes and reads it: messages, events, track chunks and
 whole files, as values.  `Load` undoes `FileBytes` exactly on the songs that
 `Restorable` describes.
 */
module SmfFormat {
  import opened Bytes
  import opened Chunks
  import opened Vlq
  import opened Tracks

  /** A C result: a value, an error return, or a failed assertion. */
  datatype Outcome<+T> = Ok(value: T) | Fail | Abort

  type Message = seq<Byte>

  const EOT: Message := [0xFF, 0x2F, 0x00]

  // ----------------------------------------------------------------- messages

  /** `expected_message_length`; `rest` starts at the second byte of the message. */
  function ExpectedLength(status: Byte, rest: seq<Byte>): (r: Outcome<nat>)
    requires status >= 128
    ensures r.Ok? ==> r.value >= 1
  {
    if status == 0xF0 || status == 0xF7 then Abort
    else if status == 0xFF then
      if |rest| < 2 then Fail else Ok((rest[1] as int) + 3)
    else if status >= 0xF0 then
      if status == 0xF2 then Ok(3)
      else if status == 0xF1 || status == 0xF3 then Ok(2)
      else if status == 0xF6 || 0xF8 <= status <= 0xFC || status == 0xFE then Ok(1)
      else Fail
    else if 0xC0 <= status < 0xE0 then Ok(2)
    else Ok(3)
  }

  /** `smf_event_is_valid`. */
  function Validity(m: Message): Outcome<bool> {
    if m == [] then Abort
    else if m[0] < 128 then Ok(false)
    else if m[0] == 0xF0 then Ok(true)
    else
      match ExpectedLength(m[0], m[1..])
      case Abort => Abort
      case Fail => Ok(false)
      case Ok(n) => Ok(|m| == n)
  }

  predicate Good(m: Message) {
    Validity(m) == Ok(true)
  }

  /** The valid messages, in numbers; a meta event is as long as its third byte says. */
  lemma GoodLengths(m: Message)
    ensures Good(m) <==>
            && m != []
            && ( || (0x80 <= m[0] < 0xC0 && |m| == 3) || (0xC0 <= m[0] < 0xE0 && |m| == 2)
                 || (0xE0 <= m[0] < 0xF0 && |m| == 3) || m[0] == 0xF0
                 || (m[0] in {0xF1, 0xF3} && |m| == 2) || (m[0] == 0xF2 && |m| == 3)
                 || (m[0] in {0xF6, 0xF8, 0xF9, 0xFA, 0xFB, 0xFC, 0xFE} && |m| == 1)
                 || (m[0] == 0xFF && |m| >= 3 && |m| == (m[2] as int) + 3))
    ensures Validity(m).Abort? <==> m == [] || m[0] == 0xF7
    ensures !Validity(m).Fail?
  {
  }

  /** `event_is_end_of_track`: any End Of Track, whatever its length byte says. */
  predicate EndsTrack(m: Message) {
    |m| >= 2 && m[0] == 0xFF && m[1] == 0x2F
  }

  // ------------------------------------------------------------------ writing

  /** `write_event_contents`. */
  function MessageBytes(m: Message): (r: seq<Byte>)
    requires m != []
    ensures r != []
  {
    if m[0] == 0xF0 then [0xF0] + Encode(|m| - 1) + m[1..]
    else if m[0] > 0xF0 && m[0] != 0xFF then [0xF7] + Encode(|m|) + m
    else m
  }

  /** `write_event`. */
  function EventBytes(delta: nat, m: Message): seq<Byte>
    requires m != []
  {
    Encode(delta) + MessageBytes(m)
  }

  predicate WritableAt(t: Track, i: nat)
    requires i < |t|
  {
    Delta(t, i) >= 0 && t[i].bytes != []
  }

  ghost predicate Writable(t: Track) {
    forall i :: 0 <= i < |t| ==> WritableAt(t, i)
  }

  /** What `write_track` appends for the events of t from number n on. */
  ghost function Body(t: Track, n: nat): (r: seq<Byte>)
    requires Writable(t) && n <= |t|
    ensures n < |t| ==> |r| >= 2
    decreases |t| - n
  {
    if n == |t| then []
    else
      assert WritableAt(t, n);
      EventBytes(Delta(t, n), t[n].bytes) + Body(t, n + 1)
  }

  ghost predicate AllWritable(ts: seq<Track>) {
    forall j :: 0 <= j < |ts| ==> Writable(ts[j])
  }

  ghost function TrackChunks(ts: seq<Track>, k: nat): seq<Byte>
    requires AllWritable(ts) && k <= |ts|
    decreases |ts| - k
  {
    if k == |ts| then [] else Chunk(MTRK, Body(ts[k], 0)) + TrackChunks(ts, k + 1)
  }

  /** What `smf_save` writes for tracks that end as they should. */
  ghost function FileBytes(format: nat, ppqn: nat, ts: seq<Track>): seq<Byte>
    requires AllWritable(ts)
  {
    Header(format, |ts|, ppqn) + TrackChunks(ts, 0)
  }

  // ------------------------------------------------------------------ reading

  /** `extract_sysex_event`: the message and the bytes it took. */
  function ExtractSysex(buf: seq<Byte>): (r: Outcome<(Message, nat)>)
    requires buf != [] && buf[0] == 0xF0
    ensures r.Ok? ==> 1 <= r.value.1 < |buf| && Good(r.value.0)
  {
    if |buf| - 1 < 3 then Fail
    else
      match Extraction(buf[1..])
      case Extracted(v, n) =>
        if n + v + 1 >= |buf| then Fail else Ok(([0xF0] + buf[1 + n..1 + n + v], n + v + 1))
      case _ => Fail
  }

  /** `extract_midi_event`. */
  function ExtractMidi(buf: seq<Byte>, last: Byte): (r: Outcome<(Message, nat)>)
    requires buf != []
    ensures r.Ok? ==> r.value.1 <= |buf| && Good(r.value.0)
  {
    var own := buf[0] >= 128;
    var status := if own then buf[0] else last;
    var c := if own then 1 else 0;
    if status < 128 then Fail
    else if status == 0xF0 then (if own then ExtractSysex(buf) else Abort)
    else if status == 0xF7 then Abort
    else
      match ExpectedLength(status, buf[c..])
      case Abort => Abort
      case Fail => Fail
      case Ok(n) =>
        if n - 1 > |buf| - c then Fail
        else
          var m := [status] + buf[c..c + n - 1];
          assert status == 0xFF ==> m[1..][1] == buf[c..][1];
          Ok((m, c + n - 1))
  }

  /** `parse_next_event`: the delta, the message and the bytes used. */
  function ParseEvent(buf: seq<Byte>, last: Byte): (r: Outcome<(nat, Message, nat)>)
    ensures r.Ok? ==> 1 <= r.value.2 <= |buf| && Good(r.value.1)
  {
    if buf == [] then Abort
    else
      match Extraction(buf)
      case Extracted(delta, n) =>
        if n >= |buf| then Fail
        else (
          match ExtractMidi(buf[n..], last)
          case Abort => Abort
          case Fail => Fail
          case Ok((m, used)) => Ok((delta, m, n + used)))
      case _ => Fail
  }

  /** The loop of `parse_mtrk_chunk`, t being the track so far. */
  function ParseEvents(buf: seq<Byte>, last: Byte, t: Track): (r: Outcome<Track>)
    ensures !r.Fail?
    decreases |buf|
  {
    match ParseEvent(buf, last)
    case Abort => Abort
    case Fail => Ok(Add(t, Ev(LastTime(t), EOT)))
    case Ok((delta, m, used)) =>
      var grown := Add(t, Ev(LastTime(t) + delta, m));
      if EndsTrack(m) then Ok(grown) else ParseEvents(buf[used..], m[0], grown)
  }

  /** Damage ends the track: what was read before it stays, and an End Of Track follows at the last time. */
  lemma DamageEnds(buf: seq<Byte>, last: Byte, t: Track)
    requires ParseEvent(buf, last).Fail? && (t != [] ==> !IsEot(t[|t| - 1].bytes))
    ensures ParseEvents(buf, last, t) == Ok(t + [Ev(if t == [] then 0 else t[|t| - 1].time, [0xFF, 0x2F, 0x00])])
  {
    hide ParseEvent;
    AppendEot(t);
  }

  /** A file in memory; reading past its end finds whatever lies there. */
  datatype Memory = Memory(file: seq<Byte>, beyond: nat -> Byte) {
    function At(i: nat): Byte {
      if i < |file| then file[i] else beyond(i)
    }

    function Stretch(from: nat, length: nat): (r: seq<Byte>)
      ensures |r| == length
      ensures forall i :: 0 <= i < length ==> r[i] == At(from + i)
    {
      seq<Byte>(length, i requires 0 <= i < length => At(from + i))
    }
  }

  predicate IsAlpha(b: Byte) {
    0x41 <= b <= 0x5A || 0x61 <= b <= 0x7A
  }

  datatype ChunkHeader = ChunkHeader(id: seq<Byte>, length: nat, next: int)

  /** `next_chunk`: the header at the offset, and the offset it leaves. */
  function NextChunk(file: seq<Byte>, offset: int): (r: Outcome<ChunkHeader>)
    ensures r.Ok? ==> 0 <= offset && offset + 8 < |file| && r.value.length < 0x1_0000_0000
  {
    if file == [] || offset < 0 then Abort
    else if offset + 8 >= |file| then Fail
    else
      var id := file[offset..offset + 4];
      if !(IsAlpha(id[0]) && IsAlpha(id[1]) && IsAlpha(id[2]) && IsAlpha(id[3])) then Fail
      else
        var length := FromBe32(file[offset + 4..offset + 8]);
        var next := Int32(offset + 8 + length);
        Ok(ChunkHeader(id, length, if next > |file| then |file| else next))
  }

  datatype HeaderData = HeaderData(format: nat, tracks: nat, ppqn: nat, next: int)

  /** `parse_mthd_chunk`. */
  function ParseHeader(mem: Memory): (r: Outcome<HeaderData>)
    ensures r.Ok? ==> r.value.format <= 1 && r.value.tracks > 0 && 0 < r.value.ppqn < 0x8000
  {
    if |mem.file| < 6 || mem.file[..4] != MTHD then Fail
    else
      match NextChunk(mem.file, 0)
      case Abort => Abort
      case Fail => Fail
      case Ok(header) =>
        var format, tracks := FromBe16(mem.Stretch(8, 2)), FromBe16(mem.Stretch(10, 2));
        var division := mem.Stretch(12, 2);
        if header.length != 6 || format >= 2 || tracks == 0 then Fail
        else if division[0] >= 128 || FromBe16(division) == 0 then Fail
        else Ok(HeaderData(format, tracks, FromBe16(division), header.next))
  }

  datatype Loaded = Loaded(format: nat, ppqn: nat, tracks: seq<Track>)

  /** What attaching one more track does to the format. */
  function Grow(s: Loaded): Loaded {
    if |s.tracks| + 1 > 1 then s.(format := 1) else s
  }

  /** `parse_mtrk_chunk` on a header already read. */
  function ParseTrack(mem: Memory, at: nat, header: ChunkHeader): (r: Outcome<Track>)
    ensures r.Fail? <==> header.id != MTRK
  {
    var length := Int32(8 + header.length);
    if header.id != MTRK then Fail
    else if length <= 8 then Abort
    else ParseEvents(mem.Stretch(at + 8, length - 8), 0, [])
  }

  /** The loop of `smf_load_from_memory`: `left` tracks still expected. */
  function LoadTracks(mem: Memory, offset: int, left: nat, s: Loaded): Outcome<Loaded>
    decreases left
  {
    if left == 0 then Ok(s)
    else
      match NextChunk(mem.file, offset)
      case Abort => Abort
      case Fail => LoadTracks(mem, offset, left - 1, Grow(s))
      case Ok(header) =>
        match ParseTrack(mem, offset, header)
        case Abort => Abort
        case Fail => LoadTracks(mem, header.next, left - 1, Grow(s))
        case Ok(t) => LoadTracks(mem, header.next, left - 1, Grow(s).(tracks := s.tracks + [t]))
  }

  /** `smf_load_from_memory`. */
  function Load(mem: Memory): Outcome<Loaded> {
    match ParseHeader(mem)
    case Abort => Abort
    case Fail => Fail
    case Ok(h) => LoadTracks(mem, h.next, h.tracks, Loaded(h.format, h.ppqn, []))
  }

  // -------------------------------------------------- what is read, byte by byte

  predicate Letter(b: Byte) {
    'A' as int <= b <= 'Z' as int || 'a' as int <= b <= 'z' as int
  }

  /**
   A chunk is found where four letters, a length and at least one byte more are left; the loader
   goes on behind it, by 32-bit arithmetic, or at the end of the file.
   */
  lemma NextChunkIff(file: seq<Byte>, offset: int)
    ensures NextChunk(file, offset).Abort? <==> file == [] || offset < 0
    ensures NextChunk(file, offset).Ok? <==>
            && 0 <= offset && offset + 9 <= |file|
            && forall i :: offset <= i < offset + 4 ==> Letter(file[i])
    ensures NextChunk(file, offset).Ok? ==>
              var header, l := NextChunk(file, offset).value, file[offset + 4..offset + 8];
              && header.id == file[offset..offset + 4]
              && header.length == l[0] as int * 0x100_0000 + l[1] as int * 0x1_0000 + l[2] as int * 256 + l[3]
              && header.next <= |file| && (header.next < |file| ==> header.next == Int32(offset + 8 + header.length))
              && (header.next == |file| ==> Int32(offset + 8 + header.length) >= |file|)
  {
    hide FromBe32, Int32;
    if 0 <= offset && offset + 8 < |file| {
      var l := file[offset + 4..offset + 8];
      BigEndian(l[0], l[1], l[2], l[3]);
      assert l == [l[0], l[1], l[2], l[3]];
    }
  }

  /** The headers that are accepted, byte by byte: format 0 or 1, some tracks, and some pulses to the quarter note. */
  lemma HeaderAcceptedIff(mem: Memory)
    ensures ParseHeader(mem).Ok? <==>
            && |mem.file| > 8 && mem.file[..8] == [0x4D, 0x54, 0x68, 0x64, 0, 0, 0, 6]
            && mem.At(8) == 0 && mem.At(9) <= 1 && (mem.At(10) > 0 || mem.At(11) > 0)
            && mem.At(12) < 128 && (mem.At(12) > 0 || mem.At(13) > 0)
    ensures ParseHeader(mem).Ok? ==>
              ParseHeader(mem).value == HeaderData(mem.At(9), mem.At(10) as int * 256 + mem.At(11),
                                                   mem.At(12) as int * 256 + mem.At(13),
                                                   if |mem.file| < 14 then |mem.file| else 14)
    ensures !ParseHeader(mem).Abort?
  {
    hide FromBe16, FromBe32, Int32, NextChunk;
    var f := mem.file;
    NextChunkIff(f, 0);
    BigEndian(mem.At(8), mem.At(9), mem.At(10), mem.At(11));
    BigEndian(mem.At(10), mem.At(11), 0, 0);
    BigEndian(mem.At(12), mem.At(13), 0, 0);
    assert mem.Stretch(8, 2) == [mem.At(8), mem.At(9)] && mem.Stretch(10, 2) == [mem.At(10), mem.At(11)]
        && mem.Stretch(12, 2) == [mem.At(12), mem.At(13)];
    if |f| > 8 {
      assert f[..8] == f[..4] + f[4..8];
      Six(f[4], f[5], f[6], f[7]);
      Int32Small(14);
    }
  }

  lemma Six(a: Byte, b: Byte, c: Byte, d: Byte)
    ensures a as int * 0x100_0000 + b as int * 0x1_0000 + c as int * 256 + d == 6 <==> a == b == c == 0 && d == 6
  {
  }

  // ---------------------------------------------- which files fail an assertion

  /**
   The event to be read cannot be: nothing is left of the track, or behind the delta comes an
   escape, or a data byte while the status still in force is that of a system exclusive or an escape.
   */
  predicate Stumbles(buf: seq<Byte>, last: Byte) {
    || buf == []
    || match Extraction(buf)
       case Extracted(_, n) =>
         && n < |buf|
         && (buf[n] == 0xF7 || (buf[n] < 128 && (last == 0xF0 || last == 0xF7)))
       case _ => false
  }

  /** Reading an event fails an assertion exactly there; everywhere else it yields an event or an error. */
  lemma {:induction false} EventAbortsIff(buf: seq<Byte>, last: Byte)
    ensures ParseEvent(buf, last).Abort? <==> Stumbles(buf, last)
  {
    hide Extraction;
    if buf != [] && Extraction(buf).Extracted? && Extraction(buf).len < |buf| {
      MessageAbortsIff(buf[Extraction(buf).len..], last);
    }
  }

  lemma MessageAbortsIff(buf: seq<Byte>, last: Byte)
    requires buf != []
    ensures ExtractMidi(buf, last).Abort? <==> buf[0] == 0xF7 || (buf[0] < 128 && (last == 0xF0 || last == 0xF7))
  {
  }

  /** Behind n events that are accepted and end nothing comes one that fails an assertion. */
  predicate Comes(buf: seq<Byte>, last: Byte, n: nat)
    decreases n
  {
    if n == 0 then Stumbles(buf, last)
    else
      match ParseEvent(buf, last)
      case Ok((_, m, used)) => !EndsTrack(m) && Comes(buf[used..], m[0], n - 1)
      case _ => false
  }

  /** Some event of the track stumbles before an End Of Track or damage ends it. */
  ghost predicate TrackStumbles(buf: seq<Byte>, last: Byte) {
    exists n: nat :: Comes(buf, last, n)
  }

  lemma TrackStep(buf: seq<Byte>, last: Byte)
    ensures TrackStumbles(buf, last) <==>
            || Stumbles(buf, last)
            || match ParseEvent(buf, last)
               case Ok((_, m, used)) => !EndsTrack(m) && TrackStumbles(buf[used..], m[0])
               case _ => false
  {
    hide ParseEvent, Stumbles;
    if n: nat :| Comes(buf, last, n) {
      if n > 0 {
        var (_, m, used) := ParseEvent(buf, last).value;
        assert Comes(buf[used..], m[0], n - 1);
      }
    }
    if Stumbles(buf, last) {
      assert Comes(buf, last, 0);
    }
    var x := ParseEvent(buf, last);
    if x.Ok? {
      var (_, m, used) := x.value;
      if n: nat :| !EndsTrack(m) && Comes(buf[used..], m[0], n) {
        assert Comes(buf, last, n + 1);
      }
    }
  }

  /** Reading a track fails an assertion exactly when one of its events does. */
  lemma {:induction false} TrackAbortsIff(buf: seq<Byte>, last: Byte, t: Track)
    ensures ParseEvents(buf, last, t).Abort? <==> TrackStumbles(buf, last)
    decreases |buf|
  {
    hide ParseEvent, Stumbles, TrackStumbles, Add;
    EventAbortsIff(buf, last);
    TrackStep(buf, last);
    var x := ParseEvent(buf, last);
    if x.Ok? && !EndsTrack(x.value.1) {
      var (delta, m, used) := x.value;
      TrackAbortsIff(buf[used..], m[0], Add(t, Ev(LastTime(t) + delta, m)));
    }
  }

  /** The chunk at the offset does: the offset has wrapped, a track has no data, or one of its events stumbles. */
  ghost predicate ChunkStumbles(mem: Memory, offset: int) {
    || mem.file == [] || offset < 0
    || match NextChunk(mem.file, offset)
       case Ok(header) =>
         var length := Int32(8 + header.length);
         header.id == MTRK && (length <= 8 || TrackStumbles(mem.Stretch(offset + 8, length - 8), 0))
       case _ => false
  }

  lemma ChunkAbortsIff(mem: Memory, offset: int)
    ensures ChunkStumbles(mem, offset) <==>
            match NextChunk(mem.file, offset)
            case Abort => true
            case Fail => false
            case Ok(header) => ParseTrack(mem, offset, header).Abort?
  {
    hide TrackStumbles, ParseEvents, Int32;
    var x := NextChunk(mem.file, offset);
    if x.Ok? {
      var length := Int32(8 + x.value.length);
      if length > 8 {
        TrackAbortsIff(mem.Stretch(offset + 8, length - 8), 0, []);
      }
    }
  }

  /** Where the loader stands after n chunks; an unreadable chunk header leaves it where it is. */
  function OffsetAfter(mem: Memory, offset: int, n: nat): int
    decreases n
  {
    if n == 0 then offset
    else
      match NextChunk(mem.file, offset)
      case Ok(header) => OffsetAfter(mem, header.next, n - 1)
      case _ => OffsetAfter(mem, offset, n - 1)
  }

  /** Some chunk among the next `left` does. */
  ghost predicate SomeStumbles(mem: Memory, offset: int, left: nat) {
    exists n: nat :: n < left && ChunkStumbles(mem, OffsetAfter(mem, offset, n))
  }

  lemma SomeStep(mem: Memory, offset: int, left: nat)
    ensures SomeStumbles(mem, offset, left + 1) <==>
            ChunkStumbles(mem, offset) || SomeStumbles(mem, OffsetAfter(mem, offset, 1), left)
    ensures !SomeStumbles(mem, offset, 0)
  {
    hide ChunkStumbles, NextChunk;
    var next := OffsetAfter(mem, offset, 1);
    forall n: nat ensures OffsetAfter(mem, offset, n + 1) == OffsetAfter(mem, next, n) {
    }
    if ChunkStumbles(mem, offset) {
      assert OffsetAfter(mem, offset, 0) == offset;
    }
    if n: nat :| n < left && ChunkStumbles(mem, OffsetAfter(mem, next, n)) {
      assert ChunkStumbles(mem, OffsetAfter(mem, offset, n + 1));
    }
    if n: nat :| n < left + 1 && ChunkStumbles(mem, OffsetAfter(mem, offset, n)) {
      if n > 0 {
        assert ChunkStumbles(mem, OffsetAfter(mem, next, n - 1));
      }
    }
  }

  lemma {:induction false} TracksAbortIff(mem: Memory, offset: int, left: nat, s: Loaded)
    ensures LoadTracks(mem, offset, left, s).Abort? <==> SomeStumbles(mem, offset, left)
    ensures !LoadTracks(mem, offset, left, s).Fail?
    decreases left
  {
    hide NextChunk, ParseTrack, ChunkStumbles, SomeStumbles, Grow;
    if left == 0 {
      SomeStep(mem, offset, 0);
    } else {
      SomeStep(mem, offset, left - 1);
      ChunkAbortsIff(mem, offset);
      var x := NextChunk(mem.file, offset);
      if !ChunkStumbles(mem, offset) {
        var grown := if x.Fail? || ParseTrack(mem, offset, x.value).Fail? then Grow(s)
                     else Grow(s).(tracks := s.tracks + [ParseTrack(mem, offset, x.value).value]);
        TracksAbortIff(mem, OffsetAfter(mem, offset, 1), left - 1, grown);
      }
    }
  }

  /**
   The loader fails an assertion exactly when the header is accepted and one of the chunks it
   announces stumbles; it reports an error exactly when the header is refused; all else loads.
   */
  lemma {:induction false} LoadAbortsIff(mem: Memory)
    ensures Load(mem).Fail? <==> ParseHeader(mem).Fail?
    ensures Load(mem).Abort? <==>
            && ParseHeader(mem).Ok?
            && SomeStumbles(mem, ParseHeader(mem).value.next, ParseHeader(mem).value.tracks)
  {
    hide LoadTracks, SomeStumbles;
    if ParseHeader(mem).Ok? {
      var h := ParseHeader(mem).value;
      TracksAbortIff(mem, h.next, h.tracks, Loaded(h.format, h.ppqn, []));
    }
  }

  // ------------------------------------------------------- one event, there and back

  /** Messages that survive: channel messages, meta events, and system exclusives of less than 2^28 bytes. */
  predicate RestorableMessage(m: Message) {
    m != [] && (m[0] < 0xF0 || m[0] == 0xFF || (m[0] == 0xF0 && |m| - 1 < 0x1000_0000))
  }

  /** A written system exclusive, after its status byte: its length, then the rest of it. */
  lemma SysexBytes(m: Message, rest: seq<Byte>)
    requires m != [] && m[0] == 0xF0
    ensures var buf, v := MessageBytes(m) + rest, Encode(|m| - 1);
            && |buf| == |v| + |m| + |rest| && buf[0] == 0xF0
            && Extraction(buf[1..]) == (if |m| - 1 < 0x1000_0000 then Extracted(|m| - 1, |v|) else TooLong)
            && [0xF0] + buf[1 + |v|..1 + |v| + (|m| - 1)] == m
  {
    hide Encode, Extraction;
    var buf, v := MessageBytes(m) + rest, Encode(|m| - 1);
    assert buf == [0xF0] + (v + (m[1..] + rest));
    assert buf[1..] == v + (m[1..] + rest);
    ExtractEncode(|m| - 1, m[1..] + rest);
    assert buf[1 + |v|..1 + |v| + (|m| - 1)] == m[1..];
  }

  /**
   A system exclusive in a track is read exactly when its length fits four bytes, something follows
   it, and three bytes at least follow its status byte; else it is an error.
   */
  lemma SysexReadIff(data: seq<Byte>, rest: seq<Byte>, last: Byte)
    ensures var v := Encode(|data|);
            ExtractMidi([0xF0] + v + data + rest, last)
            == if |data| < 0x1000_0000 && rest != [] && |v| + |data| + |rest| >= 3
               then Ok(([0xF0] + data, 1 + |v| + |data|)) else Fail
  {
    hide Encode, Extraction;
    var m: Message := [0xF0] + data;
    assert m[1..] == data;
    SysexBytes(m, rest);
  }

  /** Reading back a written message; a system exclusive needs something to follow it. */
  lemma ExtractRestorable(m: Message, rest: seq<Byte>, last: Byte)
    requires Good(m) && RestorableMessage(m)
    requires m[0] == 0xF0 ==> |rest| >= 2
    ensures ExtractMidi(MessageBytes(m) + rest, last) == Ok((m, |MessageBytes(m)|))
  {
    var buf := MessageBytes(m) + rest;
    if m[0] == 0xF0 {
      SysexBytes(m, rest);
    } else {
      assert buf[1..] == m[1..] + rest;
      assert m[0] == 0xFF ==> buf[1..][1] == m[1..][1];
      assert [m[0]] + buf[1..|m|] == m;
    }
  }

  /** Every other good message is lost: the loader aborts, or takes the rest of the track for damaged. */
  lemma ExtractLost(m: Message, rest: seq<Byte>, last: Byte)
    requires Good(m) && (!RestorableMessage(m) || (m[0] == 0xF0 && rest == []))
    ensures !ExtractMidi(MessageBytes(m) + rest, last).Ok?
  {
    if m[0] == 0xF0 {
      SysexBytes(m, rest);
    }
  }

  /** Real-time and other system common messages are written escaped, and loading them fails an assertion. */
  lemma EscapedAborts(m: Message, rest: seq<Byte>, last: Byte)
    requires m != [] && 0xF0 < m[0] < 0xFF
    ensures ExtractMidi(MessageBytes(m) + rest, last) == Abort
  {
    assert (MessageBytes(m) + rest)[0] == 0xF7;
  }

  /** A message comes back from its bytes exactly when it is restorable. */
  lemma MessageRoundTripIff(m: Message, rest: seq<Byte>, last: Byte)
    requires Good(m) && |rest| >= 2
    ensures ExtractMidi(MessageBytes(m) + rest, last) == Ok((m, |MessageBytes(m)|)) <==> RestorableMessage(m)
  {
    if RestorableMessage(m) {
      ExtractRestorable(m, rest, last);
    } else {
      ExtractLost(m, rest, last);
    }
  }

  lemma ParseWritten(delta: nat, m: Message, rest: seq<Byte>, last: Byte)
    requires m != []
    ensures delta >= 0x1000_0000 ==> ParseEvent(EventBytes(delta, m) + rest, last) == Fail
    ensures delta < 0x1000_0000 ==>
              ParseEvent(EventBytes(delta, m) + rest, last) ==
              match ExtractMidi(MessageBytes(m) + rest, last)
              case Abort => Abort
              case Fail => Fail
              case Ok((m', used)) => Ok((delta, m', |Encode(delta)| + used))
  {
    var v, b := Encode(delta), MessageBytes(m);
    assert EventBytes(delta, m) + rest == v + (b + rest);
    ExtractEncode(delta, b + rest);
    assert (v + (b + rest))[|v|..] == b + rest;
  }

  /** One complete note, and no End Of Track behind it. */
  lemma UnendedExample(t: Track)
    ensures ParseEvents([0x00, 0x90, 0x40, 0x40], 0, t).Abort?
  {
    var buf, m: Message := [0x00, 0x90, 0x40, 0x40], [0x90, 0x40, 0x40];
    assert Encode(0) == [0] && EventBytes(0, m) + [] == buf;
    ParseWritten(0, m, [], 0);
    ExtractRestorable(m, [], 0);
    assert buf[4..] == [] && Comes(buf[4..], 0x90, 0) && Comes(buf, 0, 1);
    TrackAbortsIff(buf, 0, t);
  }

  /** A system exclusive, then an event without status byte. */
  lemma DataBehindSysexExample(t: Track)
    ensures ParseEvents([0x00, 0xF0, 0x01, 0xF7, 0x00, 0x40], 0, t).Abort?
  {
    hide ExtractMidi, Extraction, ParseEvents;
    var buf, m: Message, rest := [0x00, 0xF0, 0x01, 0xF7, 0x00, 0x40], [0xF0, 0xF7], [0x00, 0x40];
    assert Encode(0) == [0] && Encode(1) == [1] && EventBytes(0, m) + rest == buf;
    ParseWritten(0, m, rest, 0);
    ExtractRestorable(m, rest, 0);
    assert rest == Encode(0) + [0x40] && buf[4..] == rest;
    ExtractEncode(0, [0x40]);
    assert Comes(rest, 0xF0, 0) && Comes(buf, 0, 1);
    TrackAbortsIff(buf, 0, t);
  }

  // ------------------------------------------------------- one track, there and back

  ghost predicate AllGood(t: Track) {
    forall i :: 0 <= i < |t| ==> Good(t[i].bytes)
  }

  ghost predicate RestorableAt(t: Track, i: nat)
    requires i < |t|
  {
    && Delta(t, i) < 0x1000_0000
    && RestorableMessage(t[i].bytes)
    && (EndsTrack(t[i].bytes) <==> i == |t| - 1)
  }

  ghost predicate RestorableFrom(t: Track, n: nat) {
    n < |t| && forall i :: n <= i < |t| ==> RestorableAt(t, i)
  }

  /**
   Deltas and system exclusives below 2^28, no escaped message, and the End Of
   Track where it belongs.
   */
  ghost predicate RestorableTrack(t: Track) {
    RestorableFrom(t, 0)
  }

  lemma GoodIsWritable(t: Track)
    requires Valid(t) && AllGood(t)
    ensures Writable(t)
  {
    forall i | 0 <= i < |t| ensures WritableAt(t, i) {
      assert i > 0 ==> TrackTimes(t)[i - 1] <= TrackTimes(t)[i];
    }
  }

  lemma AppendNext(t: Track, n: nat)
    requires Valid(t) && n < |t| && (n > 0 ==> !EndsTrack(t[n - 1].bytes))
    ensures Add(t[..n], Ev(LastTime(t[..n]) + Delta(t, n), t[n].bytes)) == t[..n + 1]
    ensures Delta(t, n) >= 0
  {
    var p, e := t[..n], Ev(LastTime(t[..n]) + Delta(t, n), t[n].bytes);
    assert n > 0 ==> TrackTimes(t)[n - 1] <= TrackTimes(t)[n];
    assert e == t[n];
    assert DropEot(p, e.time) == p;
    assert Add(p, e) == p + [e];
  }

  /** What the loader puts in place of an event it cannot read. */
  lemma AppendEot(p: Track)
    requires p != [] ==> !IsEot(p[|p| - 1].bytes)
    ensures Add(p, Ev(LastTime(p), EOT)) == p + [Ev(LastTime(p), EOT)]
  {
    assert DropEot(p, LastTime(p)) == p;
  }

  /** A stand-in End Of Track that is the event itself can be read after all. */
  lemma StandIn(t: Track, n: nat)
    requires n < |t| && (n > 0 ==> !EndsTrack(t[n - 1].bytes))
    requires Add(t[..n], Ev(LastTime(t[..n]), EOT)) == t
    ensures RestorableAt(t, n)
  {
    AppendEot(t[..n]);
    assert t[n] == Ev(LastTime(t[..n]), EOT);
  }

  /** How the loader goes on from event n. */
  lemma ParseStep(t: Track, n: nat, last: Byte)
    requires Valid(t) && AllGood(t) && Writable(t) && n < |t| && (n > 0 ==> !EndsTrack(t[n - 1].bytes))
    requires Delta(t, n) < 0x1000_0000 && RestorableMessage(t[n].bytes) && (t[n].bytes[0] == 0xF0 ==> n + 1 < |t|)
    ensures ParseEvents(Body(t, n), last, t[..n]) ==
            if EndsTrack(t[n].bytes) then Ok(t[..n + 1]) else ParseEvents(Body(t, n + 1), t[n].bytes[0], t[..n + 1])
  {
    hide *;
    AppendNext(t, n);
    BodyUnfold(t, n);
    ParseRestored(Delta(t, n), t[n].bytes, Body(t, n + 1), last);
    var event := EventBytes(Delta(t, n), t[n].bytes);
    assert (event + Body(t, n + 1))[|event|..] == Body(t, n + 1);
    ParseOn(event + Body(t, n + 1), last, t[..n], Delta(t, n), t[n].bytes, |event|);
  }

  lemma BodyUnfold(t: Track, n: nat)
    requires Writable(t) && n < |t|
    ensures WritableAt(t, n) && Delta(t, n) >= 0 && t[n].bytes != []
    ensures Body(t, n) == EventBytes(Delta(t, n), t[n].bytes) + Body(t, n + 1)
    ensures n + 1 < |t| ==> |Body(t, n + 1)| >= 2
    ensures AllGood(t) ==> Good(t[n].bytes)
  {
  }

  lemma ParseRestored(delta: nat, m: Message, rest: seq<Byte>, last: Byte)
    requires Good(m) && RestorableMessage(m) && delta < 0x1000_0000
    requires m != [] && (m[0] == 0xF0 ==> |rest| >= 2)
    ensures ParseEvent(EventBytes(delta, m) + rest, last) == Ok((delta, m, |EventBytes(delta, m)|))
  {
    hide *;
    ParseWritten(delta, m, rest, last);
    ExtractRestorable(m, rest, last);
    EventBytesLength(delta, m);
  }

  lemma EventBytesLength(delta: nat, m: Message)
    requires m != []
    ensures |EventBytes(delta, m)| == |Encode(delta)| + |MessageBytes(m)|
  {
  }

  lemma ParseOn(buf: seq<Byte>, last: Byte, p: Track, delta: nat, m: Message, used: nat)
    requires used <= |buf| && m != [] && ParseEvent(buf, last) == Ok((delta, m, used))
    ensures var grown := Add(p, Ev(LastTime(p) + delta, m));
            ParseEvents(buf, last, p) == if EndsTrack(m) then Ok(grown) else ParseEvents(buf[used..], m[0], grown)
  {
    hide ParseEvent, Add;
  }

  lemma {:induction false} ParseFrom(t: Track, n: nat, last: Byte)
    requires Valid(t) && AllGood(t) && Writable(t) && n <= |t|
    requires n > 0 ==> !EndsTrack(t[n - 1].bytes)
    ensures ParseEvents(Body(t, n), last, t[..n]) == Ok(t) <==> RestorableFrom(t, n)
    decreases |t| - n
  {
    if n < |t| {
      var m := t[n].bytes;
      if Delta(t, n) >= 0x1000_0000 || !RestorableMessage(m) || (m[0] == 0xF0 && n == |t| - 1) {
        LostEvent(t, n, last);
      } else {
        ParseStep(t, n, last);
        if !EndsTrack(m) {
          ParseFrom(t, n + 1, m[0]);
        }
        RestorableStep(t, n);
      }
    }
  }

  lemma RestorableStep(t: Track, n: nat)
    requires n < |t| && Delta(t, n) < 0x1000_0000 && RestorableMessage(t[n].bytes)
    ensures if EndsTrack(t[n].bytes) then t[..n + 1] == t <==> RestorableFrom(t, n)
            else RestorableFrom(t, n + 1) <==> RestorableFrom(t, n)
  {
    assert RestorableFrom(t, n) ==> RestorableAt(t, n);
    if n + 1 < |t| && RestorableFrom(t, n + 1) && !EndsTrack(t[n].bytes) {
      assert RestorableAt(t, n);
    }
    if n + 1 == |t| {
      assert t[..n + 1] == t;
    }
  }

  lemma LostEvent(t: Track, n: nat, last: Byte)
    requires Valid(t) && AllGood(t) && Writable(t) && n < |t| && (n > 0 ==> !EndsTrack(t[n - 1].bytes))
    requires Delta(t, n) >= 0x1000_0000 || !RestorableMessage(t[n].bytes) || (t[n].bytes[0] == 0xF0 && n == |t| - 1)
    ensures ParseEvents(Body(t, n), last, t[..n]) != Ok(t) && !RestorableFrom(t, n)
  {
    var m, delta, rest := t[n].bytes, Delta(t, n), Body(t, n + 1);
    AppendNext(t, n);
    ParseWritten(delta, m, rest, last);
    if delta < 0x1000_0000 {
      ExtractLost(m, rest, last);
    }
    assert !RestorableAt(t, n);
    if Add(t[..n], Ev(LastTime(t[..n]), EOT)) == t {
      StandIn(t, n);
    }
  }

  /** A track of good messages comes back from its bytes exactly when it is restorable. */
  lemma {:induction false} TrackRoundTripIff(t: Track)
    requires Valid(t) && AllGood(t)
    ensures Writable(t)
    ensures ParseEvents(Body(t, 0), 0, []) == Ok(t) <==> RestorableTrack(t)
  {
    GoodIsWritable(t);
    ParseFrom(t, 0, 0);
    assert t[..0] == [];
  }

  // ------------------------------------------------------- one file, there and back

  lemma ChunkParts(file: seq<Byte>, pre: seq<Byte>, id: seq<Byte>, body: seq<Byte>, post: seq<Byte>)
    requires file == pre + (Chunk(id, body) + post) && |id| == 4
    ensures |Chunk(id, body)| == 8 + |body| && |file| == |pre| + 8 + |body| + |post|
    ensures file[|pre|..|pre| + 4] == id && file[|pre| + 4..|pre| + 8] == Be32(|body|)
    ensures file[|pre| + 8..|pre| + 8 + |body|] == body
  {
    hide Be32;
    assert file == pre + (id + Be32(|body|) + body + post);
  }

  /** A chunk in the middle of a file is found, measured and stepped over. */
  lemma ChunkRead(mem: Memory, pre: seq<Byte>, id: seq<Byte>, body: seq<Byte>, post: seq<Byte>)
    requires mem.file == pre + (Chunk(id, body) + post) && |mem.file| < 0x8000_0000
    requires body != [] && |id| == 4 && forall i :: 0 <= i < 4 ==> IsAlpha(id[i])
    ensures NextChunk(mem.file, |pre|) == Ok(ChunkHeader(id, |body|, |pre| + 8 + |body|))
    ensures mem.Stretch(|pre| + 8, |body|) == body
    ensures |Chunk(id, body)| == 8 + |body|
  {
    hide Be32, FromBe32, Int32, IsAlpha, Chunk;
    var file, at := mem.file, |pre|;
    ChunkParts(file, pre, id, body, post);
    Be32Inverse(|body|);
    Int32Small(at + 8 + |body|);
    StretchInside(mem, at + 8, |body|);
  }

  lemma StretchInside(mem: Memory, from: nat, length: nat)
    requires from + length <= |mem.file|
    ensures mem.Stretch(from, length) == mem.file[from..from + length]
  {
  }

  lemma HeaderFields(mem: Memory, format: nat, tracks: nat, ppqn: nat, rest: seq<Byte>)
    requires mem.file == Header(format, tracks, ppqn) + rest && |mem.file| < 0x8000_0000
    ensures mem.file[..4] == MTHD && NextChunk(mem.file, 0) == Ok(ChunkHeader(MTHD, 6, 14))
    ensures mem.Stretch(8, 2) == Be16(format) && mem.Stretch(10, 2) == Be16(tracks) && mem.Stretch(12, 2) == Be16(ppqn)
  {
    hide NextChunk, Be16, Be32, FromBe16, FromBe32;
    var body := Be16(format) + Be16(tracks) + Be16(ppqn);
    assert mem.file == [] + (Chunk(MTHD, body) + rest);
    ChunkRead(mem, [], MTHD, body, rest);
    var b := mem.Stretch(8, 6);
    assert b[..2] == mem.Stretch(8, 2) && b[2..4] == mem.Stretch(10, 2) && b[4..] == mem.Stretch(12, 2);
    assert body[..2] == Be16(format) && body[2..4] == Be16(tracks) && body[4..] == Be16(ppqn);
    assert mem.file[..4] == MTHD;
  }

  /** The loader's view of a written header: 16 bits of each number. */
  lemma {:induction false} HeaderRead(mem: Memory, format: nat, tracks: nat, ppqn: nat, rest: seq<Byte>)
    requires mem.file == Header(format, tracks, ppqn) + rest && |mem.file| < 0x8000_0000 && format <= 2
    ensures var n, p := tracks % 0x1_0000, ppqn % 0x1_0000;
            ParseHeader(mem) == if format == 2 || n == 0 || p == 0 || p >= 0x8000 then Fail
                                else Ok(HeaderData(format, n, p, 14))
  {
    HeaderFields(mem, format, tracks, ppqn, rest);
    Be16Low(format);
    Be16Low(tracks);
    Be16Low(ppqn);
  }

  /** Tracks once loaded stay, and no more than expected are added. */
  lemma {:induction false} LoadKeeps(mem: Memory, offset: int, left: nat, s: Loaded)
    ensures var r := LoadTracks(mem, offset, left, s);
            r.Ok? ==> s.tracks <= r.value.tracks && |r.value.tracks| <= |s.tracks| + left && r.value.ppqn == s.ppqn
    decreases left
  {
    hide NextChunk, ParseTrack;
    if left > 0 {
      var h := NextChunk(mem.file, offset);
      if h.Fail? {
        LoadKeeps(mem, offset, left - 1, Grow(s));
      } else if h.Ok? {
        var t := ParseTrack(mem, offset, h.value);
        if t.Fail? {
          LoadKeeps(mem, h.value.next, left - 1, Grow(s));
        } else if t.Ok? {
          LoadKeeps(mem, h.value.next, left - 1, Grow(s).(tracks := s.tracks + [t.value]));
        }
      }
    }
  }

  ghost predicate GoodTrack(t: Track) {
    t != [] && Valid(t) && AllGood(t) && Writable(t)
  }

  ghost predicate GoodTracks(ts: seq<Track>)
    ensures GoodTracks(ts) ==> AllWritable(ts)
  {
    forall j :: 0 <= j < |ts| ==> GoodTrack(ts[j])
  }

  lemma TrackRead(mem: Memory, ts: seq<Track>, k: nat, pre: seq<Byte>)
    requires k < |ts| && GoodTracks(ts)
    requires mem.file == pre + TrackChunks(ts, k) && |mem.file| < 0x8000_0000
    ensures var chunk := Chunk(MTRK, Body(ts[k], 0));
            var header := NextChunk(mem.file, |pre|);
            && header.Ok? && header.value.next == |pre| + |chunk| && mem.file == pre + chunk + TrackChunks(ts, k + 1)
            && (ParseTrack(mem, |pre|, header.value) == Ok(ts[k]) <==> RestorableTrack(ts[k]))
            && !ParseTrack(mem, |pre|, header.value).Fail?
  {
    hide *;
    FirstChunk(ts, k);
    var body := Body(ts[k], 0);
    ChunkRead(mem, pre, MTRK, body, TrackChunks(ts, k + 1));
    Int32Small(8 + |body|);
    TrackRoundTripIff(ts[k]);
    ParseTrackIs(mem, |pre|, ChunkHeader(MTRK, |body|, |pre| + 8 + |body|));
    assert mem.file == pre + Chunk(MTRK, body) + TrackChunks(ts, k + 1);
  }

  lemma FirstChunk(ts: seq<Track>, k: nat)
    requires k < |ts| && GoodTracks(ts)
    ensures Valid(ts[k]) && AllGood(ts[k]) && Writable(ts[k]) && Body(ts[k], 0) != []
    ensures TrackChunks(ts, k) == Chunk(MTRK, Body(ts[k], 0)) + TrackChunks(ts, k + 1)
    ensures |MTRK| == 4 && forall i :: 0 <= i < 4 ==> IsAlpha(MTRK[i])
  {
  }

  lemma ParseTrackIs(mem: Memory, at: nat, header: ChunkHeader)
    requires header.id == MTRK && header.length > 0 && Int32(8 + header.length) == 8 + header.length
    ensures ParseTrack(mem, at, header) == ParseEvents(mem.Stretch(at + 8, header.length), 0, [])
  {
    hide ParseEvents, Int32;
  }

  ghost predicate RestorableTracks(ts: seq<Track>, k: nat) {
    forall j :: k <= j < |ts| ==> RestorableTrack(ts[j])
  }

  lemma LoadTracksUnfold(mem: Memory, offset: int, left: nat, s: Loaded)
    ensures LoadTracks(mem, offset, 0, s) == Ok(s)
    ensures match NextChunk(mem.file, offset)
            case Abort => LoadTracks(mem, offset, left + 1, s) == Abort
            case Fail => LoadTracks(mem, offset, left + 1, s) == LoadTracks(mem, offset, left, Grow(s))
            case Ok(header) =>
              && offset >= 0
              && match ParseTrack(mem, offset, header)
                 case Abort => LoadTracks(mem, offset, left + 1, s) == Abort
                 case Fail => LoadTracks(mem, offset, left + 1, s) == LoadTracks(mem, header.next, left, Grow(s))
                 case Ok(t) =>
                   LoadTracks(mem, offset, left + 1, s)
                       == LoadTracks(mem, header.next, left, Grow(s).(tracks := s.tracks + [t]))
  {
    hide NextChunk, ParseTrack, Grow;
  }

  lemma RestorableSplit(ts: seq<Track>, k: nat)
    ensures k < |ts| ==> (RestorableTracks(ts, k) <==> RestorableTrack(ts[k]) && RestorableTracks(ts, k + 1))
    ensures k == |ts| ==> RestorableTracks(ts, k)
  {
    hide RestorableTrack;
  }

  lemma {:induction false} LoadFrom(mem: Memory, ts: seq<Track>, k: nat, pre: seq<Byte>, s: Loaded)
    requires k <= |ts| && GoodTracks(ts)
    requires mem.file == pre + TrackChunks(ts, k) && |mem.file| < 0x8000_0000
    requires s.tracks == ts[..k] && (s.format == 1 || |ts| == 1)
    ensures LoadTracks(mem, |pre|, |ts| - k, s) == Ok(s.(tracks := ts)) <==> RestorableTracks(ts, k)
    decreases |ts| - k
  {
    hide NextChunk, ParseTrack, Chunk, RestorableTrack, GoodTrack, LoadTracks, RestorableTracks, GoodTracks, Body,
        TrackChunks;
    RestorableSplit(ts, k);
    if k == |ts| {
      LoadTracksUnfold(mem, |pre|, 0, s);
      assert ts[..k] == ts;
    } else {
      var chunk := Chunk(MTRK, Body(ts[k], 0));
      TrackRead(mem, ts, k, pre);
      LoadTracksUnfold(mem, |pre|, |ts| - k - 1, s);
      assert Grow(s) == s;
      var header := NextChunk(mem.file, |pre|).value;
      var t := ParseTrack(mem, |pre|, header);
      if t.Ok? {
        var grown := s.(tracks := s.tracks + [t.value]);
        LoadKeeps(mem, header.next, |ts| - k - 1, grown);
        if t.value == ts[k] {
          assert ts[..k + 1] == ts[..k] + [ts[k]];
          LoadFrom(mem, ts, k + 1, pre + chunk, grown);
        } else {
          assert grown.tracks[k] == t.value;
        }
      }
    }
  }

  /** What `smf_validate` accepts, once every track has its End Of Track. */
  ghost predicate Savable(format: nat, ppqn: nat, ts: seq<Track>) {
    && format <= 2 && ts != [] && (format == 0 ==> |ts| == 1) && ppqn > 0 && GoodTracks(ts)
  }

  /** The songs that survive a trip through a file. */
  ghost predicate Restorable(format: nat, ppqn: nat, ts: seq<Track>) {
    format != 2 && |ts| < 0x1_0000 && ppqn < 0x8000 && RestorableTracks(ts, 0)
  }

  /**
   Loading what saving wrote gives the song back, whatever lies behind the file in
   memory, exactly when the song is restorable.
   */
  lemma {:induction false} SaveLoadIff(format: nat, ppqn: nat, ts: seq<Track>, mem: Memory)
    requires Savable(format, ppqn, ts) && mem.file == FileBytes(format, ppqn, ts) && |mem.file| < 0x8000_0000
    ensures Load(mem) == Ok(Loaded(format, ppqn, ts)) <==> Restorable(format, ppqn, ts)
  {
    hide LoadTracks, RestorableTracks, ParseHeader, GoodTrack, Header, TrackChunks;
    HeaderRead(mem, format, |ts|, ppqn, TrackChunks(ts, 0));
    var n, p := |ts| % 0x1_0000, ppqn % 0x1_0000;
    LoadKeeps(mem, 14, n, Loaded(format, p, []));
    if |ts| < 0x1_0000 && format != 2 {
      assert ts[..0] == [];
      LoadFrom(mem, ts, 0, Header(format, |ts|, ppqn), Loaded(format, p, []));
    }
  }
}
