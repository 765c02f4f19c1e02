/**
 The server's own codec, as values: the bytes `midifile.c` writes for a sequence of
 events, and what it hands to the callbacks for a sequence of bytes.
 */
module MidiStream {
  import opened Bytes
  import opened Chunks
  import opened Vlq

  // ------------------------------------------------------------------- writing

  /** One call of a write routine. */
  datatype Event =
    | Channel(delta: nat, kind: int, chan: int, data: seq<Byte>)
    | Sysex(delta: nat, data: seq<Byte>)
    | Arbitrary(delta: nat, data: seq<Byte>)
    | Meta(delta: nat, metaType: Byte, data: seq<Byte>)

  /** Status bytes of channel messages, and data that comes in a length a C `int` can count. */
  predicate Proper(e: Event) {
    && e.delta < WORD && |e.data| < 0x8000_0000
    && (e.Channel? ==> 0x80 <= e.kind <= 0xE0 && e.kind % 16 == 0 && 0 <= e.chan < 16)
  }

  /** The first status byte of an event, which is also what `laststatus` is after it. */
  function Status(e: Event): (r: Byte)
    requires Proper(e)
    ensures r >= 128
  {
    match e
    case Channel(_, kind, chan, _) => kind + chan
    case Sysex(_, _) => 0xF0
    case Arbitrary(_, _) => 0xF7
    case Meta(_, _, _) => 0xFF
  }

  /** Channel messages omit a status equal to the last. */
  function StatusBytes(e: Event, last: int): seq<Byte>
    requires Proper(e)
  {
    if e.Channel? && last == Status(e) then [] else [Status(e)]
  }

  /** What follows the status bytes of e. */
  function Payload(e: Event): seq<Byte>
    requires Proper(e)
  {
    match e
    case Channel(_, _, _, data) => data
    case Meta(_, t, data) => [t] + Emitted(|data|) + data
    case _ => Emitted(|e.data|) + e.data
  }

  /** `mf_write_midi_event` and `mf_write_meta_event`: the bytes for e after a status `last`. */
  function EventOut(e: Event, last: int): seq<Byte>
    requires Proper(e)
  {
    Emitted(e.delta) + StatusBytes(e, last) + Payload(e)
  }

  ghost predicate AllProper(es: seq<Event>) {
    forall i :: 0 <= i < |es| ==> Proper(es[i])
  }

  /** The body of a track, `last` being the status before its first event. */
  ghost function TrackOut(es: seq<Event>, last: int): seq<Byte>
    requires AllProper(es)
  {
    if es == [] then [] else EventOut(es[0], last) + TrackOut(es[1..], Status(es[0]))
  }

  lemma Unfolded(es: seq<Event>, n: nat, last: int)
    requires AllProper(es) && n < |es|
    ensures Proper(es[n]) && AllProper(es[n..]) && AllProper(es[n + 1..])
    ensures TrackOut(es[n..], last) == EventOut(es[n], last) + TrackOut(es[n + 1..], Status(es[n]))
  {
    hide EventOut, Status;
    assert es[n..][1..] == es[n + 1..] && es[n..][0] == es[n];
  }

  // ------------------------------------------------------------------- reading

  /** One call of a callback, with the time it is made at. */
  datatype Heard =
    | FileHeader(format: int, tracks: int, division: int)
    | TrackStart
    | TrackEnd
    | ChannelMessage(time: int, status: int, c1: int, c2: int)
    | SysexMessage(time: int, message: seq<Byte>)
    | ArbitraryMessage(time: int, message: seq<Byte>)
    | MetaMessage(time: int, metaType: Byte, message: seq<Byte>)

  /**
   What is fixed elsewhere: `Mf_nomerge`, and whether the compiled program loads
   `Mf_toberead` before it calls `readvarinum` in `Mf_toberead - readvarinum()`, where C
   leaves the order open.
   */
  datatype Mode = Mode(nomerge: bool, loadFirst: bool)

  /** Unread input, and `Mf_toberead`. */
  datatype Cursor = Cursor(input: seq<Byte>, left: int)

  /** `egetc`; None for a premature end. */
  function Get(c: Cursor): (r: Option<(Byte, Cursor)>)
    ensures r.Some? ==> |r.value.1.input| < |c.input|
  {
    if c.input == [] then None else Some((c.input[0], Cursor(c.input[1..], c.left - 1)))
  }

  /** `readvarinum`. */
  function GetVar(c: Cursor): (r: Option<(nat, Cursor)>)
    ensures r.Some? ==> |r.value.1.input| < |c.input|
  {
    match Scan(c.input)
    case None => None
    case Some((v, n)) => Some((v, Cursor(c.input[n..], c.left - n)))
  }

  /** `while (Mf_toberead > lookfor)`, n bytes on. */
  function GetMany(c: Cursor, n: int): (r: Option<(seq<Byte>, Cursor)>)
    ensures r.Some? ==> |r.value.1.input| <= |c.input|
  {
    if n <= 0 then Some(([], c))
    else if n > |c.input| then None
    else Some((c.input[..n], Cursor(c.input[n..], c.left - n)))
  }

  /** Data bytes a channel message needs, 0 for other statuses. */
  function Needed(status: int): nat {
    var high := status / 16 % 16;
    if high < 8 || high == 15 then 0 else if high == 12 || high == 13 then 1 else 2
  }

  /** The state of `readtrack` between events. */
  datatype Reading = Reading(
    at: Cursor, time: int, status: int, continuing: bool, message: seq<Byte>, heard: seq<Heard>)

  function ReadChannel(r: Reading, c: Byte): (x: Option<Reading>)
    ensures x.Some? ==> |x.value.at.input| <= |r.at.input|
  {
    var first := if c < 128 then Some((c, r.at)) else Get(r.at);
    if first.None? then None
    else
      var (c1, at) := first.value;
      if Needed(r.status) > 1 then
        match Get(at)
        case None => None
        case Some((c2, at')) => Some(r.(at := at', heard := r.heard + [ChannelMessage(r.time, r.status, c1, c2)]))
      else
        Some(r.(at := at, heard := r.heard + [ChannelMessage(r.time, r.status, c1, 0)]))
  }

  function ReadMeta(r: Reading): (x: Option<Reading>)
    ensures x.Some? ==> |x.value.at.input| <= |r.at.input|
  {
    match Get(r.at)
    case None => None
    case Some((t, at)) =>
      match GetVar(at)
      case None => None
      case Some((n, at')) =>
        match GetMany(at', Int32(n))
        case None => None
        case Some((m, at'')) => Some(r.(at := at'', message := m, heard := r.heard + [MetaMessage(r.time, t, m)]))
  }

  function ReadSysex(r: Reading, mode: Mode): (x: Option<Reading>)
    ensures x.Some? ==> |x.value.at.input| <= |r.at.input|
  {
    match GetVar(r.at)
    case None => None
    case Some((n, at)) =>
      match GetMany(at, Int32(n))
      case None => None
      case Some((m, at')) =>
        var message := [0xF0] + m;
        if message[|message| - 1] == 0xF7 || !mode.nomerge then
          Some(r.(at := at', message := message, heard := r.heard + [SysexMessage(r.time, message)]))
        else
          Some(r.(at := at', message := message, continuing := true))
  }

  /** The bytes read for an announced length n: short by those of the length itself when the budget is loaded first. */
  function Announced(n: nat, before: Cursor, after: Cursor, loadFirst: bool): int {
    if loadFirst then n - (before.left - after.left) else n
  }

  function ReadArbitrary(r: Reading, loadFirst: bool): (x: Option<Reading>)
    ensures x.Some? ==> |x.value.at.input| <= |r.at.input|
  {
    match GetVar(r.at)
    case None => None
    case Some((n, at)) =>
      match GetMany(at, Announced(n, r.at, at, loadFirst))
      case None => None
      case Some((m, at')) =>
        if !r.continuing then
          Some(r.(at := at', message := m, heard := r.heard + [ArbitraryMessage(r.time, m)]))
        else if m == [] || m[|m| - 1] == 0xF7 then
          Some(r.(at := at', message := r.message + m, continuing := false,
                  heard := r.heard + [SysexMessage(r.time, r.message + m)]))
        else
          Some(r.(at := at', message := r.message + m))
  }

  /** The event that starts with byte c, the time being up to date. */
  function ReadFrom(r: Reading, c: Byte, mode: Mode): (x: Option<Reading>)
    ensures x.Some? ==> |x.value.at.input| <= |r.at.input|
  {
    if r.continuing && c != 0xF7 then None
    else if c < 128 && r.status == 0 then None
    else
      var s := if c < 128 then r else r.(status := c);
      if Needed(s.status) > 0 then ReadChannel(s, c)
      else if c == 0xFF then ReadMeta(s)
      else if c == 0xF0 then ReadSysex(s, mode)
      else if c == 0xF7 then ReadArbitrary(s, mode.loadFirst)
      else None
  }

  /** One turn of the loop of `readtrack`; None where `mferror` ends the program. */
  function ReadEvent(r: Reading, mode: Mode): (x: Option<Reading>)
    ensures x.Some? ==> |x.value.at.input| < |r.at.input|
  {
    match GetVar(r.at)
    case None => None
    case Some((delta, at)) =>
      match Get(at)
      case None => None
      case Some((c, at')) => ReadFrom(r.(at := at', time := r.time + delta), c, mode)
  }

  function ReadEvents(r: Reading, mode: Mode): (x: Option<Reading>)
    ensures x.Some? ==> |x.value.at.input| <= |r.at.input|
    decreases |r.at.input|
  {
    if r.at.left <= 0 then Some(r)
    else
      match ReadEvent(r, mode)
      case None => None
      case Some(next) => ReadEvents(next, mode)
  }

  datatype Mark = Found(rest: seq<Byte>) | EndOfFile | Wrong

  /** `readmt`, from the i-th byte of the identifier on. */
  function ReadMt(input: seq<Byte>, id: seq<Byte>, i: nat): (m: Mark)
    requires i <= 4 == |id|
    ensures m.Found? ==> |m.rest| == |input| - (4 - i)
    decreases 4 - i
  {
    if i == 4 then Found(input)
    else if input == [] then EndOfFile
    else if input[0] != id[i] then Wrong
    else ReadMt(input[1..], id, i + 1)
  }

  /** `readtrack` behind the chunk identifier: the unread input and what was heard. */
  function ReadBody(input: seq<Byte>, mode: Mode): (x: Option<(seq<Byte>, seq<Heard>)>)
    ensures x.Some? ==> |x.value.0| < |input|
  {
    if |input| < 4 then None
    else
      var left := FromBe32(input[..4]);
      match ReadEvents(Reading(Cursor(input[4..], left), 0, 0, false, [], [TrackStart]), mode)
      case None => None
      case Some(r) => Some((r.at.input, r.heard + [TrackEnd]))
  }

  /** The loop of `mfread`: tracks until the end of the file. */
  function ReadTracks(input: seq<Byte>, mode: Mode): Option<seq<Heard>>
    decreases |input|
  {
    match ReadMt(input, MTRK, 0)
    case EndOfFile => Some([])
    case Wrong => None
    case Found(rest) =>
      match ReadBody(rest, mode)
      case None => None
      case Some((after, heard)) =>
        match ReadTracks(after, mode)
        case None => None
        case Some(more) => Some(heard + more)
  }

  /** `readheader` behind the chunk identifier. */
  function ReadHeader(input: seq<Byte>): (x: Option<(seq<Byte>, Heard)>) {
    if |input| < 10 then None
    else
      var format, tracks, division := FromBe16(input[4..6]), FromBe16(input[6..8]), FromBe16(input[8..10]);
      match GetMany(Cursor(input[10..], FromBe32(input[..4]) - 6), FromBe32(input[..4]) - 6)
      case None => None
      case Some((_, c)) => Some((c.input, FileHeader(format, tracks, division)))
  }

  /** `mfread`: everything the callbacks hear; None where `mferror` ends the program. */
  function ReadFile(input: seq<Byte>, mode: Mode): Option<seq<Heard>> {
    match ReadMt(input, MTHD, 0)
    case EndOfFile => ReadTracks([], mode)
    case Wrong => None
    case Found(rest) =>
      match ReadHeader(rest)
      case None => None
      case Some((after, header)) =>
        match ReadTracks(after, mode)
        case None => None
        case Some(heard) => Some([header] + heard)
  }

  // ------------------------------------------------------------ there and back

  /** What an event sounds like when read back. */
  function Hear(e: Event, time: int): Heard
    requires Sized(e)
  {
    match e
    case Channel(_, _, _, data) =>
      ChannelMessage(time, Status(e), data[0], if Needed(Status(e)) > 1 then data[1] else 0)
    case Sysex(_, data) => SysexMessage(time, [0xF0] + data)
    case Arbitrary(_, data) => ArbitraryMessage(time, data)
    case Meta(_, t, data) => MetaMessage(time, t, data)
  }

  /** The deltas the packed word holds. */
  predicate Packable(v: nat) {
    v < 0x100_0000_0000_0000 || (v < 0x8000_0000_0000_0000 && v % 128 == 0)
  }

  /** A channel message has its number of data bytes. */
  predicate Sized(e: Event) {
    Proper(e) && (e.Channel? ==> |e.data| == Needed(Status(e)))
  }

  /** The channel messages a writer and the reader agree on, in numbers. */
  lemma ChannelSizes(delta: nat, kind: int, chan: int, data: seq<Byte>)
    ensures Sized(Channel(delta, kind, chan, data)) <==>
            && delta < 0x1_0000_0000_0000_0000 && 0 <= chan < 16
            && kind in {0x80, 0x90, 0xA0, 0xB0, 0xC0, 0xD0, 0xE0}
            && |data| == if kind == 0xC0 || kind == 0xD0 then 1 else 2
  {
  }

  /**
   Bytes no event can start with: any but 0xF7 while a system exclusive is incomplete, a data byte
   without a channel status in force, and the system statuses other than 0xF0 and 0xF7.
   */
  lemma BadByte(r: Reading, c: Byte, mode: Mode)
    requires || (r.continuing && c != 0xF7)
             || (c < 128 && (r.status == 0 || 0xF0 <= r.status < 256))
             || (0xF0 < c < 0xFF && c != 0xF7)
    ensures ReadFrom(r, c, mode) == None
  {
  }

  /**
   Events that survive behind a status `last`: the delta fits the packed word; the first
   data byte of a channel message without a status byte of its own is none itself; a
   system exclusive is complete in itself when continued ones are merged; and a 0xF7 event
   is empty when the budget is loaded first.
   */
  predicate Readable(e: Event, last: int, mode: Mode) {
    && Sized(e) && Packable(e.delta)
    && (e.Channel? && e.data != [] && last == Status(e) ==> e.data[0] < 128)
    && (e.Sysex? && mode.nomerge ==> e.data != [] && e.data[|e.data| - 1] == 0xF7)
    && (e.Arbitrary? && mode.loadFirst ==> e.data == [])
  }

  /** The same along a track, each event behind the one before it. */
  ghost predicate AllReadable(es: seq<Event>, last: int, mode: Mode)
    ensures AllReadable(es, last, mode) ==> AllSized(es) && AllProper(es)
  {
    es != [] ==>
      && Readable(es[0], last, mode)
      && assert es == [es[0]] + es[1..]; AllReadable(es[1..], Status(es[0]), mode)
  }

  ghost predicate AllSized(es: seq<Event>) {
    forall i :: 0 <= i < |es| ==> Sized(es[i])
  }

  ghost function HearAll(es: seq<Event>, time: int): seq<Heard>
    requires AllSized(es)
  {
    if es == [] then []
    else [Hear(es[0], time + es[0].delta)] + HearAll(es[1..], time + es[0].delta)
  }

  ghost function TotalTime(es: seq<Event>): nat {
    if es == [] then 0 else es[0].delta + TotalTime(es[1..])
  }

  lemma VarWritten(v: nat, rest: seq<Byte>, left: int)
    requires Packable(v)
    ensures GetVar(Cursor(Emitted(v) + rest, left)) == Some((v, Cursor(rest, left - |Emitted(v)|)))
  {
    WriterCorrectIff(v);
    ScanEncode(v, rest);
    assert (Emitted(v) + rest)[|Emitted(v)|..] == rest;
  }

  /** What the packed word loses is lost for good: beyond those values the reader gets another number. */
  lemma VarRoundTripIff(v: Word, rest: seq<Byte>, left: int)
    ensures GetVar(Cursor(Emitted(v) + rest, left)) == Some((v, Cursor(rest, left - |Emitted(v)|))) <==>
            Packable(v)
  {
    var out := Emitted(v);
    if GetVar(Cursor(out + rest, left)) == Some((v, Cursor(rest, left - |out|))) {
      assert (out + rest)[..|out|] == out;
      ScanMeaning(out + rest, v, |out|);
      EncodeMeaning(v);
      MinimalIsEncode(out);
      WriterCorrectIff(v);
    }
    if Packable(v) {
      VarWritten(v, rest, left);
    }
  }

  lemma ManyWritten(m: seq<Byte>, rest: seq<Byte>, left: int)
    ensures GetMany(Cursor(m + rest, left), |m|) == Some((m, Cursor(rest, left - |m|)))
  {
    assert (m + rest)[..|m|] == m && (m + rest)[|m|..] == rest;
    assert m == [] ==> m + rest == rest;
  }

  /** A length and that many bytes, as meta events, system exclusives and 0xF7 events end. */
  lemma BlockWritten(m: seq<Byte>, rest: seq<Byte>, left: int)
    requires |m| < 0x8000_0000
    ensures var after := Cursor(m + rest, left - |Emitted(|m|)|);
            && GetVar(Cursor(Emitted(|m|) + m + rest, left)) == Some((|m|, after)) && Int32(|m|) == |m|
            && GetMany(after, |m|) == Some((m, Cursor(rest, left - |Emitted(|m|) + m|)))
  {
    hide Emitted, GetVar, GetMany, Int32;
    assert Emitted(|m|) + m + rest == Emitted(|m|) + (m + rest);
    VarWritten(|m|, m + rest, left);
    ManyWritten(m, rest, left - |Emitted(|m|)|);
    Int32Small(|m|);
  }

  lemma MetaRead(e: Event, r: Reading, rest: seq<Byte>, mode: Mode)
    requires Proper(e) && e.Meta? && !r.continuing && r.at.input == Payload(e) + rest
    ensures ReadFrom(r, 0xFF, mode) == Some(r.(at := Cursor(rest, r.at.left - |Payload(e)|), status := 0xFF,
                                               message := e.data, heard := r.heard + [Hear(e, r.time)]))
  {
    hide Emitted, GetVar, GetMany, Int32;
    assert (Payload(e) + rest)[1..] == Emitted(|e.data|) + e.data + rest;
    BlockWritten(e.data, rest, r.at.left - 1);
  }

  lemma SysexRead(e: Event, r: Reading, rest: seq<Byte>, mode: Mode)
    requires Proper(e) && e.Sysex? && !r.continuing && r.at.input == Payload(e) + rest
    requires mode.nomerge ==> e.data != [] && e.data[|e.data| - 1] == 0xF7
    ensures ReadFrom(r, 0xF0, mode) == Some(r.(at := Cursor(rest, r.at.left - |Payload(e)|), status := 0xF0,
                                               message := [0xF0] + e.data, heard := r.heard + [Hear(e, r.time)]))
  {
    hide Emitted, GetVar, GetMany, Int32;
    BlockWritten(e.data, rest, r.at.left);
    assert e.data != [] ==> ([0xF0] + e.data)[|e.data|] == e.data[|e.data| - 1];
  }

  lemma ArbitraryRead(e: Event, r: Reading, rest: seq<Byte>, mode: Mode)
    requires Proper(e) && e.Arbitrary? && !r.continuing && r.at.input == Payload(e) + rest
    requires mode.loadFirst ==> e.data == []
    ensures ReadFrom(r, 0xF7, mode) == Some(r.(at := Cursor(rest, r.at.left - |Payload(e)|), status := 0xF7,
                                               message := e.data, heard := r.heard + [Hear(e, r.time)]))
  {
    hide Emitted, GetVar, Int32;
    BlockWritten(e.data, rest, r.at.left);
  }

  lemma ChannelRead(e: Event, r: Reading, c: Byte, rest: seq<Byte>, mode: Mode)
    requires Sized(e) && !r.continuing && e.Channel? && e.data != []
    requires c == Status(e) || (r.status == Status(e) && c == e.data[0] < 128)
    requires r.at.input == (if c == Status(e) then e.data else e.data[1..]) + rest
    ensures ReadFrom(r, c, mode) == Some(r.(
              at := Cursor(rest, r.at.left - |e.data| + (if c == Status(e) then 0 else 1)), status := Status(e),
              heard := r.heard + [Hear(e, r.time)]))
  {
    var d := e.data;
    if c == Status(e) {
      assert (d + rest)[1..] == d[1..] + rest;
    }
    assert |d| == 1 ==> d[1..] + rest == rest;
    assert |d| == 2 ==> d[1..] + rest == [d[1]] + rest && ([d[1]] + rest)[1..] == rest;
  }

  /** The event that was written has been read: its time, its data, exactly its bytes, and the writer's status. */
  predicate ComesBack(e: Event, r: Reading, x: Option<Reading>, rest: seq<Byte>)
    requires Sized(e)
  {
    && x.Some? && !x.value.continuing && x.value.status == Status(e) && x.value.time == r.time + e.delta
    && x.value.at == Cursor(rest, r.at.left - |EventOut(e, r.status)|)
    && x.value.heard == r.heard + [Hear(e, r.time + e.delta)]
  }

  /** What ReadEvent has left to do once the delta is read: the first byte of the rest, and all behind it. */
  function Behind(e: Event, r: Reading, rest: seq<Byte>): Reading
    requires Sized(e)
  {
    var tail := StatusBytes(e, r.status) + Payload(e) + rest;
    var left := r.at.left - |Emitted(e.delta)|;
    r.(at := Cursor(if tail == [] then [] else tail[1..], left - 1), time := r.time + e.delta)
  }

  lemma DeltaRead(e: Event, r: Reading, rest: seq<Byte>, mode: Mode) returns (c: Byte)
    requires Sized(e) && Packable(e.delta) && r.at.input == EventOut(e, r.status) + rest
    ensures ReadEvent(r, mode) == ReadFrom(Behind(e, r, rest), c, mode)
    ensures |EventOut(e, r.status)| == |Emitted(e.delta)| + |StatusBytes(e, r.status)| + |Payload(e)|
    ensures Behind(e, r, rest).at.left == r.at.left - |Emitted(e.delta)| - 1
    ensures if e.Channel? && r.status == Status(e)
            then e.data != [] && c == e.data[0] && |StatusBytes(e, r.status)| == 0
                 && Behind(e, r, rest).at.input == Payload(e)[1..] + rest
            else c == Status(e) && |StatusBytes(e, r.status)| == 1 && Behind(e, r, rest).at.input == Payload(e) + rest
  {
    hide ReadEvent, ReadFrom, Emitted, GetVar;
    var tail := StatusBytes(e, r.status) + Payload(e) + rest;
    OutParts(e, r.status, rest);
    VarWritten(e.delta, tail, r.at.left);
    ReadEventIs(r, e.delta, Cursor(tail, r.at.left - |Emitted(e.delta)|), mode);
    c := tail[0];
  }

  /** One event read back: the reader's status is again the writer's. */
  lemma EventRead(e: Event, r: Reading, rest: seq<Byte>, mode: Mode)
    requires Readable(e, r.status, mode) && !r.continuing
    requires r.at.input == EventOut(e, r.status) + rest
    ensures ComesBack(e, r, ReadEvent(r, mode), rest)
  {
    hide ReadEvent, ReadFrom, EventOut, Emitted;
    var c := DeltaRead(e, r, rest, mode);
    var s := Behind(e, r, rest);
    if e.Channel? {
      ChannelNeeds(e);
      ChannelRead(e, s, c, rest, mode);
    } else if e.Meta? {
      MetaRead(e, s, rest, mode);
    } else if e.Sysex? {
      SysexRead(e, s, rest, mode);
    } else {
      ArbitraryRead(e, s, rest, mode);
    }
  }

  /** A delta the packed word does not hold is read as another. */
  lemma DeltaLost(e: Event, r: Reading, rest: seq<Byte>, mode: Mode)
    requires Sized(e) && !Packable(e.delta) && r.at.input == EventOut(e, r.status) + rest
    ensures !ComesBack(e, r, ReadEvent(r, mode), rest)
  {
    hide ReadFrom, Emitted, GetVar, ComesBack;
    var tail := StatusBytes(e, r.status) + Payload(e) + rest;
    assert r.at.input == Emitted(e.delta) + tail;
    var v, n := VarLost(e.delta, tail, r.at.left);
    var (delta, at) := GetVar(r.at).value;
    if at.input != [] {
      ReadEventIs(r, delta, at, mode);
      ReadFromTime(r.(at := Cursor(at.input[1..], at.left - 1), time := r.time + delta), at.input[0], mode);
    }
    NotInTime(e, r, ReadEvent(r, mode), rest);
  }

  lemma NotInTime(e: Event, r: Reading, x: Option<Reading>, rest: seq<Byte>)
    requires Sized(e) && (x.Some? ==> x.value.time != r.time + e.delta)
    ensures !ComesBack(e, r, x, rest)
  {
  }

  lemma VarLost(v: Word, tail: seq<Byte>, left: int) returns (w: nat, n: nat)
    requires !Packable(v)
    ensures GetVar(Cursor(Emitted(v) + tail, left)).Some? && GetVar(Cursor(Emitted(v) + tail, left)).value.0 == w != v
  {
    var out := Emitted(v);
    n := |out|;
    w := Value(out);
    EmittedIsVlq(v);
    assert (out + tail)[..n] == out;
    ScanMeaning(out + tail, w, n);
    if w == v {
      MinimalIsEncode(out);
      WriterCorrectIff(v);
    }
  }

  lemma EmittedIsVlq(v: nat)
    ensures Minimal(Emitted(v)) && Emitted(v) != []
  {
    EncodeMeaning(v);
  }

  lemma ReadFromTime(r: Reading, c: Byte, mode: Mode)
    ensures var x := ReadFrom(r, c, mode); x.Some? ==> x.value.time == r.time && (c >= 128 ==> x.value.status == c)
  {
  }

  /** A data byte taken for a status byte: another status, or one byte too many. */
  lemma ChannelLost(e: Event, s: Reading, c: Byte, mode: Mode)
    requires Sized(e) && e.Channel? && !s.continuing && c >= 128
    ensures var x := ReadFrom(s, c, mode);
            x.Some? && x.value.status == Status(e) ==> x.value.at.left == s.at.left - Needed(Status(e))
  {
    ReadFromTime(s, c, mode);
    ChannelNeeds(e);
  }

  lemma SysexLost(e: Event, s: Reading, rest: seq<Byte>, mode: Mode)
    requires Proper(e) && e.Sysex? && !s.continuing && s.at.input == Payload(e) + rest
    requires mode.nomerge && !(e.data != [] && e.data[|e.data| - 1] == 0xF7)
    ensures ReadFrom(s, 0xF0, mode).Some? && ReadFrom(s, 0xF0, mode).value.continuing
  {
    hide Emitted, GetVar, GetMany, Int32;
    BlockWritten(e.data, rest, s.at.left);
    assert e.data != [] ==> ([0xF0] + e.data)[|e.data|] == e.data[|e.data| - 1];
  }

  lemma ArbitraryLost(e: Event, s: Reading, rest: seq<Byte>, mode: Mode)
    requires Proper(e) && e.Arbitrary? && !s.continuing && s.at.input == Payload(e) + rest
    requires mode.loadFirst && e.data != []
    ensures var x := ReadFrom(s, 0xF7, mode); x.Some? ==> x.value.at.left > s.at.left - |Payload(e)|
  {
    hide GetVar, Int32, Emitted, Minimal;
    EmittedIsVlq(|e.data|);
    BlockWritten(e.data, rest, s.at.left);
  }

  lemma EventLost(e: Event, r: Reading, rest: seq<Byte>, mode: Mode)
    requires Sized(e) && Packable(e.delta) && !Readable(e, r.status, mode) && !r.continuing
    requires r.at.input == EventOut(e, r.status) + rest
    ensures !ComesBack(e, r, ReadEvent(r, mode), rest)
  {
    hide ReadEvent, ReadFrom, EventOut, Emitted;
    var c := DeltaRead(e, r, rest, mode);
    var s := Behind(e, r, rest);
    if e.Channel? {
      ChannelLost(e, s, c, mode);
    } else if e.Sysex? {
      SysexLost(e, s, rest, mode);
    } else {
      ArbitraryLost(e, s, rest, mode);
    }
  }

  /** An event comes back from its bytes exactly when it is readable behind the status before it. */
  lemma EventReadIff(e: Event, r: Reading, rest: seq<Byte>, mode: Mode)
    requires Sized(e) && !r.continuing && r.at.input == EventOut(e, r.status) + rest
    ensures ComesBack(e, r, ReadEvent(r, mode), rest) <==> Readable(e, r.status, mode)
  {
    hide ComesBack, EventOut;
    if Readable(e, r.status, mode) {
      EventRead(e, r, rest, mode);
    } else if Packable(e.delta) {
      EventLost(e, r, rest, mode);
    } else {
      DeltaLost(e, r, rest, mode);
    }
  }

  /** A 0xF7 event with one data byte, the budget loaded first: an empty message is heard and the byte is left over. */
  lemma LoadFirstExample()
    ensures EventOut(Arbitrary(0, [0x42]), 0) == [0x00, 0xF7, 0x01, 0x42]
    ensures ReadEvent(Reading(Cursor([0x00, 0xF7, 0x01, 0x42], 4), 0, 0, false, [], []), Mode(false, true))
         == Some(Reading(Cursor([0x42], 1), 0, 0xF7, false, [], [ArbitraryMessage(0, [])]))
  {
    hide ReadEvent, ReadFrom;
    var file: seq<Byte> := [0x00, 0xF7, 0x01, 0x42];
    SmallVar(0, file, 4);
    assert file[1..] == [0xF7, 0x01, 0x42] && [0xF7, 0x01, 0x42][1..] == [0x01, 0x42];
    ReadEventIs(Reading(Cursor(file, 4), 0, 0, false, [], []), 0, Cursor([0xF7, 0x01, 0x42], 3), Mode(false, true));
    LoadFirstPayload();
    assert Groups(0) == [] && Encode(0) == [0] && Encode(1) == [1];
  }

  lemma SmallVar(b: Byte, s: seq<Byte>, left: int)
    requires s != [] && s[0] == b < 128
    ensures GetVar(Cursor(s, left)) == Some((b, Cursor(s[1..], left - 1)))
  {
    ScanHead(s, 0);
  }

  lemma LoadFirstPayload()
    ensures ReadFrom(Reading(Cursor([0x01, 0x42], 2), 0, 0, false, [], []), 0xF7, Mode(false, true))
         == Some(Reading(Cursor([0x42], 1), 0, 0xF7, false, [], [ArbitraryMessage(0, [])]))
  {
    hide GetVar;
    SmallVar(1, [0x01, 0x42], 2);
    assert [0x01, 0x42][1..] == [0x42];
    var none: seq<Heard> := [];
    assert none + [ArbitraryMessage(0, [])] == [ArbitraryMessage(0, [])];
  }

  lemma ReadEventIs(r: Reading, delta: nat, at: Cursor, mode: Mode)
    requires GetVar(r.at) == Some((delta, at)) && at.input != []
    ensures ReadEvent(r, mode)
         == ReadFrom(r.(at := Cursor(at.input[1..], at.left - 1), time := r.time + delta), at.input[0], mode)
  {
    hide ReadFrom, GetVar;
  }

  /** The bytes of an event taken apart. */
  lemma OutParts(e: Event, last: int, rest: seq<Byte>)
    requires Sized(e)
    ensures var tail := StatusBytes(e, last) + Payload(e) + rest;
            && EventOut(e, last) + rest == Emitted(e.delta) + tail
            && |EventOut(e, last)| == |Emitted(e.delta)| + |StatusBytes(e, last)| + |Payload(e)|
            && tail != []
            && (StatusBytes(e, last) != [] ==>
                StatusBytes(e, last) == [Status(e)] && tail[0] == Status(e) && tail[1..] == Payload(e) + rest)
            && (StatusBytes(e, last) == [] ==> e.Channel? && last == Status(e) && e.data != []
                                               && tail[0] == e.data[0] && tail[1..] == Payload(e)[1..] + rest)
  {
    if e.Channel? {
      ChannelNeeds(e);
    }
  }

  lemma ChannelNeeds(e: Event)
    requires Proper(e) && e.Channel?
    ensures 1 <= Needed(Status(e)) <= 2
  {
  }

  lemma TrackOutUnfold(es: seq<Event>, last: int, rest: seq<Byte>)
    requires AllProper(es) && es != []
    ensures Proper(es[0]) && AllProper(es[1..])
    ensures TrackOut(es, last) + rest == EventOut(es[0], last) + (TrackOut(es[1..], Status(es[0])) + rest)
    ensures |TrackOut(es, last)| == |EventOut(es[0], last)| + |TrackOut(es[1..], Status(es[0]))|
    ensures |EventOut(es[0], last)| > 0
  {
    EncodeMeaning(es[0].delta);
  }

  /**
   A written track read back: the callbacks get the same events at the same
   absolute times, and exactly the bytes of the track are consumed.
   */
  lemma {:induction false} TrackReadBack(es: seq<Event>, r: Reading, rest: seq<Byte>, mode: Mode)
    requires AllReadable(es, r.status, mode) && !r.continuing
    requires r.at == Cursor(TrackOut(es, r.status) + rest, |TrackOut(es, r.status)|)
    ensures var x := ReadEvents(r, mode);
            && x.Some? && x.value.at == Cursor(rest, 0) && x.value.time == r.time + TotalTime(es)
            && x.value.heard == r.heard + HearAll(es, r.time)
    decreases |es|
  {
    hide *;
    HearUnfold(es, r.status, r.time, mode);
    if es == [] {
      NothingLeft(r, mode);
      assert [] + rest == rest && r.heard + [] == r.heard;
    } else {
      TrackOutUnfold(es, r.status, rest);
      var more := TrackOut(es[1..], Status(es[0])) + rest;
      EventRead(es[0], r, more, mode);
      BackMeans(es[0], r, ReadEvent(r, mode), more);
      var next := ReadEvent(r, mode).value;
      OneMore(r, next, mode);
      TrackReadBack(es[1..], next, rest, mode);
      assert r.heard + [Hear(es[0], r.time + es[0].delta)] + HearAll(es[1..], next.time)
          == r.heard + ([Hear(es[0], r.time + es[0].delta)] + HearAll(es[1..], next.time));
    }
  }

  lemma BackMeans(e: Event, r: Reading, x: Option<Reading>, rest: seq<Byte>)
    requires Sized(e) && ComesBack(e, r, x, rest)
    ensures x.Some? && !x.value.continuing && x.value.status == Status(e) && x.value.time == r.time + e.delta
    ensures x.value.at == Cursor(rest, r.at.left - |EventOut(e, r.status)|)
    ensures x.value.heard == r.heard + [Hear(e, r.time + e.delta)]
  {
  }

  lemma HearUnfold(es: seq<Event>, last: int, time: int, mode: Mode)
    requires AllReadable(es, last, mode)
    ensures es == [] ==> HearAll(es, time) == [] && TotalTime(es) == 0 && TrackOut(es, last) == []
    ensures es != [] ==>
              && Sized(es[0]) && Readable(es[0], last, mode) && AllReadable(es[1..], Status(es[0]), mode)
              && AllSized(es[1..]) && AllProper(es[1..])
              && HearAll(es, time) == [Hear(es[0], time + es[0].delta)] + HearAll(es[1..], time + es[0].delta)
              && TotalTime(es) == es[0].delta + TotalTime(es[1..])
  {
  }

  lemma NothingLeft(r: Reading, mode: Mode)
    requires r.at.left <= 0
    ensures ReadEvents(r, mode) == Some(r)
  {
  }

  lemma OneMore(r: Reading, next: Reading, mode: Mode)
    requires r.at.left > 0 && ReadEvent(r, mode) == Some(next)
    ensures ReadEvents(r, mode) == ReadEvents(next, mode)
  {
    hide ReadEvent;
  }

  // ------------------------------------------------------------- a whole file

  ghost predicate ProperTracks(ts: seq<seq<Event>>) {
    forall i :: 0 <= i < |ts| ==> AllProper(ts[i])
  }

  ghost function TracksOut(ts: seq<seq<Event>>): seq<Byte>
    requires ProperTracks(ts)
  {
    if ts == [] then [] else Chunk(MTRK, TrackOut(ts[0], 0)) + TracksOut(ts[1..])
  }

  /** `mfwrite`, for tracks whose events are ts. */
  ghost function FileOut(format: nat, division: nat, ts: seq<seq<Event>>): seq<Byte>
    requires ProperTracks(ts)
  {
    Header(format, |ts|, division) + TracksOut(ts)
  }

  /** What the tempo track callback adds behind the header of a format 1 file: bare events, in no chunk. */
  ghost function TempoOut(format: nat, tempoTrack: Option<seq<Event>>): seq<Byte>
    requires tempoTrack.Some? ==> AllProper(tempoTrack.value)
  {
    if format == 1 && tempoTrack.Some? then TrackOut(tempoTrack.value, 0) else []
  }

  /** Events that survive, in tracks whose length fits the length field. */
  ghost predicate ReadableTracks(ts: seq<seq<Event>>, mode: Mode)
    ensures ReadableTracks(ts, mode) ==> ProperTracks(ts)
  {
    forall i :: 0 <= i < |ts| ==>
      AllReadable(ts[i], 0, mode) && |TrackOut(ts[i], 0)| < 0x1_0000_0000
  }

  ghost function HearTracks(ts: seq<seq<Event>>, mode: Mode): seq<Heard>
    requires ReadableTracks(ts, mode)
  {
    if ts == [] then []
    else [TrackStart] + HearAll(ts[0], 0) + [TrackEnd] + HearTracks(ts[1..], mode)
  }

  lemma MarkRead(id: seq<Byte>, rest: seq<Byte>)
    requires |id| == 4
    ensures ReadMt(id + rest, id, 0) == Found(rest)
  {
    MarkFrom(id, rest, 4);
    MarkFrom(id, rest, 3);
    MarkFrom(id, rest, 2);
    MarkFrom(id, rest, 1);
    assert id[0..] == id;
  }

  lemma MarkFrom(id: seq<Byte>, rest: seq<Byte>, i: nat)
    requires |id| == 4 && 1 <= i <= 4
    ensures i == 4 ==> id[4..] + rest == rest
    ensures ReadMt(id[i - 1..] + rest, id, i - 1) == ReadMt(id[i..] + rest, id, i)
  {
    assert id[i - 1..] == [id[i - 1]] + id[i..];
    assert (id[i - 1..] + rest)[1..] == id[i..] + rest;
  }

  lemma BodyReadBack(es: seq<Event>, rest: seq<Byte>, mode: Mode)
    requires AllReadable(es, 0, mode) && |TrackOut(es, 0)| < 0x1_0000_0000
    ensures ReadBody(Be32(|TrackOut(es, 0)|) + TrackOut(es, 0) + rest, mode)
         == Some((rest, [TrackStart] + HearAll(es, 0) + [TrackEnd]))
  {
    hide ReadEvents, HearAll, TrackOut, AllProper, AllSized, AllReadable, Be32, FromBe32;
    var out := TrackOut(es, 0);
    var input := Be32(|out|) + out + rest;
    assert input[..4] == Be32(|out|) && input[4..] == out + rest;
    Be32Inverse(|out|);
    TrackReadBack(es, Reading(Cursor(out + rest, |out|), 0, 0, false, [], [TrackStart]), rest, mode);
  }

  /** Written tracks read back: as many tracks as were written, then the end of the file. */
  lemma {:induction false} TracksReadBack(ts: seq<seq<Event>>, mode: Mode)
    requires ReadableTracks(ts, mode)
    ensures ReadTracks(TracksOut(ts), mode) == Some(HearTracks(ts, mode))
  {
    hide *;
    TracksUnfold(ts, mode);
    if ts == [] {
      NoTracks(mode);
    } else {
      var out, more := TrackOut(ts[0], 0), TracksOut(ts[1..]);
      var rest := Be32(|out|) + out + more;
      MarkRead(MTRK, rest);
      BodyReadBack(ts[0], more, mode);
      TracksReadBack(ts[1..], mode);
      OneTrackMore(MTRK + rest, rest, more, [TrackStart] + HearAll(ts[0], 0) + [TrackEnd],
                   HearTracks(ts[1..], mode), mode);
    }
  }

  lemma TracksUnfold(ts: seq<seq<Event>>, mode: Mode)
    requires ReadableTracks(ts, mode)
    ensures |MTRK| == 4
    ensures ts == [] ==> TracksOut(ts) == [] && HearTracks(ts, mode) == []
    ensures ts != [] ==>
              && ReadableTracks(ts[1..], mode) && ProperTracks(ts[1..])
              && AllReadable(ts[0], 0, mode) && AllSized(ts[0]) && AllProper(ts[0])
              && |TrackOut(ts[0], 0)| < 0x1_0000_0000
              && TracksOut(ts) == MTRK + (Be32(|TrackOut(ts[0], 0)|) + TrackOut(ts[0], 0) + TracksOut(ts[1..]))
              && HearTracks(ts, mode)
                 == ([TrackStart] + HearAll(ts[0], 0) + [TrackEnd]) + HearTracks(ts[1..], mode)
  {
    hide TrackOut, HearAll, AllReadable, AllSized, AllProper, Be32;
    if ts != [] {
      assert forall i :: 0 <= i < |ts| - 1 ==> ts[1..][i] == ts[i + 1];
      var out, more := TrackOut(ts[0], 0), TracksOut(ts[1..]);
      assert MTRK + Be32(|out|) + out + more == MTRK + (Be32(|out|) + out + more);
    }
  }

  lemma NoTracks(mode: Mode)
    ensures ReadTracks([], mode) == Some([])
  {
  }

  lemma OneTrackMore(input: seq<Byte>, rest: seq<Byte>, after: seq<Byte>, heard: seq<Heard>, more: seq<Heard>,
      mode: Mode)
    requires |MTRK| == 4 && ReadMt(input, MTRK, 0) == Found(rest) && ReadBody(rest, mode) == Some((after, heard))
    requires ReadTracks(after, mode) == Some(more)
    ensures ReadTracks(input, mode) == Some(heard + more)
  {
    hide ReadMt, ReadBody;
  }

  lemma HeaderReadBack(format: nat, tracks: nat, division: nat, rest: seq<Byte>)
    ensures ReadMt(Header(format, tracks, division) + rest, MTHD, 0).Found?
    ensures ReadHeader(ReadMt(Header(format, tracks, division) + rest, MTHD, 0).rest)
         == Some((rest, FileHeader(format % 0x1_0000, tracks % 0x1_0000, division % 0x1_0000)))
  {
    hide Be16, Be32, FromBe16, FromBe32;
    var body := Be32(6) + Be16(format) + Be16(tracks) + Be16(division) + rest;
    assert Header(format, tracks, division) + rest == MTHD + body;
    MarkRead(MTHD, body);
    assert body[..4] == Be32(6) && body[4..6] == Be16(format) && body[6..8] == Be16(tracks)
        && body[8..10] == Be16(division);
    assert body[10..] == rest;
    Be32Inverse(6);
    Be16Low(format);
    Be16Low(tracks);
    Be16Low(division);
  }

  /** A file that ends within an identifier ends there; one that has another byte there is given up. */
  lemma EndsInIdentifier(k: nat, other: seq<Byte>, mode: Mode)
    requires k < 4
    ensures var header, track: seq<Byte> := [0x4D, 0x54, 0x68, 0x64], [0x4D, 0x54, 0x72, 0x6B];
            && ReadFile(header[..k], mode) == Some([]) && ReadTracks(track[..k], mode) == Some([])
            && (other != [] && other[0] != header[k] ==> ReadFile(header[..k] + other, mode) == None)
            && (other != [] && other[0] != track[k] ==> ReadTracks(track[..k] + other, mode) == None)
  {
    MarkStops(MTHD, k, other);
    MarkStops(MTRK, k, other);
    MarkStops(MTRK, 0, []);
  }

  lemma MarkStops(id: seq<Byte>, k: nat, other: seq<Byte>)
    requires k < 4 == |id|
    ensures ReadMt(id[..k], id, 0) == EndOfFile
    ensures other != [] && other[0] != id[k] ==> ReadMt(id[..k] + other, id, 0) == Wrong
  {
    MarkStopsFrom(id, k, other, 0);
  }

  lemma {:induction false} MarkStopsFrom(id: seq<Byte>, k: nat, other: seq<Byte>, i: nat)
    requires i <= k < 4 == |id|
    ensures ReadMt(id[i..k], id, i) == EndOfFile
    ensures other != [] && other[0] != id[k] ==> ReadMt(id[i..k] + other, id, i) == Wrong
    decreases k - i
  {
    if i < k {
      assert id[i..k][1..] == id[i + 1..k];
      assert (id[i..k] + other)[1..] == id[i + 1..k] + other;
      MarkStopsFrom(id, k, other, i + 1);
    }
  }

  /** A header chunk of any length: three numbers are read, and what the chunk has left is skipped. */
  lemma HeaderSkips(length: nat, format: nat, tracks: nat, division: nat, extra: seq<Byte>, rest: seq<Byte>)
    requires length < 0x1_0000_0000 && |extra| == if length > 6 then length - 6 else 0
    ensures ReadHeader(Be32(length) + (Be16(format) + Be16(tracks) + Be16(division)) + (extra + rest))
         == Some((rest, FileHeader(format % 0x1_0000, tracks % 0x1_0000, division % 0x1_0000)))
  {
    hide Be16, Be32, FromBe16, FromBe32;
    var input := Be32(length) + (Be16(format) + Be16(tracks) + Be16(division)) + (extra + rest);
    assert input[..4] == Be32(length) && input[4..6] == Be16(format) && input[6..8] == Be16(tracks)
        && input[8..10] == Be16(division) && input[10..] == extra + rest;
    Be32Inverse(length);
    Be16Low(format);
    Be16Low(tracks);
    Be16Low(division);
    assert extra == [] ==> extra + rest == rest;
    assert (extra + rest)[|extra|..] == rest;
  }

  /** Reading what `mfwrite` wrote hands the callbacks every event of every track at its absolute time. */
  lemma {:induction false} FileReadBack(format: nat, division: nat, ts: seq<seq<Event>>, mode: Mode)
    requires ReadableTracks(ts, mode)
    ensures ReadFile(FileOut(format, division, ts), mode)
         == Some([FileHeader(format % 0x1_0000, |ts| % 0x1_0000, division % 0x1_0000)] + HearTracks(ts, mode))
  {
    hide ReadMt, ReadHeader, ReadTracks, Header, TracksOut, HearTracks;
    HeaderReadBack(format, |ts|, division, TracksOut(ts));
    TracksReadBack(ts, mode);
  }

  /** A single byte without continuation bit, or one with it in front. */
  lemma EmittedFirst(v: nat)
    ensures Emitted(v) != [] && (Emitted(v)[0] < 128 ==> |Emitted(v)| == 1)
  {
    KeptShape(v);
  }

  /** No written event starts like a track chunk, so bare events behind the header stop the reader. */
  lemma EventIsNoChunk(e: Event, rest: seq<Byte>)
    requires Proper(e)
    ensures ReadMt(EventOut(e, 0) + rest, MTRK, 0) == Wrong
  {
    hide Emitted, Payload;
    EmittedFirst(e.delta);
    var input := EventOut(e, 0) + rest;
    assert input[0] == Emitted(e.delta)[0];
    if input[0] == MTRK[0] {
      assert input[1] == Status(e);
      assert ReadMt(input, MTRK, 0) == ReadMt(input[1..], MTRK, 1);
    }
  }

  /**
   A format 1 file with a tempo track callback: the reader gets everything back exactly when
   the callback wrote no event; otherwise it gives up behind the header.
   */
  lemma {:induction false} TempoTrackReadBack(ntracks: nat, division: nat, es: seq<Event>, ts: seq<seq<Event>>,
      mode: Mode)
    requires AllProper(es) && ReadableTracks(ts, mode) && ntracks == |ts|
    ensures ReadFile(Header(1, ntracks, division) + TempoOut(1, Some(es)) + TracksOut(ts), mode)
         == if es != [] then None
            else Some([FileHeader(1, ntracks % 0x1_0000, division % 0x1_0000)] + HearTracks(ts, mode))
  {
    hide ReadMt, ReadHeader, ReadTracks, Header, TracksOut, HearTracks, EventOut;
    var header, tempo, rest := Header(1, ntracks, division), TempoOut(1, Some(es)), TracksOut(ts);
    assert header + tempo + rest == header + (tempo + rest);
    if es == [] {
      assert header + tempo == header;
      FileReadBack(1, division, ts, mode);
    } else {
      HeaderReadBack(1, ntracks, division, tempo + rest);
      var more := TrackOut(es[1..], Status(es[0])) + rest;
      assert tempo + rest == EventOut(es[0], 0) + more;
      EventIsNoChunk(es[0], more);
      WrongTracks(tempo + rest, mode);
    }
  }

  lemma WrongTracks(input: seq<Byte>, mode: Mode)
    requires |MTRK| == 4 && ReadMt(input, MTRK, 0) == Wrong
    ensures ReadTracks(input, mode) == None
  {
    hide ReadMt;
  }
}
