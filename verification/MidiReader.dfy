/**
 The reading half of `midifile.c`: a budget of bytes per chunk, running status, and a
 message buffer that grows as needed.
 */
module MidiReader {
  import opened Bytes
  import opened Chunks
  import opened Vlq
  import opened MidiStream

  const MSGINCREMENT := 128

  /** `Msgbuff`, `Msgsize` and `Msgindex`. */
  class MessageBuffer {
    var buff: array?<Byte>
    var size: int
    var index: int

    constructor ()
      ensures Valid() && Contents() == [] && buff == null
    {
      buff, size, index := null, 0, 0;
    }

    predicate Valid()
      reads this, buff
    {
      0 <= index <= size && if buff == null then size == 0 else buff.Length == size
    }

    function Contents(): seq<Byte>
      requires Valid()
      reads this, buff
    {
      if buff == null then [] else buff[..index]
    }

    /** `msginit`. */
    method Init()
      requires Valid()
      modifies this`index
      ensures Valid() && Contents() == []
    {
      index := 0;
    }

    /** `msgadd`. */
    method Add(c: Byte)
      requires Valid()
      modifies this, buff
      ensures Valid() && Contents() == old(Contents()) + [c]
      ensures buff == old(buff) || fresh(buff)
    {
      if index >= size {
        Grow();
      }
      buff[index] := c;
      index := index + 1;
    }

    /** `biggermsg`. */
    method Grow()
      requires Valid()
      modifies this`buff, this`size
      ensures Valid() && Contents() == old(Contents()) && fresh(buff)
      ensures buff != null && size == old(size) + 128 && index == old(index)
    {
      var oldMessage, oldLength := buff, size;
      size := size + MSGINCREMENT;
      var newMessage := new Byte[size];
      if oldMessage != null {
        var i := 0;
        while i != oldLength
          invariant 0 <= i <= oldLength && newMessage[..i] == oldMessage[..i]
          invariant size == oldLength + MSGINCREMENT && buff == oldMessage
        {
          newMessage[i] := oldMessage[i];
          i := i + 1;
        }
        assert newMessage[..index] == newMessage[..oldLength][..index] == oldMessage[..index];
      }
      buff := newMessage;
    }
  }

  class Reader {
    var input: seq<Byte>
    var toberead: int
    var currtime: int
    /** The calls made to the callbacks. */
    var heard: seq<Heard>
    const message: MessageBuffer
    const mode: Mode

    constructor (input: seq<Byte>, mode: Mode)
      ensures Valid() && this.input == input && heard == [] && this.mode == mode
      ensures fresh(message) && message.buff == null
    {
      this.input, this.mode := input, mode;
      toberead, currtime, heard := 0, 0, [];
      message := new MessageBuffer();
    }

    predicate Valid()
      reads message, message.buff
    {
      message.Valid()
    }

    function At(): Cursor
      reads this`input, this`toberead
    {
      Cursor(input, toberead)
    }

    /** `egetc`. */
    method EGetc() returns (r: Option<Byte>)
      modifies this`input, this`toberead
      ensures match Get(old(At()))
              case None => r == None && At() == old(At())
              case Some((c, at)) => r == Some(c) && At() == at
    {
      if input == [] {
        return None;
      }
      r := Some(input[0]);
      input := input[1..];
      toberead := toberead - 1;
    }

    /** `readvarinum`. */
    method ReadVarinum() returns (r: Option<nat>)
      modifies this`input, this`toberead
      ensures match GetVar(old(At()))
              case None => r == None
              case Some((v, at)) => r == Some(v) && At() == at
    {
      hide *;
      ghost var s, left := input, toberead;
      GetIs();
      GetVarIs(At());
      var c := EGetc();
      if c == None {
        return None;
      }
      ScanHead(s, 0);
      GetIs();
      var value: nat := c.value;
      if c.value >= 128 {
        value := value % 128;
        ghost var n := 1;
        while true
          invariant 1 <= n <= |s| && input == s[n..] && toberead == left - n
          invariant Scan(s) == None <==> Scan(input, value) == None
          invariant Scan(s) != None ==> Scan(s).value == (Scan(input, value).value.0, Scan(input, value).value.1 + n)
          decreases |input|
        {
          GetIs();
          ghost var before := value;
          c := EGetc();
          if c == None {
            return None;
          }
          GetIs();
          ScanHead(s[n..], before);
          value := value * 128 + (c.value as int) % 128;
          n := n + 1;
          if c.value < 128 {
            break;
          }
        }
      }
      r := Some(value);
    }

    lemma GetIs()
      ensures At() == Cursor(input, toberead)
      ensures Get(At()) == if input == [] then None else Some((input[0], Cursor(input[1..], toberead - 1)))
      ensures input == [] ==> Scan(input) == None && forall v: nat :: Scan(input, v) == None
    {
    }

    static lemma GetVarIs(c: Cursor)
      ensures GetVar(c) == if Scan(c.input) == None then None
                           else
                             var (value, used) := Scan(c.input).value;
                             Some((value, Cursor(c.input[used..], c.left - used)))
    {
    }

    /** `while (Mf_toberead > lookfor) msgadd(c = egetc())`; c is the last byte read. */
    method Collect(n: int, first: Byte) returns (ok: bool, c: Byte)
      requires Valid()
      modifies this`input, this`toberead, message, message.buff
      ensures Valid() && (message.buff == old(message.buff) || fresh(message.buff))
      ensures match GetMany(old(At()), n)
              case None => !ok
              case Some((m, at)) =>
                && ok && At() == at && message.Contents() == old(message.Contents()) + m
                && c == if m == [] then first else m[|m| - 1]
    {
      hide MessageBuffer.Contents, MessageBuffer.Valid;
      var lookfor := toberead - n;
      ghost var s, left, before := input, toberead, message.Contents();
      ghost var k := 0;
      c := first;
      while toberead > lookfor
        invariant 0 <= k <= |s| && k <= (if n > 0 then n else 0) && input == s[k..] && toberead == left - k
        invariant Valid() && (message.buff == old(message.buff) || fresh(message.buff))
        invariant message.Contents() == before + s[..k] && c == if k == 0 then first else s[k - 1]
        decreases toberead - lookfor
      {
        var b := EGetc();
        if b == None {
          return false, c;
        }
        c := b.value;
        message.Add(c);
        assert s[..k + 1] == s[..k] + [s[k]];
        k := k + 1;
      }
      ok := true;
      assert before + [] == before;
    }

    /** The state of `readtrack`, as a value: what was heard since `start`, and the message if one is unfinished. */
    ghost predicate Mirrors(r: Reading, start: seq<Heard>, status: int, sysexcontinue: bool)
      requires Valid()
      reads this`input, this`toberead, this`currtime, this`heard, message, message.buff
    {
      && At() == r.at && currtime == r.time && status == r.status && sysexcontinue == r.continuing
      && heard == start + r.heard && (sysexcontinue ==> message.Contents() == r.message)
    }

    /** The channel message case of `readtrack`. */
    method ChannelCase(status: int, c: Byte, running: bool, ghost r: Reading, ghost start: seq<Heard>)
      returns (ok: bool)
      requires Valid() && Mirrors(r, start, status, false) && Needed(status) > 0 && (running <==> c < 128)
      modifies this`input, this`toberead, this`heard
      ensures Valid()
      ensures match ReadChannel(r, c)
              case None => !ok
              case Some(x) => ok && Mirrors(x, start, status, false)
    {
      var c1 := c;
      if !running {
        var b := EGetc();
        if b == None {
          return false;
        }
        c1 := b.value;
      }
      var c2 := 0;
      if Needed(status) > 1 {
        var b := EGetc();
        if b == None {
          return false;
        }
        c2 := b.value;
      }
      heard := heard + [ChannelMessage(currtime, status, c1, c2)];
      ok := true;
    }

    /** The meta event case. */
    method MetaCase(status: int, ghost r: Reading, ghost start: seq<Heard>) returns (ok: bool)
      requires Valid() && Mirrors(r, start, status, false)
      modifies this`input, this`toberead, this`heard, message, message.buff
      ensures Valid() && (message.buff == old(message.buff) || fresh(message.buff))
      ensures match ReadMeta(r)
              case None => !ok
              case Some(x) => ok && Mirrors(x, start, status, false)
    {
      hide GetVar, GetMany, Int32, MessageBuffer.Contents, MessageBuffer.Valid;
      var kind := EGetc();
      if kind == None {
        return false;
      }
      var temp := ReadVarinum();
      if temp == None {
        return false;
      }
      message.Init();
      var c;
      ok, c := Collect(Int32(temp.value), kind.value);
      if ok {
        ghost var m := ReadMeta(r).value.message;
        assert [] + m == m && start + (r.heard + [MetaMessage(r.time, kind.value, m)])
            == heard + [MetaMessage(r.time, kind.value, m)];
        heard := heard + [MetaMessage(currtime, kind.value, message.Contents())];
      }
    }

    /** The system exclusive case. */
    method SysexCase(status: int, ghost r: Reading, ghost start: seq<Heard>) returns (ok: bool, sysexcontinue: bool)
      requires Valid() && Mirrors(r, start, status, false)
      modifies this`input, this`toberead, this`heard, message, message.buff
      ensures Valid() && (message.buff == old(message.buff) || fresh(message.buff))
      ensures match ReadSysex(r, mode)
              case None => !ok
              case Some(x) => ok && Mirrors(x, start, status, sysexcontinue)
    {
      hide GetVar, GetMany, Int32, MessageBuffer.Contents, MessageBuffer.Valid;
      sysexcontinue := false;
      var temp := ReadVarinum();
      if temp == None {
        return false, sysexcontinue;
      }
      message.Init();
      message.Add(0xF0);
      var c;
      ok, c := Collect(Int32(temp.value), 0xF0);
      if ok {
        ghost var m := ReadSysex(r, mode).value.message;
        assert message.Contents() == m
            && start + (r.heard + [SysexMessage(r.time, m)]) == heard + [SysexMessage(r.time, m)];
        if c == 0xF7 || !mode.nomerge {
          heard := heard + [SysexMessage(currtime, message.Contents())];
        } else {
          sysexcontinue := true;
        }
      }
    }

    /** The case of 0xF7: a continuation, or anything at all. */
    method ArbitraryCase(status: int, continuing: bool, ghost r: Reading, ghost start: seq<Heard>)
      returns (ok: bool, sysexcontinue: bool)
      requires Valid() && Mirrors(r, start, status, continuing)
      modifies this`input, this`toberead, this`heard, message, message.buff
      ensures Valid() && (message.buff == old(message.buff) || fresh(message.buff))
      ensures match ReadArbitrary(r, mode.loadFirst)
              case None => !ok
              case Some(x) => ok && Mirrors(x, start, status, sysexcontinue)
    {
      hide GetVar, GetMany, Int32, MessageBuffer.Contents, MessageBuffer.Valid;
      sysexcontinue := continuing;
      var loaded := toberead;
      var temp := ReadVarinum();
      if temp == None {
        return false, sysexcontinue;
      }
      var lookfor := (if mode.loadFirst then loaded else toberead) - temp.value;
      if !sysexcontinue {
        message.Init();
      }
      var c;
      ok, c := Collect(toberead - lookfor, 0xF7);
      if ok {
        ghost var m := ReadArbitrary(r, mode.loadFirst).value.message;
        assert message.Contents() == m;
        assert start + (r.heard + [SysexMessage(r.time, m)]) == heard + [SysexMessage(r.time, m)];
        assert start + (r.heard + [ArbitraryMessage(r.time, m)]) == heard + [ArbitraryMessage(r.time, m)];
        if !sysexcontinue {
          heard := heard + [ArbitraryMessage(currtime, message.Contents())];
        } else if c == 0xF7 {
          heard := heard + [SysexMessage(currtime, message.Contents())];
          sysexcontinue := false;
        }
      }
    }

    /** One turn of the loop of `readtrack`. */
    method ReadEvent(status: int, continuing: bool, ghost r: Reading, ghost start: seq<Heard>)
      returns (ok: bool, status': int, sysexcontinue: bool)
      requires Valid() && Mirrors(r, start, status, continuing)
      modifies this`input, this`toberead, this`currtime, this`heard, message, message.buff
      ensures Valid() && (message.buff == old(message.buff) || fresh(message.buff))
      ensures match MidiStream.ReadEvent(r, mode)
              case None => !ok
              case Some(x) => ok && Mirrors(x, start, status', sysexcontinue)
    {
      hide ReadChannel, ReadMeta, ReadSysex, ReadArbitrary, GetVar, MessageBuffer.Contents, MessageBuffer.Valid;
      status', sysexcontinue := status, continuing;
      ok := false;
      var delta := ReadVarinum();
      if delta == None {
        return;
      }
      currtime := currtime + delta.value;
      var c := EGetc();
      if c == None {
        return;
      }
      if sysexcontinue && c.value != 0xF7 {
        return;
      }
      var running := false;
      if c.value < 128 {
        if status == 0 {
          return;
        }
        running := true;
      } else {
        status' := c.value;
      }
      ghost var s := r.(at := At(), time := currtime, status := status');
      if Needed(status') > 0 {
        ok := ChannelCase(status', c.value, running, s, start);
        return;
      }
      match c.value
      case 0xFF => ok := MetaCase(status', s, start);
      case 0xF0 => ok, sysexcontinue := SysexCase(status', s, start);
      case 0xF7 => ok, sysexcontinue := ArbitraryCase(status', sysexcontinue, s, start);
      case _ => return;
    }

    /** `readmt`: at the end of the file, or past the identifier, or `mferror`. */
    method ReadMt(id: seq<Byte>) returns (m: Mark)
      requires |id| == 4
      modifies this`input
      ensures m == MidiStream.ReadMt(old(input), id, 0)
      ensures m.Found? ==> input == m.rest
      ensures m.EndOfFile? ==> input == []
    {
      var n := 0;
      while n < 4
        invariant 0 <= n <= 4 && MidiStream.ReadMt(old(input), id, 0) == MidiStream.ReadMt(input, id, n)
      {
        if input == [] {
          return EndOfFile;
        }
        var c := input[0];
        input := input[1..];
        if c != id[n] {
          return Wrong;
        }
        n := n + 1;
      }
      m := Found(input);
    }

    /** `read16bit`. */
    method Read16bit() returns (r: Option<nat>)
      modifies this`input, this`toberead
      ensures |old(input)| < 2 ==> r == None
      ensures |old(input)| >= 2 ==>
                r == Some(FromBe16(old(input)[..2])) && input == old(input)[2..] && toberead == old(toberead) - 2
    {
      var c1 := EGetc();
      var c2 := EGetc();
      if c1 == None || c2 == None {
        return None;
      }
      r := Some(c1.value * 256 + c2.value);
    }

    /** `read32bit`. */
    method Read32bit() returns (r: Option<nat>)
      modifies this`input, this`toberead
      ensures |old(input)| < 4 ==> r == None
      ensures |old(input)| >= 4 ==>
                r == Some(FromBe32(old(input)[..4])) && input == old(input)[4..] && toberead == old(toberead) - 4
    {
      ghost var s := input;
      var c1 := EGetc();
      var c2 := EGetc();
      var c3 := EGetc();
      var c4 := EGetc();
      if c1 == None || c2 == None || c3 == None || c4 == None {
        return None;
      }
      assert s[..4][..2] == [c1.value, c2.value] && s[..4][2..] == [c3.value, c4.value];
      var value: nat := c1.value;
      value := value * 256 + c2.value;
      value := value * 256 + c3.value;
      value := value * 256 + c4.value;
      r := Some(value);
    }

    /** `readtrack`. */
    method ReadTrack() returns (m: Mark)
      requires Valid()
      modifies this`input, this`toberead, this`currtime, this`heard, message, message.buff
      ensures Valid() && (message.buff == old(message.buff) || fresh(message.buff))
      ensures var mark := MidiStream.ReadMt(old(input), MTRK, 0);
              if !mark.Found? then m == mark && heard == old(heard)
              else if ReadBody(mark.rest, mode) == None then m == Wrong
              else
                var (after, more) := ReadBody(mark.rest, mode).value;
                m.Found? && input == after && heard == old(heard) + more && toberead <= 0
    {
      hide *;
      IdLength();
      var mark := ReadMt(MTRK);
      if !mark.Found? {
        return mark;
      }
      ghost var rest := input;
      var length := Read32bit();
      ReadBodyIs(rest, mode);
      if length == None {
        return Wrong;
      }
      toberead := length.value;
      currtime := 0;
      ghost var start := heard;
      heard := heard + [TrackStart];
      ghost var r := Fresh(input, toberead);
      FreshMirrors(start);
      var ok := ReadTrackEvents(r, start);
      if !ok {
        return Wrong;
      }
      AtIs();
      ghost var more := MidiStream.ReadEvents(r, mode).value.heard;
      assert start + more + [TrackEnd] == start + (more + [TrackEnd]);
      heard := heard + [TrackEnd];
      m := Found(input);
    }

    /** The loop of `readtrack`. */
    method ReadTrackEvents(ghost r: Reading, ghost start: seq<Heard>) returns (ok: bool)
      requires Valid() && Mirrors(r, start, 0, false)
      modifies this`input, this`toberead, this`currtime, this`heard, message, message.buff
      ensures Valid() && (message.buff == old(message.buff) || fresh(message.buff))
      ensures match MidiStream.ReadEvents(r, mode)
              case None => !ok
              case Some(x) => ok && At() == x.at && toberead <= 0 && heard == start + x.heard
    {
      hide *;
      var status, sysexcontinue := 0, false;
      ghost var now := r;
      while toberead > 0
        invariant Valid() && (message.buff == old(message.buff) || fresh(message.buff))
        invariant Mirrors(now, start, status, sysexcontinue)
        invariant MidiStream.ReadEvents(now, mode) == MidiStream.ReadEvents(r, mode)
        decreases |now.at.input|
      {
        MirrorsMeans(now, start, status, sysexcontinue);
        EventsStep(now, mode);
        ghost var next := MidiStream.ReadEvent(now, mode);
        ok, status, sysexcontinue := ReadEvent(status, sysexcontinue, now, start);
        if !ok {
          return;
        }
        now := next.value;
      }
      MirrorsMeans(now, start, status, sysexcontinue);
      EventsStep(now, mode);
      ok := true;
    }

    lemma MirrorsMeans(r: Reading, start: seq<Heard>, status: int, sysexcontinue: bool)
      requires Valid() && Mirrors(r, start, status, sysexcontinue)
      ensures At() == r.at == Cursor(input, toberead) && heard == start + r.heard
    {
    }

    lemma FreshMirrors(start: seq<Heard>)
      requires Valid() && currtime == 0 && heard == start + [TrackStart]
      ensures Mirrors(Fresh(input, toberead), start, 0, false)
    {
    }

    static lemma EventsStep(r: Reading, mode: Mode)
      ensures r.at.left <= 0 ==> MidiStream.ReadEvents(r, mode) == Some(r)
      ensures r.at.left > 0 ==>
                match MidiStream.ReadEvent(r, mode)
                case None => MidiStream.ReadEvents(r, mode) == None
                case Some(next) =>
                  && MidiStream.ReadEvents(r, mode) == MidiStream.ReadEvents(next, mode)
                  && |next.at.input| < |r.at.input|
    {
      hide MidiStream.ReadEvent;
    }

    lemma AtIs()
      ensures At() == Cursor(input, toberead)
    {
    }

    static lemma IdLength()
      ensures |MTRK| == 4 && |MTHD| == 4
    {
    }

    static ghost function Fresh(input: seq<Byte>, left: int): Reading {
      Reading(Cursor(input, left), 0, 0, false, [], [TrackStart])
    }

    static lemma ReadBodyIs(rest: seq<Byte>, mode: Mode)
      ensures |rest| < 4 ==> ReadBody(rest, mode) == None
      ensures |rest| >= 4 ==>
                match MidiStream.ReadEvents(Fresh(rest[4..], FromBe32(rest[..4])), mode)
                case None => ReadBody(rest, mode) == None
                case Some(x) => ReadBody(rest, mode) == Some((x.at.input, x.heard + [TrackEnd]))
    {
      hide MidiStream.ReadEvents, FromBe32;
    }

    /** `readheader`: Found past the header, EndOfFile when there is none. */
    method ReadHeader() returns (m: Mark)
      requires Valid()
      modifies this`input, this`toberead, this`heard
      ensures var mark := MidiStream.ReadMt(old(input), MTHD, 0);
              if !mark.Found? then m == mark && heard == old(heard) && (m.EndOfFile? ==> input == [])
              else if MidiStream.ReadHeader(mark.rest) == None then m == Wrong
              else
                var (after, header) := MidiStream.ReadHeader(mark.rest).value;
                m.Found? && input == after && heard == old(heard) + [header]
    {
      hide MidiStream.ReadMt;
      var mark := ReadMt(MTHD);
      if !mark.Found? {
        return mark;
      }
      ghost var s := input;
      var length := Read32bit();
      if length == None {
        return Wrong;
      }
      toberead := length.value;
      var format := Read16bit();
      var ntrks := Read16bit();
      var division := Read16bit();
      if format == None || ntrks == None || division == None {
        return Wrong;
      }
      assert s[4..][..2] == s[4..6] && s[4..][2..][..2] == s[6..8] && s[4..][2..][2..][..2] == s[8..10];
      heard := heard + [FileHeader(format.value, ntrks.value, division.value)];
      assert input == s[10..];
      var flushed := Flush();
      if !flushed {
        return Wrong;
      }
      m := Found(input);
    }

    /** Skip what is left of a chunk. */
    method Flush() returns (ok: bool)
      modifies this`input, this`toberead
      ensures match GetMany(old(At()), old(toberead))
              case None => !ok
              case Some((_, at)) => ok && input == at.input
    {
      ghost var s, left := input, toberead;
      ghost var k := 0;
      while toberead > 0
        invariant 0 <= k <= |s| && k <= (if left > 0 then left else 0) && input == s[k..] && toberead == left - k
        decreases toberead
      {
        var c := EGetc();
        if c == None {
          return false;
        }
        k := k + 1;
      }
      ok := true;
    }

    /** `mfread`; false where `mferror` ends the program. */
    method MfRead() returns (ok: bool)
      requires Valid() && heard == []
      modifies this`input, this`toberead, this`currtime, this`heard, message, message.buff
      ensures match ReadFile(old(input), mode)
              case None => !ok
              case Some(all) => ok && heard == all
    {
      hide *;
      ReadFileIs(input, mode);
      var header := ReadHeader();
      if header.Wrong? {
        return false;
      }
      ghost var start, before := input, heard;
      while true
        invariant Valid() && (message.buff == old(message.buff) || fresh(message.buff))
        invariant ReadTracks(start, mode) == None <==> ReadTracks(input, mode) == None
        invariant ReadTracks(start, mode) != None ==>
                    before + ReadTracks(start, mode).value == heard + ReadTracks(input, mode).value
        decreases |input|
      {
        TracksStep(input, mode);
        ghost var was, sofar := input, heard;
        var track := ReadTrack();
        if track.Wrong? {
          return false;
        }
        if track.EndOfFile? {
          assert heard + [] == heard;
          break;
        }
        ghost var rest := MidiStream.ReadMt(was, MTRK, 0).rest;
        ghost var more := ReadBody(rest, mode).value.1;
        if ReadTracks(input, mode).Some? {
          assert sofar + (more + ReadTracks(input, mode).value) == sofar + more + ReadTracks(input, mode).value;
        }
      }
      assert [] + heard == heard;
      ok := true;
    }

    static lemma ReadFileIs(s: seq<Byte>, mode: Mode)
      ensures |MTHD| == 4
      ensures var mark := MidiStream.ReadMt(s, MTHD, 0);
              if mark.EndOfFile? then ReadFile(s, mode) == ReadTracks([], mode)
              else if mark.Wrong? || MidiStream.ReadHeader(mark.rest) == None then ReadFile(s, mode) == None
              else
                var (after, header) := MidiStream.ReadHeader(mark.rest).value;
                ReadFile(s, mode) == if ReadTracks(after, mode) == None then None
                                        else Some([] + [header] + ReadTracks(after, mode).value)
    {
      hide MidiStream.ReadMt, ReadTracks, MidiStream.ReadHeader;
      assert forall h: Heard :: [] + [h] == [h];
    }

    static lemma TracksStep(input: seq<Byte>, mode: Mode)
      ensures |MTRK| == 4
      ensures var mark := MidiStream.ReadMt(input, MTRK, 0);
              if mark.EndOfFile? then ReadTracks(input, mode) == Some([])
              else if mark.Wrong? || ReadBody(mark.rest, mode) == None then ReadTracks(input, mode) == None
              else
                var (after, more) := ReadBody(mark.rest, mode).value;
                && |after| < |input|
                && ReadTracks(input, mode) == if ReadTracks(after, mode) == None then None
                                                 else Some(more + ReadTracks(after, mode).value)
    {
      hide MidiStream.ReadMt, ReadBody;
    }
  }
}
