/**
 Running status: an event that begins with a data byte is read with the status byte of the
 event before it.  Leaving out repeated status bytes does not change the track that is loaded.
 */
module RunningStatus {
  import opened Bytes
  import opened SmfFormat
  import opened Tracks
  import opened Vlq

  /** The status bytes that stay in force for the next event. */
  predicate Runs(status: Byte) {
    128 <= status != 0xF0 && status != 0xF7
  }

  /** The same outcome, with one byte less taken. */
  function OneLess(r: Outcome<(Message, nat)>): Outcome<(Message, int)> {
    match r
    case Ok(x) => Ok((x.0, x.1 - 1))
    case Fail => Fail
    case Abort => Abort
  }

  /** A data byte is read as if the status byte in force stood before it, whatever status that one would follow. */
  lemma {:induction false} StatusInForce(buf: seq<Byte>, last: Byte, x: Byte)
    requires buf != [] && buf[0] < 128 && Runs(last)
    ensures ExtractMidi(buf, last) == OneLess(ExtractMidi([last] + buf, x))
  {
    var full := [last] + buf;
    assert full[1..] == buf && buf[0..] == buf;
    var expected := ExpectedLength(last, buf);
    if expected.Ok? && expected.value - 1 <= |buf| {
      assert full[1..1 + expected.value - 1] == buf[0..0 + expected.value - 1];
    }
  }

  /** In a track, too: writing the status byte in force before the data bytes changes nothing that is loaded. */
  lemma {:induction false} StatusRestored(buf: seq<Byte>, last: Byte, x: Byte, t: Track)
    requires Extraction(buf).Extracted? && Extraction(buf).len < |buf|
    requires buf[Extraction(buf).len] < 128 && Runs(last)
    ensures var n := Extraction(buf).len;
            ParseEvents(buf, last, t) == ParseEvents(buf[..n] + ([last] + buf[n..]), x, t)
  {
    hide ExtractMidi, Add, Scan;
    var n := Extraction(buf).len;
    var full := buf[..n] + ([last] + buf[n..]);
    ExtractionStops(buf, [last] + buf[n..]);
    assert full[n..] == [last] + buf[n..];
    StatusInForce(buf[n..], last, x);
    if ParseEvent(full, x).Ok? {
      var used := ParseEvent(full, x).value.2;
      assert full[used..] == buf[used - 1..];
    }
  }

  /** Whatever follows a quantity has no part in it. */
  lemma ExtractionStops(buf: seq<Byte>, rest: seq<Byte>)
    requires Extraction(buf).Extracted?
    ensures Extraction(buf).len <= |buf|
    ensures Extraction(buf[..Extraction(buf).len] + rest) == Extraction(buf)
  {
    hide Scan;
    var v, n := Extraction(buf).value, Extraction(buf).len;
    ScanMeaning(buf, v, n);
    assert (buf[..n] + rest)[..n] == buf[..n];
    ScanMeaning(buf[..n] + rest, v, n);
  }

  // ------------------------------------------------- a writer that saves status bytes

  /** Event n can go without its status byte: the event before it has the same one, and a data byte follows. */
  predicate Repeats(t: Track, n: nat) {
    && 0 < n < |t| && t[n - 1].bytes != [] && |t[n].bytes| >= 2
    && t[n - 1].bytes[0] == t[n].bytes[0] && t[n].bytes[1] < 128
    && (t[n].bytes[0] < 0xF0 || t[n].bytes[0] == 0xFF)
  }

  /** The track from event n on, written without the status bytes of the events chosen, as far as that is possible. */
  ghost function TerseBody(t: Track, n: nat, chosen: set<nat>): (r: seq<Byte>)
    requires Writable(t) && n <= |t|
    ensures n < |t| ==> |r| >= 2
    decreases |t| - n
  {
    if n == |t| then []
    else
      assert WritableAt(t, n);
      var m := t[n].bytes;
      Encode(Delta(t, n)) + (if n in chosen && Repeats(t, n) then m[1..] else MessageBytes(m))
      + TerseBody(t, n + 1, chosen)
  }

  lemma ParseTerse(delta: nat, m: Message, rest: seq<Byte>)
    requires Good(m) && |m| >= 2 && m[1] < 128 && (m[0] < 0xF0 || m[0] == 0xFF) && delta < 0x1000_0000
    ensures ParseEvent(Encode(delta) + m[1..] + rest, m[0]) == Ok((delta, m, |Encode(delta) + m[1..]|))
  {
    hide Encode, Extraction, ExtractMidi, ExpectedLength;
    var v, b := Encode(delta), m[1..] + rest;
    assert v + m[1..] + rest == v + b && (v + b)[|v|..] == b;
    ExtractEncode(delta, b);
    StatusInForce(b, m[0], 0);
    assert [m[0]] + b == m + rest == MessageBytes(m) + rest;
    ExtractRestorable(m, rest, 0);
  }

  lemma TerseUnfold(t: Track, n: nat, chosen: set<nat>)
    requires Writable(t) && n < |t|
    ensures WritableAt(t, n) && t[n].bytes != []
    ensures var m := t[n].bytes;
            TerseBody(t, n, chosen) == Encode(Delta(t, n))
                                       + (if n in chosen && Repeats(t, n) then m[1..] else MessageBytes(m))
                                       + TerseBody(t, n + 1, chosen)
    ensures n + 1 < |t| ==> |TerseBody(t, n + 1, chosen)| >= 2
    ensures AllGood(t) ==> Good(t[n].bytes)
  {
  }

  /** How the loader goes on from event n. */
  lemma TerseStep(t: Track, n: nat, last: Byte, chosen: set<nat>)
    requires Valid(t) && AllGood(t) && Writable(t) && n < |t| && (n > 0 ==> !EndsTrack(t[n - 1].bytes))
    requires n > 0 && t[n - 1].bytes != [] ==> last == t[n - 1].bytes[0]
    requires Delta(t, n) < 0x1000_0000 && RestorableMessage(t[n].bytes) && (t[n].bytes[0] == 0xF0 ==> n + 1 < |t|)
    ensures ParseEvents(TerseBody(t, n, chosen), last, t[..n]) ==
            if EndsTrack(t[n].bytes) then Ok(t[..n + 1])
            else ParseEvents(TerseBody(t, n + 1, chosen), t[n].bytes[0], t[..n + 1])
  {
    hide ParseEvents, ParseEvent, MessageBytes, Encode, Valid, AllGood, Writable, TerseBody, Good, EndsTrack, Add;
    AppendNext(t, n);
    TerseUnfold(t, n, chosen);
    var delta, m, rest := Delta(t, n), t[n].bytes, TerseBody(t, n + 1, chosen);
    if n in chosen && Repeats(t, n) {
      var event := Encode(delta) + m[1..];
      ParseTerse(delta, m, rest);
      assert (event + rest)[|event|..] == rest;
      ParseOn(event + rest, last, t[..n], delta, m, |event|);
    } else {
      var event := EventBytes(delta, m);
      ParseRestored(delta, m, rest, last);
      assert event + rest == TerseBody(t, n, chosen);
      assert (event + rest)[|event|..] == rest;
      ParseOn(event + rest, last, t[..n], delta, m, |event|);
    }
  }

  /** What the loader makes of an event it cannot read: an error or a failed assertion, whatever follows. */
  lemma LostReads(delta: nat, m: Message, rest: seq<Byte>, last: Byte)
    requires Good(m) && (delta >= 0x1000_0000 || !RestorableMessage(m) || (m[0] == 0xF0 && rest == []))
    ensures ParseEvent(EventBytes(delta, m) + rest, last)
            == if delta < 0x1000_0000 && m[0] != 0xF0 then Abort else Fail
  {
    hide Encode, Extraction;
    ParseWritten(delta, m, rest, last);
    if delta < 0x1000_0000 {
      ExtractLost(m, rest, last);
      MessageAbortsIff(MessageBytes(m) + rest, last);
    }
  }

  lemma TooLongReads(delta: nat, rest: seq<Byte>, last: Byte)
    requires delta >= 0x1000_0000
    ensures ParseEvent(Encode(delta) + rest, last) == Fail
  {
    hide Encode, Extraction;
    ExtractEncode(delta, rest);
  }

  /** An event that cannot be read back from the one writer cannot from the other, for the same reason. */
  lemma TerseLost(t: Track, n: nat, last: Byte, chosen: set<nat>)
    requires Valid(t) && AllGood(t) && Writable(t) && n < |t|
    requires Delta(t, n) >= 0x1000_0000 || !RestorableMessage(t[n].bytes) || (t[n].bytes[0] == 0xF0 && n == |t| - 1)
    ensures ParseEvents(TerseBody(t, n, chosen), last, t[..n]) == ParseEvents(Body(t, n), last, t[..n])
  {
    hide ParseEvent, Encode, MessageBytes, Valid, AllGood, Writable, Good, EndsTrack, Add;
    BodyUnfold(t, n);
    TerseUnfold(t, n, chosen);
    var delta, m := Delta(t, n), t[n].bytes;
    var rest, terse := Body(t, n + 1), TerseBody(t, n + 1, chosen);
    LostReads(delta, m, rest, last);
    if n in chosen && Repeats(t, n) {
      TooLongReads(delta, m[1..] + terse, last);
      assert Encode(delta) + m[1..] + terse == Encode(delta) + (m[1..] + terse);
    } else {
      LostReads(delta, m, terse, last);
      assert EventBytes(delta, m) + terse == TerseBody(t, n, chosen);
    }
  }

  lemma {:induction false} TerseFrom(t: Track, n: nat, last: Byte, chosen: set<nat>)
    requires Valid(t) && AllGood(t) && Writable(t) && n <= |t|
    requires n > 0 ==> !EndsTrack(t[n - 1].bytes) && t[n - 1].bytes != [] && last == t[n - 1].bytes[0]
    ensures ParseEvents(TerseBody(t, n, chosen), last, t[..n]) == ParseEvents(Body(t, n), last, t[..n])
    decreases |t| - n
  {
    hide ParseEvents, Valid, AllGood, Writable, EndsTrack, Add;
    if n < |t| {
      var m := t[n].bytes;
      TerseUnfold(t, n, chosen);
      if Delta(t, n) >= 0x1000_0000 || !RestorableMessage(m) || (m[0] == 0xF0 && n == |t| - 1) {
        TerseLost(t, n, last, chosen);
      } else {
        TerseStep(t, n, last, chosen);
        ParseStep(t, n, last);
        if !EndsTrack(m) {
          TerseFrom(t, n + 1, m[0], chosen);
        }
      }
    }
  }

  /**
   Whichever repeated status bytes a writer leaves out, the loader makes of the track what it
   makes of all the status bytes: the same track, exactly when the track is restorable.
   */
  lemma {:induction false} TerseRoundTripIff(t: Track, chosen: set<nat>)
    requires Valid(t) && AllGood(t)
    ensures Writable(t)
    ensures ParseEvents(TerseBody(t, 0, chosen), 0, []) == ParseEvents(Body(t, 0), 0, [])
    ensures ParseEvents(TerseBody(t, 0, chosen), 0, []) == Ok(t) <==> RestorableTrack(t)
  {
    hide ParseEvents, TerseBody, Body, RestorableTrack;
    TrackRoundTripIff(t);
    TerseFrom(t, 0, 0, chosen);
    assert t[..0] == [];
  }

  lemma ExampleBody(t: Track)
    requires t == [Ev(0, [0x90, 0x3C, 0x40]), Ev(96, [0x90, 0x3C, 0x00]), Ev(96, [0xFF, 0x2F, 0x00])]
    ensures Writable(t)
    ensures TerseBody(t, 0, {1}) == [0x00, 0x90, 0x3C, 0x40, 0x60, 0x3C, 0x00, 0x00, 0xFF, 0x2F, 0x00]
  {
    hide Encode;
    assert Writable(t);
    SmallEncodes();
    assert TerseBody(t, 3, {1}) == [];
    assert TerseBody(t, 2, {1}) == [0x00, 0xFF, 0x2F, 0x00];
    assert TerseBody(t, 1, {1}) == [0x60, 0x3C, 0x00, 0x00, 0xFF, 0x2F, 0x00];
  }

  lemma SmallEncodes()
    ensures Encode(0) == [0x00] && Encode(96) == [0x60]
  {
  }

  /** A note on and the note off that repeats its status, 96 pulses later, in bytes. */
  lemma RunningExample()
    ensures ParseEvents([0x00, 0x90, 0x3C, 0x40, 0x60, 0x3C, 0x00, 0x00, 0xFF, 0x2F, 0x00], 0, [])
            == Ok([Ev(0, [0x90, 0x3C, 0x40]), Ev(96, [0x90, 0x3C, 0x00]), Ev(96, [0xFF, 0x2F, 0x00])])
  {
    hide ParseEvents, TerseBody, Encode;
    var t := [Ev(0, [0x90, 0x3C, 0x40]), Ev(96, [0x90, 0x3C, 0x00]), Ev(96, [0xFF, 0x2F, 0x00])];
    TerseRoundTripIff(t, {1});
    assert RestorableTrack(t);
    ExampleBody(t);
  }
}
