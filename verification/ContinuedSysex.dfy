/**
 A system exclusive in pieces: a first one that does not end in 0xF7, then 0xF7 events of which
 only the last does.  With `Mf_nomerge` set the reader puts them together.
 */
module ContinuedSysex {
  import opened Bytes
  import opened Chunks
  import opened MidiStream
  import opened Vlq

  /** A piece that ends the message; an empty one counts, for the last byte read is then the status byte. */
  predicate Closes(data: seq<Byte>) {
    data == [] || data[|data| - 1] == 0xF7
  }

  predicate IsPiece(e: Event) {
    e.Arbitrary? && Proper(e) && Packable(e.delta)
  }

  /** The pieces behind the first one; only the last ends the message. */
  ghost predicate Pieces(es: seq<Event>)
    ensures Pieces(es) ==> AllProper(es)
  {
    es != [] && forall i :: 0 <= i < |es| ==> IsPiece(es[i]) && (Closes(es[i].data) <==> i == |es| - 1)
  }

  function Joined(es: seq<Event>): seq<Byte> {
    if es == [] then [] else es[0].data + Joined(es[1..])
  }

  /** The state after a piece: one message longer, and heard if the piece ends it. */
  function PieceHeard(e: Event, r: Reading, rest: seq<Byte>): Reading
    requires Sized(e)
  {
    var m, time := r.message + e.data, r.time + e.delta;
    Reading(Cursor(rest, r.at.left - |EventOut(e, r.status)|), time, 0xF7, !Closes(e.data), m,
            if Closes(e.data) then r.heard + [SysexMessage(time, m)] else r.heard)
  }

  lemma PieceRead(e: Event, r: Reading, rest: seq<Byte>, mode: Mode)
    requires IsPiece(e) && r.continuing && !mode.loadFirst && r.at.input == EventOut(e, r.status) + rest
    ensures ReadEvent(r, mode) == Some(PieceHeard(e, r, rest))
  {
    hide ReadEvent, EventOut, Emitted, GetVar, GetMany, Int32;
    var c := DeltaRead(e, r, rest, mode);
    var s := Behind(e, r, rest);
    BlockWritten(e.data, rest, s.at.left);
  }

  lemma {:induction false} PiecesRead(es: seq<Event>, r: Reading, rest: seq<Byte>, mode: Mode)
    requires Pieces(es) && r.continuing && !mode.loadFirst
    requires r.at.input == TrackOut(es, r.status) + rest && r.at.left >= |TrackOut(es, r.status)|
    ensures var time, m := r.time + TotalTime(es), r.message + Joined(es);
            ReadEvents(r, mode) == ReadEvents(
              Reading(Cursor(rest, r.at.left - |TrackOut(es, r.status)|), time, 0xF7, false, m,
                      r.heard + [SysexMessage(time, m)]), mode)
    decreases |es|
  {
    hide ReadEvents, ReadEvent, EventOut, TrackOut, Proper, Packable, Closes;
    var more := TrackOut(es[1..], 0xF7) + rest;
    TrackOutUnfold(es, r.status, rest);
    assert IsPiece(es[0]) && (Closes(es[0].data) <==> |es| == 1);
    PieceRead(es[0], r, more, mode);
    var next := PieceHeard(es[0], r, more);
    OneMore(r, next, mode);
    if |es| == 1 {
      LastPiece(es, rest);
    } else {
      LaterPieces(es);
      PiecesRead(es[1..], next, rest, mode);
      assert r.message + es[0].data + Joined(es[1..]) == r.message + Joined(es);
    }
  }

  lemma LastPiece(es: seq<Event>, rest: seq<Byte>)
    requires |es| == 1 && AllProper(es)
    ensures TrackOut(es[1..], 0xF7) == [] && TrackOut(es[1..], 0xF7) + rest == rest
    ensures Joined(es) == es[0].data && TotalTime(es) == es[0].delta
  {
  }

  lemma LaterPieces(es: seq<Event>)
    requires Pieces(es) && |es| > 1
    ensures Pieces(es[1..])
  {
    forall i | 0 <= i < |es| - 1 ensures IsPiece(es[1..][i]) && (Closes(es[1..][i].data) <==> i == |es| - 2) {
      assert es[1..][i] == es[i + 1];
    }
  }

  lemma FirstRead(e: Event, r: Reading, rest: seq<Byte>, mode: Mode)
    requires e.Sysex? && Proper(e) && Packable(e.delta) && !r.continuing && mode.nomerge
    requires e.data == [] || e.data[|e.data| - 1] != 0xF7
    requires r.at.input == EventOut(e, r.status) + rest
    ensures ReadEvent(r, mode) == Some(Reading(
              Cursor(rest, r.at.left - |EventOut(e, r.status)|), r.time + e.delta, 0xF0, true,
              [0xF0] + e.data, r.heard))
  {
    hide ReadEvent, EventOut, Emitted, GetVar, GetMany, Int32;
    var c := DeltaRead(e, r, rest, mode);
    var s := Behind(e, r, rest);
    BlockWritten(e.data, rest, s.at.left);
    assert e.data != [] ==> ([0xF0] + e.data)[|e.data|] == e.data[|e.data| - 1];
  }

  /**
   A system exclusive written in pieces is heard as one message, all pieces in order behind the
   status byte, at the time of the last one; reading goes on behind it with nothing left over.
   */
  lemma {:induction false} HeardAsOne(first: Event, es: seq<Event>, r: Reading, rest: seq<Byte>, mode: Mode)
    requires first.Sysex? && Proper(first) && Packable(first.delta) && Pieces(es) && !r.continuing
    requires first.data == [] || first.data[|first.data| - 1] != 0xF7
    requires mode == Mode(true, false)
    requires var out := TrackOut([first] + es, r.status); r.at.input == out + rest && r.at.left >= |out|
    ensures var out := TrackOut([first] + es, r.status);
            var time, m := r.time + first.delta + TotalTime(es), [0xF0] + first.data + Joined(es);
            ReadEvents(r, mode) == ReadEvents(
              Reading(Cursor(rest, r.at.left - |out|), time, 0xF7, false, m, r.heard + [SysexMessage(time, m)]), mode)
  {
    hide ReadEvents, ReadEvent, EventOut, TrackOut, Packable, Closes, Pieces, AllProper;
    var all := [first] + es;
    Tailed(first, es);
    var more := TrackOut(es, 0xF0) + rest;
    TrackOutUnfold(all, r.status, rest);
    FirstRead(first, r, more, mode);
    var next := ReadEvent(r, mode).value;
    OneMore(r, next, mode);
    PiecesRead(es, next, rest, mode);
  }

  lemma Tailed(first: Event, es: seq<Event>)
    requires first.Sysex? && Proper(first) && Pieces(es)
    ensures AllProper(es) && AllProper([first] + es) && ([first] + es)[1..] == es && Status(first) == 0xF0
  {
  }
}
