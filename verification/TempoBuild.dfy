/**
 How the tempo map comes from the events: the single-pass rebuild over the
 playback order, and the shortcut taken when a tempo-related event is appended at
 the end of the song.
 */
module TempoBuild {
  import opened Bytes
  import opened Tracks
  import opened TempoMap

  // ------------------------------------------------------ what an event changes

  datatype Change =
    | NoChange
    | SetTempo(mpqn: int)
    | SetSignature(numerator: int, denominator: int, clocksPerClick: int, notesPerNote: int)

  /** A byte of the message; the model reads 0 past the end, where C reads outside the buffer. */
  function ByteAt(m: seq<Byte>, i: nat): Byte {
    if i < |m| then m[i] else 0
  }

  function Pow2(n: nat): nat {
    if n == 0 then 1 else 2 * Pow2(n - 1)
  }

  /** `smf_event_is_tempo_change_or_time_signature`. */
  predicate IsTempoOrSignature(m: seq<Byte>) {
    ByteAt(m, 0) == 0xFF && (ByteAt(m, 1) == 0x51 || ByteAt(m, 1) == 0x58)
  }

  function TempoValue(m: seq<Byte>): int {
    (ByteAt(m, 3) as int) * 0x1_0000 + (ByteAt(m, 4) as int) * 256 + ByteAt(m, 5) as int
  }

  /** What `maybe_add_to_tempo_map` makes of a message; a zero tempo and a short signature are ignored. */
  function ChangeOf(m: seq<Byte>): (c: Change)
    ensures c.SetTempo? ==> c.mpqn > 0
    ensures c != NoChange ==> IsTempoOrSignature(m)
  {
    if ByteAt(m, 0) != 0xFF then NoChange
    else if ByteAt(m, 1) == 0x51 then
      (if TempoValue(m) <= 0 then NoChange else SetTempo(TempoValue(m)))
    else if ByteAt(m, 1) == 0x58 && |m| >= 7 then
      SetSignature(m[3], Pow2(m[4]), m[5], m[6])
    else NoChange
  }

  function Last(m: Map): Tempo
    requires m != []
  {
    m[|m| - 1]
  }

  /** The last entry updated in place. */
  function SetLast(m: Map, t: Tempo): (r: Map)
    requires m != []
    ensures |r| == |m| && Last(r) == t
  {
    m[|m| - 1 := t]
  }

  function Overwrite(t: Tempo, c: Change): Tempo {
    match c
    case NoChange => t
    case SetTempo(q) => t.(mpqn := q)
    case SetSignature(n, d, k, x) => t.(numerator := n, denominator := d, clocksPerClick := k, notesPerNote := x)
  }

  // ----------------------------------------------------------------- building

  /** `new_tempo` on a map that has entries: reuse the last one or start another. */
  function NewTempo(m: Map, ppqn: int, p: int): (r: Map)
    requires ppqn > 0 && m != [] && p >= 0 && m[0].pulses == 0
    ensures |r| >= |m| && Last(r).pulses == p
  {
    var last := Last(m);
    if last.pulses == p then m
    else
      var grown := m + [last.(pulses := p)];
      grown[|m| := last.(pulses := p, seconds := if p == 0 then 0.0 else SecondsAt(grown, ppqn, p))]
  }

  function Step(m: Map, ppqn: int, p: int, c: Change): (r: Map)
    requires ppqn > 0 && m != [] && p >= 0 && m[0].pulses == 0
    ensures |r| >= |m|
  {
    if c == NoChange then m
    else
      var n := NewTempo(m, ppqn, p);
      SetLast(n, Overwrite(Last(n), c))
  }

  /** A change at pulse 0 starts an entry at 0 seconds, even where the last entry is a later one. */
  lemma ChangeAtStart(m: Map, ppqn: int, c: Change)
    requires ppqn > 0 && m != [] && m[0].pulses == 0 && Last(m).pulses != 0 && c != NoChange
    ensures Step(m, ppqn, 0, c) == m + [Overwrite(Last(m).(pulses := 0, seconds := 0.0), c)]
  {
  }

  /** `maybe_add_to_tempo_map` on any map: on an empty one the first entry starts from the defaults. */
  function Extend(m: Map, ppqn: int, p: int, c: Change): (r: Map)
    requires ppqn > 0 && p >= 0 && (m != [] ==> m[0].pulses == 0)
    ensures m != [] ==> r == Step(m, ppqn, p, c)
    ensures r != [] ==> r[0].pulses == 0
  {
    if c == NoChange then m else Step(if m == [] then [INITIAL] else m, ppqn, p, c)
  }

  ghost predicate Timed(es: seq<Ev>) {
    && (forall i :: 0 <= i < |es| ==> es[i].time >= 0)
    && forall i, j :: 0 <= i < j < |es| ==> es[i].time <= es[j].time
  }

  /** The map after one pass over es, in order, starting from m. */
  function Fold(m: Map, ppqn: int, es: seq<Ev>): (r: Map)
    requires ppqn > 0 && m != [] && m[0].pulses == 0 && forall i :: 0 <= i < |es| ==> es[i].time >= 0
    ensures r != [] && r[0].pulses == 0
  {
    if es == [] then m
    else
      var e := es[|es| - 1];
      var before := Fold(m, ppqn, es[..|es| - 1]);
      StepKeepsStart(before, ppqn, e.time, ChangeOf(e.bytes));
      Step(before, ppqn, e.time, ChangeOf(e.bytes))
  }

  lemma StepKeepsStart(m: Map, ppqn: int, p: int, c: Change)
    requires ppqn > 0 && m != [] && p >= 0 && m[0].pulses == 0
    ensures Step(m, ppqn, p, c) != [] && Step(m, ppqn, p, c)[0].pulses == 0
  {
  }

  function Build(ppqn: int, es: seq<Ev>): (r: Map)
    requires ppqn > 0 && forall i :: 0 <= i < |es| ==> es[i].time >= 0
    ensures r != [] && r[0].pulses == 0
  {
    Fold([INITIAL], ppqn, es)
  }

  // ------------------------------------------------------------- well-formed

  /** A map being built: valid, and not yet past time p. */
  ghost predicate Reached(m: Map, ppqn: int, p: int)
    requires ppqn > 0
  {
    ValidMap(m, ppqn) && Last(m).pulses <= p
  }

  lemma NewTempoReached(m: Map, ppqn: int, p: int)
    requires ppqn > 0 && Reached(m, ppqn, p)
    ensures p >= 0 && Reached(NewTempo(m, ppqn, p), ppqn, p)
  {
    Increasing(m, ppqn, |m| - 1, |m| - 1);
    var last := Last(m);
    if last.pulses != p {
      var grown := m + [last.(pulses := p)];
      var r := NewTempo(m, ppqn, p);
      assert IndexBefore(grown, p) == |m| - 1 by {
        var i := IndexBefore(grown, p);
        assert grown[|m| - 1].pulses < p;
      }
      forall i | 0 <= i < |r| - 1 ensures Link(r, ppqn, i) {
        if i < |m| - 1 { assert Link(m, ppqn, i); }
      }
    }
  }

  lemma OverwriteReached(n: Map, ppqn: int, p: int, c: Change)
    requires ppqn > 0 && Reached(n, ppqn, p)
    requires c.SetTempo? ==> c.mpqn > 0
    ensures Reached(SetLast(n, Overwrite(Last(n), c)), ppqn, p)
  {
    var r := SetLast(n, Overwrite(Last(n), c));
    forall i | 0 <= i < |r| - 1 ensures Link(r, ppqn, i) {
      assert Link(n, ppqn, i);
    }
  }

  lemma StepReached(m: Map, ppqn: int, p: int, c: Change)
    requires ppqn > 0 && Reached(m, ppqn, p)
    requires c.SetTempo? ==> c.mpqn > 0
    ensures p >= 0 && Reached(Step(m, ppqn, p, c), ppqn, p)
  {
    NewTempoReached(m, ppqn, p);
    if c != NoChange {
      OverwriteReached(NewTempo(m, ppqn, p), ppqn, p, c);
    }
  }

  lemma StepTicks(m: Map, ppqn: int, p: int, c: Change)
    requires ppqn > 0 && Ticking(m) && p >= 0 && (c.SetTempo? ==> c.mpqn > 0)
    ensures Ticking(Step(m, ppqn, p, c))
  {
    var last := Last(m);
    if c != NoChange && last.pulses != p && p != 0 {
      var grown := m + [last.(pulses := p)];
      TickingSeconds(grown, ppqn, p);
    }
  }

  lemma ExtendTicks(m: Map, ppqn: int, p: int, c: Change)
    requires ppqn > 0 && (m == [] || Ticking(m)) && p >= 0 && (c.SetTempo? ==> c.mpqn > 0)
    ensures Extend(m, ppqn, p, c) == [] || Ticking(Extend(m, ppqn, p, c))
    ensures m != [] ==> Extend(m, ppqn, p, c) != []
  {
    hide Ticking, Step;
    InitialTicks();
    StepTicks(if m == [] then [INITIAL] else m, ppqn, p, c);
  }

  lemma InitialTicks()
    ensures Ticking([INITIAL])
  {
  }

  lemma {:induction false} FoldReached(m: Map, ppqn: int, es: seq<Ev>, from: int, p: int)
    requires ppqn > 0 && Reached(m, ppqn, from) && from >= 0 && from <= p && Timed(es)
    requires forall i :: 0 <= i < |es| ==> from <= es[i].time <= p
    ensures Reached(Fold(m, ppqn, es), ppqn, p)
  {
    if es != [] {
      var e := es[|es| - 1];
      FoldReached(m, ppqn, es[..|es| - 1], from, e.time);
      StepReached(Fold(m, ppqn, es[..|es| - 1]), ppqn, e.time, ChangeOf(e.bytes));
    }
  }

  /** One pass over the events in time order leaves a well-formed map. */
  lemma BuildReached(ppqn: int, es: seq<Ev>, p: int)
    requires ppqn > 0 && Timed(es) && p >= 0
    requires forall i :: 0 <= i < |es| ==> es[i].time <= p
    ensures Reached(Build(ppqn, es), ppqn, p)
  {
    FoldReached([INITIAL], ppqn, es, 0, p);
  }

  // ------------------------------------------ later entries change no earlier answer

  lemma AppendKeepsIndex(m: Map, t: Tempo, q: int)
    requires q <= t.pulses
    ensures IndexBefore(m + [t], q) == IndexBefore(m, q)
  {
    assert (m + [t])[..|m|] == m;
  }

  lemma OverwriteKeepsIndex(m: Map, c: Change, q: int)
    requires m != []
    ensures IndexBefore(SetLast(m, Overwrite(Last(m), c)), q) == IndexBefore(m, q)
  {
    var r := SetLast(m, Overwrite(Last(m), c));
    assert r[..|m| - 1] == m[..|m| - 1];
  }

  lemma NewTempoKeepsSeconds(m: Map, ppqn: int, p: int, q: int)
    requires ppqn > 0 && Reached(m, ppqn, p) && 0 <= q <= p
    ensures Lookup(m, q) >= 0 && Lookup(NewTempo(m, ppqn, p), q) >= 0
    ensures SecondsAt(NewTempo(m, ppqn, p), ppqn, q) == SecondsAt(m, ppqn, q)
  {
    var n := NewTempo(m, ppqn, p);
    LookupFound(m, ppqn, q);
    if Last(m).pulses != p {
      var t := n[|m|];
      assert n == m + [t];
      AppendKeepsIndex(m, t, q);
    }
  }

  lemma OverwriteKeepsSeconds(n: Map, ppqn: int, p: int, c: Change, q: int)
    requires ppqn > 0 && Reached(n, ppqn, p) && 0 <= q <= p && Last(n).pulses == p
    ensures var r := SetLast(n, Overwrite(Last(n), c));
            Lookup(n, q) >= 0 && Lookup(r, q) >= 0 && SecondsAt(r, ppqn, q) == SecondsAt(n, ppqn, q)
  {
    OverwriteKeepsIndex(n, c, q);
    LookupFound(n, ppqn, q);
  }

  /** Lookup is strictly before, so an entry made at p leaves the clock alone up to p. */
  lemma StepKeepsSeconds(m: Map, ppqn: int, p: int, c: Change, q: int)
    requires ppqn > 0 && Reached(m, ppqn, p) && 0 <= q <= p
    ensures Lookup(m, q) >= 0 && Lookup(Step(m, ppqn, p, c), q) >= 0
    ensures SecondsAt(Step(m, ppqn, p, c), ppqn, q) == SecondsAt(m, ppqn, q)
  {
    LookupFound(m, ppqn, q);
    if c != NoChange {
      NewTempoReached(m, ppqn, p);
      NewTempoKeepsSeconds(m, ppqn, p, q);
      OverwriteKeepsSeconds(NewTempo(m, ppqn, p), ppqn, p, c, q);
    }
  }

  lemma {:induction false} FoldKeepsSeconds(m: Map, ppqn: int, es: seq<Ev>, p: int, q: int)
    requires ppqn > 0 && Reached(m, ppqn, p) && 0 <= q <= p && Timed(es)
    requires forall i :: 0 <= i < |es| ==> p <= es[i].time
    ensures Lookup(m, q) >= 0 && Lookup(Fold(m, ppqn, es), q) >= 0
    ensures SecondsAt(Fold(m, ppqn, es), ppqn, q) == SecondsAt(m, ppqn, q)
  {
    if es != [] {
      var e := es[|es| - 1];
      var before := Fold(m, ppqn, es[..|es| - 1]);
      FoldKeepsSeconds(m, ppqn, es[..|es| - 1], p, q);
      FoldReached(m, ppqn, es[..|es| - 1], p, e.time);
      StepKeepsSeconds(before, ppqn, e.time, ChangeOf(e.bytes), q);
    }
  }

  lemma {:induction false} FoldConcat(m: Map, ppqn: int, a: seq<Ev>, b: seq<Ev>)
    requires ppqn > 0 && m != [] && m[0].pulses == 0
    requires (forall i :: 0 <= i < |a| ==> a[i].time >= 0) && (forall i :: 0 <= i < |b| ==> b[i].time >= 0)
    ensures Fold(m, ppqn, a + b) == Fold(Fold(m, ppqn, a), ppqn, b)
    decreases |b|
  {
    if b == [] {
      assert a + b == a;
    } else {
      FoldConcat(m, ppqn, a, b[..|b| - 1]);
      assert (a + b)[..|a + b| - 1] == a + b[..|b| - 1];
      assert (a + b)[|a + b| - 1] == b[|b| - 1];
    }
  }

  lemma PrefixSeconds(ppqn: int, a: seq<Ev>, b: seq<Ev>, p: int, q: int)
    requires ppqn > 0 && Timed(a) && Timed(b) && 0 <= q <= p
    requires forall i :: 0 <= i < |a| ==> a[i].time <= p
    requires forall i :: 0 <= i < |b| ==> p <= b[i].time
    ensures Timed(a + b)
    ensures Lookup(Build(ppqn, a), q) >= 0 && Lookup(Build(ppqn, a + b), q) >= 0
    ensures SecondsAt(Build(ppqn, a + b), ppqn, q) == SecondsAt(Build(ppqn, a), ppqn, q)
  {
    BuildReached(ppqn, a, p);
    FoldConcat([INITIAL], ppqn, a, b);
    FoldKeepsSeconds(Build(ppqn, a), ppqn, b, p, q);
  }

  lemma BuildTicks(ppqn: int, es: seq<Ev>)
    requires ppqn > 0 && Timed(es)
    ensures Ticking(Build(ppqn, es))
  {
    BuildReached(ppqn, es, if es == [] then 0 else es[|es| - 1].time);
    ValidTicks(Build(ppqn, es), ppqn);
  }

  lemma BuildClock(ppqn: int, es: seq<Ev>, p: int)
    requires ppqn > 0 && Timed(es) && p >= 0
    ensures ValidMap(Build(ppqn, es), ppqn)
    ensures Lookup(Build(ppqn, es), p) >= 0
    ensures SecondsAt(Build(ppqn, es), ppqn, p) == Integral(Build(ppqn, es), ppqn, p)
  {
    var top := if es == [] then 0 else es[|es| - 1].time;
    BuildReached(ppqn, es, top);
    SecondsIsIntegral(Build(ppqn, es), ppqn, p);
  }

  /**
   The seconds the pass assigns to event i, from the map as far as it is built
   then, are the ones the finished map gives: the integral of the tempo.
   */
  lemma RebuildSeconds(ppqn: int, es: seq<Ev>, i: nat)
    requires ppqn > 0 && Timed(es) && i < |es|
    ensures Lookup(Build(ppqn, es[..i + 1]), es[i].time) >= 0
    ensures SecondsAt(Build(ppqn, es[..i + 1]), ppqn, es[i].time) == Integral(Build(ppqn, es), ppqn, es[i].time)
  {
    var p := es[i].time;
    assert es[..i + 1] + es[i + 1..] == es;
    PrefixSeconds(ppqn, es[..i + 1], es[i + 1..], p, p);
    BuildClock(ppqn, es, p);
  }

  // --------------------------------------------- the shortcut at the end of song

  /** Fields after a run of changes all made at one pulse. */
  function OverwriteAll(t: Tempo, es: seq<Ev>): Tempo {
    if es == [] then t else Overwrite(OverwriteAll(t, es[..|es| - 1]), ChangeOf(es[|es| - 1].bytes))
  }

  predicate SameKind(c: Change, d: Change) {
    (c.SetTempo? && d.SetTempo?) || (c.SetSignature? && d.SetSignature?)
  }

  /** The last change of c's kind among es, if any. */
  function LastOfKind(es: seq<Ev>, c: Change): Change {
    if es == [] then NoChange
    else if SameKind(ChangeOf(es[|es| - 1].bytes), c) then ChangeOf(es[|es| - 1].bytes)
    else LastOfKind(es[..|es| - 1], c)
  }

  /** Once an entry at p is last, further changes at p only overwrite its fields. */
  lemma {:induction false} FoldAtEnd(m: Map, ppqn: int, es: seq<Ev>, p: int)
    requires ppqn > 0 && m != [] && m[0].pulses == 0 && Last(m).pulses == p >= 0
    requires forall i :: 0 <= i < |es| ==> es[i].time == p
    ensures Fold(m, ppqn, es) == SetLast(m, OverwriteAll(Last(m), es))
  {
    if es != [] {
      var e := es[|es| - 1];
      FoldAtEnd(m, ppqn, es[..|es| - 1], p);
      OverwriteAllKeepsTime(Last(m), es[..|es| - 1]);
    }
  }

  lemma {:induction false} OverwriteAllKeepsTime(t: Tempo, es: seq<Ev>)
    ensures OverwriteAll(t, es).pulses == t.pulses && OverwriteAll(t, es).seconds == t.seconds
  {
    if es != [] {
      OverwriteAllKeepsTime(t, es[..|es| - 1]);
    }
  }

  lemma {:induction false} NoChanges(m: Map, ppqn: int, es: seq<Ev>, p: int)
    requires ppqn > 0 && m != [] && m[0].pulses == 0 && p >= 0
    requires forall i :: 0 <= i < |es| ==> es[i].time == p && ChangeOf(es[i].bytes) == NoChange
    ensures Fold(m, ppqn, es) == m
    ensures forall t :: OverwriteAll(t, es) == t
  {
    if es != [] {
      NoChanges(m, ppqn, es[..|es| - 1], p);
    }
  }

  /** Changes at p may as well start from the entry at p. */
  lemma {:induction false} FoldFromEntry(m: Map, ppqn: int, es: seq<Ev>, p: int)
    requires ppqn > 0 && m != [] && m[0].pulses == 0 && p >= 0
    requires forall i :: 0 <= i < |es| ==> es[i].time == p
    requires exists i :: 0 <= i < |es| && ChangeOf(es[i].bytes) != NoChange
    ensures NewTempo(m, ppqn, p)[0].pulses == 0
    ensures Fold(m, ppqn, es) == Fold(NewTempo(m, ppqn, p), ppqn, es)
  {
    var e, init := es[|es| - 1], es[..|es| - 1];
    var n := NewTempo(m, ppqn, p);
    if exists i :: 0 <= i < |init| && ChangeOf(init[i].bytes) != NoChange {
      FoldFromEntry(m, ppqn, init, p);
    } else {
      NoChanges(m, ppqn, init, p);
      NoChanges(n, ppqn, init, p);
      assert ChangeOf(e.bytes) != NoChange;
    }
  }

  lemma {:induction false} LastWins(t: Tempo, c: Change, es: seq<Ev>)
    requires c != NoChange
    ensures Overwrite(OverwriteAll(t, es), c) == OverwriteAll(Overwrite(t, c), es)
        <==> LastOfKind(es, c) == NoChange || LastOfKind(es, c) == c
    ensures LastOfKind(es, c) == NoChange ==> OverwriteAll(Overwrite(t, c), es) == Overwrite(OverwriteAll(t, es), c)
    ensures LastOfKind(es, c).SetTempo? ==> OverwriteAll(Overwrite(t, c), es).mpqn == LastOfKind(es, c).mpqn
    ensures LastOfKind(es, c).SetSignature? ==>
              var r, l := OverwriteAll(Overwrite(t, c), es), LastOfKind(es, c);
              SetSignature(r.numerator, r.denominator, r.clocksPerClick, r.notesPerNote) == l
    ensures LastOfKind(es, c) == NoChange || SameKind(LastOfKind(es, c), c)
    ensures var r, o := OverwriteAll(Overwrite(t, c), es), OverwriteAll(t, es);
            && (c.SetTempo? ==> r.(mpqn := 0) == o.(mpqn := 0))
            && (c.SetSignature? ==> r.mpqn == o.mpqn && r.pulses == o.pulses && r.seconds == o.seconds)
  {
    if es != [] {
      LastWins(t, c, es[..|es| - 1]);
    }
  }

  lemma FoldOne(m: Map, ppqn: int, e: Ev)
    requires ppqn > 0 && m != [] && m[0].pulses == 0 && e.time >= 0
    ensures Fold(m, ppqn, [e]) == Step(m, ppqn, e.time, ChangeOf(e.bytes))
  {
    assert [e][..0] == [];
  }

  lemma EarlyChange(m: Map, ppqn: int, e: Ev, b: seq<Ev>)
    requires ppqn > 0 && m != [] && m[0].pulses == 0 && e.time >= 0 && ChangeOf(e.bytes) != NoChange
    requires forall i :: 0 <= i < |b| ==> b[i].time == e.time
    ensures var n := NewTempo(m, ppqn, e.time);
            Fold(m, ppqn, [e] + b) == SetLast(n, OverwriteAll(Overwrite(Last(n), ChangeOf(e.bytes)), b))
  {
    var first := Step(m, ppqn, e.time, ChangeOf(e.bytes));
    StepKeepsStart(m, ppqn, e.time, ChangeOf(e.bytes));
    FoldConcat(m, ppqn, [e], b);
    FoldOne(m, ppqn, e);
    FoldAtEnd(first, ppqn, b, e.time);
  }

  lemma LateChange(m: Map, ppqn: int, p: int, c: Change, b: seq<Ev>)
    requires ppqn > 0 && m != [] && m[0].pulses == 0 && p >= 0 && c != NoChange
    requires forall i :: 0 <= i < |b| ==> b[i].time == p
    ensures var n := NewTempo(m, ppqn, p);
            Step(Fold(m, ppqn, b), ppqn, p, c) == SetLast(n, Overwrite(OverwriteAll(Last(n), b), c))
  {
    if exists i :: 0 <= i < |b| && ChangeOf(b[i].bytes) != NoChange {
      var n := NewTempo(m, ppqn, p);
      FoldFromEntry(m, ppqn, b, p);
      FoldAtEnd(n, ppqn, b, p);
      LateOverwrite(n, ppqn, p, c, b);
    } else {
      NoChanges(m, ppqn, b, p);
    }
  }

  lemma LateOverwrite(n: Map, ppqn: int, p: int, c: Change, b: seq<Ev>)
    requires ppqn > 0 && n != [] && n[0].pulses == 0 && Last(n).pulses == p >= 0 && c != NoChange
    ensures var r := SetLast(n, OverwriteAll(Last(n), b));
            && r[0].pulses == 0
            && Step(r, ppqn, p, c) == SetLast(n, Overwrite(OverwriteAll(Last(n), b), c))
  {
    OverwriteAllKeepsTime(Last(n), b);
  }

  /**
   Playing e before the events b that share its pulse, as a rebuild does, or
   after them, as the shortcut does, gives one map exactly when no later one
   overrules e.
   */
  lemma ShortcutIff(m: Map, ppqn: int, e: Ev, b: seq<Ev>)
    requires ppqn > 0 && m != [] && m[0].pulses == 0 && e.time >= 0
    requires forall i :: 0 <= i < |b| ==> b[i].time == e.time
    ensures var c := ChangeOf(e.bytes);
            Fold(m, ppqn, [e] + b) == Step(Fold(m, ppqn, b), ppqn, e.time, c)
            <==> c == NoChange || LastOfKind(b, c) == NoChange || LastOfKind(b, c) == c
  {
    var c := ChangeOf(e.bytes);
    if c == NoChange {
      FoldConcat(m, ppqn, [e], b);
      FoldOne(m, ppqn, e);
    } else {
      EarlyChange(m, ppqn, e, b);
      LateChange(m, ppqn, e.time, c, b);
      var n := NewTempo(m, ppqn, e.time);
      var t := Last(n);
      var x, y := OverwriteAll(Overwrite(t, c), b), Overwrite(OverwriteAll(t, b), c);
      assert SetLast(n, x)[|n| - 1] == x && SetLast(n, y)[|n| - 1] == y;
      LastWins(t, c, b);
    }
  }
}
