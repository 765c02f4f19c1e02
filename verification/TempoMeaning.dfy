/**
 What the bytes of tempo and signature events mean for the rebuilt map and its clock, in
 microseconds and seconds.
 */
module TempoMeaning {
  import opened Bytes
  import opened Tracks
  import opened TempoMap
  import opened TempoBuild
  import opened TempoSettings

  /** A tempo event of q microseconds to the quarter note. */
  function TempoBytes(q: nat): seq<Byte>
    requires q < 0x100_0000
  {
    [0xFF, 0x51, 0x03, q / 0x1_0000, q / 256 % 256, q % 256]
  }

  /** The three bytes of a tempo are read with the most significant first; a tempo of zero is ignored. */
  lemma TempoRead(q: nat)
    requires q < 0x100_0000
    ensures ChangeOf(TempoBytes(q)) == if q == 0 then NoChange else SetTempo(q)
  {
    var m := TempoBytes(q);
    assert q == q / 0x1_0000 * 0x1_0000 + q / 256 % 256 * 256 + q % 256;
    assert TempoValue(m) == q;
  }

  /** A signature is read byte by byte; the second one is the exponent of the denominator. */
  lemma SignatureRead(n: Byte, d: Byte, c: Byte, k: Byte)
    ensures ChangeOf([0xFF, 0x58, 0x04, n, d, c, k]) == SetSignature(n, Pow2(d), c, k)
    ensures Pow2(0) == 1 && Pow2(1) == 2 && Pow2(2) == 4 && Pow2(3) == 8 && Pow2(d + 1) == 2 * Pow2(d)
  {
  }

  /** Half a second to the quarter note, and six eighths. */
  lemma ReadExamples()
    ensures ChangeOf([0xFF, 0x51, 0x03, 0x07, 0xA1, 0x20]) == SetTempo(500000)
    ensures ChangeOf([0xFF, 0x58, 0x04, 0x06, 0x03, 0x24, 0x08]) == SetSignature(6, 8, 36, 8)
  {
    TempoRead(500000);
    SignatureRead(6, 3, 36, 8);
  }

  predicate IsTempo(m: seq<Byte>) {
    |m| >= 2 && m[0] == 0xFF && m[1] == 0x51
  }

  predicate IsSignature(m: seq<Byte>) {
    |m| >= 2 && m[0] == 0xFF && m[1] == 0x58
  }

  /** The events the tempo map is kept up for are the tempi and the signatures, and nothing else changes it. */
  lemma KindRead(m: seq<Byte>)
    ensures IsTempoOrSignature(m) <==> IsTempo(m) || IsSignature(m)
    ensures !IsTempo(m) && !IsSignature(m) ==> ChangeOf(m) == NoChange
    ensures IsSignature(m) && |m| < 7 ==> ChangeOf(m) == NoChange
  {
  }

  lemma OtherChange(t: Tempo, m: seq<Byte>)
    ensures !IsTempo(m) ==> Overwrite(t, ChangeOf(m)).mpqn == t.mpqn
    ensures !IsSignature(m) ==> Overwrite(t, ChangeOf(m)) == t.(mpqn := Overwrite(t, ChangeOf(m)).mpqn)
  {
  }

  /** The tempo set at pulse p is that of the last tempo event up to then, and 500000 when there is none. */
  lemma {:induction false} TempoSet(es: seq<Ev>, p: int, i: int, q: nat)
    requires -1 <= i < |es| && forall j :: i < j < |es| && es[j].time <= p ==> !IsTempo(es[j].bytes)
    requires if i < 0 then q == 500000 else 0 < q < 0x100_0000 && es[i].time <= p && es[i].bytes == TempoBytes(q)
    ensures Settings(es, p).mpqn == q
  {
    hide ChangeOf, TempoBytes;
    if es != [] {
      var init, e := es[..|es| - 1], es[|es| - 1];
      if i == |es| - 1 {
        TempoRead(q);
      } else {
        assert forall j :: 0 <= j < |init| ==> init[j] == es[j];
        TempoSet(init, p, i, q);
        OtherChange(Settings(init, p), e.bytes);
      }
    }
  }

  /** The signature, likewise; 4/4 when there is none. */
  lemma {:induction false} SignatureSet(es: seq<Ev>, p: int, i: int, n: Byte, d: Byte, c: Byte, k: Byte)
    requires -1 <= i < |es| && forall j :: i < j < |es| && es[j].time <= p ==> !IsSignature(es[j].bytes)
    requires i >= 0 ==> es[i].time <= p && es[i].bytes == [0xFF, 0x58, 0x04, n, d, c, k]
    ensures var t := Settings(es, p);
            if i < 0 then t.numerator == 4 && t.denominator == 4 && t.clocksPerClick == t.notesPerNote == -1
            else t.numerator == n && t.denominator == Pow2(d) && t.clocksPerClick == c && t.notesPerNote == k
  {
    hide ChangeOf, Pow2;
    if es != [] {
      var init, e := es[..|es| - 1], es[|es| - 1];
      if i == |es| - 1 {
        SignatureRead(n, d, c, k);
      } else {
        assert forall j :: 0 <= j < |init| ==> init[j] == es[j];
        SignatureSet(init, p, i, n, d, c, k);
        OtherChange(Settings(init, p), e.bytes);
      }
    }
  }

  /** The time of k pulses at q microseconds to the quarter note. */
  function Lasting(ppqn: int, q: nat, k: nat): real
    requires ppqn > 0
  {
    k as real * q as real / (ppqn as real * 1000000.0)
  }

  lemma OneMore(ppqn: int, q: nat, k: nat)
    requires ppqn > 0
    ensures Lasting(ppqn, q, k + 1) == Lasting(ppqn, q, k) + q as real / (ppqn as real * 1000000.0)
    ensures Lasting(ppqn, q, 0) == 0.0
  {
  }

  /** As many pulses as make a quarter note take q microseconds. */
  lemma QuarterNote(ppqn: int, q: nat)
    requires ppqn > 0
    ensures Lasting(ppqn, q, ppqn) == q as real / 1000000.0
  {
  }

  /**
   The clock of the rebuilt map runs as the tempo events say: from pulse p on, k pulses take k / ppqn
   times the microseconds of the last tempo event up to p, or half a second each quarter note before
   the first one, as long as no other tempo comes in between.
   */
  lemma {:induction false} TempoLasts(ppqn: int, es: seq<Ev>, p: nat, i: int, q: nat, k: nat)
    requires ppqn > 0 && Timed(es)
    requires -1 <= i < |es| && forall j :: i < j < |es| && es[j].time < p + k ==> !IsTempo(es[j].bytes)
    requires if i < 0 then q == 500000 else 0 < q < 0x100_0000 && es[i].time <= p && es[i].bytes == TempoBytes(q)
    ensures var m := Build(ppqn, es);
            && Lookup(m, p) >= 0 && Lookup(m, p + k) >= 0
            && SecondsAt(m, ppqn, p + k) == SecondsAt(m, ppqn, p) + Lasting(ppqn, q, k)
    decreases k
  {
    hide Build, Lookup, SecondsAt, Lasting, TempoBytes, Settings;
    var m := Build(ppqn, es);
    BuildReached(ppqn, es, if es == [] then 0 else es[|es| - 1].time);
    LookupFound(m, ppqn, p);
    if k == 0 {
      OneMore(ppqn, q, 0);
    } else {
      var at := p + k - 1;
      TempoLasts(ppqn, es, p, i, q, k - 1);
      OneMore(ppqn, q, k - 1);
      InForceSettings(ppqn, es, at);
      TempoSet(es, at, i, q);
      OnePulse(m, ppqn, at);
    }
  }

  /** One tempo at the start of a song: its entry says so, and a quarter note takes that many microseconds. */
  lemma OneTempo(ppqn: int, q: nat)
    requires ppqn > 0 && 0 < q < 0x100_0000
    ensures var m := Build(ppqn, [Ev(0, TempoBytes(q))]);
            && m == [INITIAL.(mpqn := q)] && Lookup(m, ppqn) >= 0
            && SecondsAt(m, ppqn, ppqn) == q as real / 1000000.0
  {
    hide Build, TempoBytes, Lasting;
    var e := Ev(0, TempoBytes(q));
    TempoRead(q);
    FoldOne([INITIAL], ppqn, e);
    BuildIs(ppqn, [e]);
    TempoLasts(ppqn, [e], 0, 0, q, ppqn);
    QuarterNote(ppqn, q);
  }

  lemma BuildIs(ppqn: int, es: seq<Ev>)
    requires ppqn > 0 && forall i :: 0 <= i < |es| ==> es[i].time >= 0
    ensures Build(ppqn, es) == Fold([INITIAL], ppqn, es)
  {
  }

  /** No tempo at all: a quarter note takes half a second, 120 beats a minute. */
  lemma NoTempo(ppqn: int)
    requires ppqn > 0
    ensures Lookup(Build(ppqn, []), ppqn) >= 0 && SecondsAt(Build(ppqn, []), ppqn, ppqn) == 0.5
  {
    hide Build, Lasting;
    TempoLasts(ppqn, [], 0, -1, 500000, ppqn);
    BuildIs(ppqn, []);
    QuarterNote(ppqn, 500000);
  }
}
