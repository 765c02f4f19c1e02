/**
 The tempo map of a song, on values: a list of entries, each starting a stretch
 of constant tempo, and the clock read off it.  Times in seconds are exact reals.
 */
module TempoMap {
  datatype Tempo = Tempo(
    pulses: int, seconds: real, mpqn: int,
    numerator: int, denominator: int, clocksPerClick: int, notesPerNote: int)

  type Map = seq<Tempo>

  /** Tempo and signature before any event: 120 beats per minute, 4/4. */
  const INITIAL := Tempo(0, 0.0, 500000, 4, 4, -1, -1)

  /** Seconds per pulse. */
  function Rate(ppqn: int, t: Tempo): real
    requires ppqn > 0
  {
    t.mpqn as real / (ppqn as real * 1000000.0)
  }

  /** Pulses per second. */
  function PulseRate(ppqn: int, t: Tempo): real
    requires t.mpqn > 0
  {
    ppqn as real * 1000000.0 / t.mpqn as real
  }

  // ------------------------------------------------------------------- lookup

  /** The last entry strictly before p, or -1. */
  function IndexBefore(m: Map, p: int): (i: int)
    ensures -1 <= i < |m|
    ensures i >= 0 ==> m[i].pulses < p
    ensures forall k :: i < k < |m| ==> m[k].pulses >= p
  {
    if m == [] then -1
    else if m[|m| - 1].pulses < p then |m| - 1
    else IndexBefore(m[..|m| - 1], p)
  }

  /** The last entry strictly before s seconds, or -1. */
  function IndexBeforeSeconds(m: Map, s: real): (i: int)
    ensures -1 <= i < |m|
    ensures i >= 0 ==> m[i].seconds < s
    ensures forall k :: i < k < |m| ==> m[k].seconds >= s
  {
    if m == [] then -1
    else if m[|m| - 1].seconds < s then |m| - 1
    else IndexBeforeSeconds(m[..|m| - 1], s)
  }

  /** `smf_get_tempo_by_pulses`: -1 stands for a null result. */
  function Lookup(m: Map, p: int): (i: int)
    ensures -1 <= i < |m|
  {
    if p == 0 then (if m == [] then -1 else 0) else IndexBefore(m, p)
  }

  function LookupSeconds(m: Map, s: real): (i: int)
    ensures -1 <= i < |m|
  {
    if s == 0.0 then (if m == [] then -1 else 0) else IndexBeforeSeconds(m, s)
  }

  /** The clock on the straight line of entry i. */
  function Line(m: Map, ppqn: int, i: nat, p: int): real
    requires ppqn > 0 && i < |m|
  {
    m[i].seconds + (p - m[i].pulses) as real * Rate(ppqn, m[i])
  }

  /** `seconds_from_pulses`. */
  function SecondsAt(m: Map, ppqn: int, p: int): real
    requires ppqn > 0 && Lookup(m, p) >= 0
  {
    Line(m, ppqn, Lookup(m, p), p)
  }

  /** `pulses_from_seconds`; the conversion to int truncates a non-negative number. */
  function PulsesAt(m: Map, ppqn: int, s: real): int
    requires ppqn > 0 && LookupSeconds(m, s) >= 0 && m[LookupSeconds(m, s)].mpqn > 0
  {
    var t := m[LookupSeconds(m, s)];
    (t.pulses as real + (s - t.seconds) * PulseRate(ppqn, t)).Floor
  }

  lemma PulsesAtIs(m: Map, ppqn: int, s: real, later: real)
    requires ppqn > 0 && LookupSeconds(m, s) >= 0 && m[LookupSeconds(m, s)].mpqn > 0
    requires var t := m[LookupSeconds(m, s)]; later == (s - t.seconds) * PulseRate(ppqn, t)
    ensures PulsesAt(m, ppqn, s) == (m[LookupSeconds(m, s)].pulses as real + later).Floor
  {
  }

  // ------------------------------------------------------------- well-formed

  ghost predicate Chained(m: Map, ppqn: int)
    requires ppqn > 0
  {
    forall i :: 0 <= i < |m| - 1 ==> Link(m, ppqn, i)
  }

  ghost predicate Link(m: Map, ppqn: int, i: nat)
    requires ppqn > 0 && i < |m| - 1
  {
    m[i].pulses < m[i + 1].pulses && m[i + 1].seconds == Line(m, ppqn, i, m[i + 1].pulses)
  }

  ghost predicate ValidMap(m: Map, ppqn: int)
    requires ppqn > 0
  {
    && m != [] && m[0].pulses == 0 && m[0].seconds == 0.0
    && (forall i :: 0 <= i < |m| ==> m[i].mpqn > 0)
    && Chained(m, ppqn)
  }

  /**
   What every map keeps, whatever becomes of ppqn and of the events it was made from: it starts
   at time 0 and its entries can be counted with.
   */
  ghost predicate Ticking(m: Map) {
    && m != [] && m[0].pulses == 0 && m[0].seconds == 0.0
    && forall i :: 0 <= i < |m| ==> m[i].mpqn > 0 && m[i].pulses >= 0 && m[i].seconds >= 0.0
  }

  lemma {:induction false} Increasing(m: Map, ppqn: int, i: nat, j: nat)
    requires ppqn > 0 && ValidMap(m, ppqn) && i <= j < |m|
    ensures i < j ==> m[i].pulses < m[j].pulses
    ensures m[i].pulses >= 0
    decreases j
  {
    if j > 0 {
      assert Link(m, ppqn, j - 1);
      if i < j {
        Increasing(m, ppqn, i, j - 1);
      } else {
        Increasing(m, ppqn, j - 1, j - 1);
      }
    }
  }

  lemma LookupFound(m: Map, ppqn: int, p: int)
    requires ppqn > 0 && ValidMap(m, ppqn) && p >= 0
    ensures Lookup(m, p) >= 0
  {
  }

  lemma RatePositive(ppqn: int, t: Tempo)
    requires ppqn > 0 && t.mpqn > 0
    ensures Rate(ppqn, t) > 0.0
  {
  }

  /** Entry i covers p, ends included. */
  ghost predicate Covers(m: Map, i: nat, p: int) {
    i < |m| && m[i].pulses <= p && (i + 1 < |m| ==> p <= m[i + 1].pulses)
  }

  /** Continuity: where two entries meet, either one's line gives the clock. */
  lemma Continuous(m: Map, ppqn: int, i: nat, p: int)
    requires ppqn > 0 && ValidMap(m, ppqn) && Covers(m, i, p)
    ensures p >= 0 && Lookup(m, p) >= 0
    ensures SecondsAt(m, ppqn, p) == Line(m, ppqn, i, p)
  {
    Increasing(m, ppqn, i, i);
    var l := Lookup(m, p);
    if p == 0 {
      if i > 0 {
        Increasing(m, ppqn, 0, i);
      }
    } else if l < i {
      if l + 1 < i {
        Increasing(m, ppqn, l + 1, i);
      }
      assert i == l + 1 && p == m[i].pulses;
      assert Link(m, ppqn, l);
    } else if l > i {
      Increasing(m, ppqn, i + 1, l);
    }
  }

  // -------------------------------------------------- the clock is an integral

  /** The entry in force during the pulse that starts at q: the last one not after q. */
  function InForce(m: Map, q: int): (i: int)
    ensures -1 <= i < |m|
  {
    IndexBefore(m, q + 1)
  }

  /** Sum, over all pulses before p, of the tempo in force at that pulse. */
  ghost function Integral(m: Map, ppqn: int, p: nat): real
    requires ppqn > 0 && m != [] && m[0].pulses == 0
  {
    if p == 0 then 0.0
    else Integral(m, ppqn, p - 1) + Rate(ppqn, m[InForce(m, p - 1)])
  }

  lemma LineStep(m: Map, ppqn: int, i: nat, p: int)
    requires ppqn > 0 && i < |m|
    ensures Line(m, ppqn, i, p + 1) == Line(m, ppqn, i, p) + Rate(ppqn, m[i])
  {
    Distribute((p - m[i].pulses) as real, Rate(ppqn, m[i]));
  }

  lemma Distribute(a: real, r: real)
    ensures (a + 1.0) * r == a * r + r
  {
  }

  lemma OnePulse(m: Map, ppqn: int, p: nat)
    requires ppqn > 0 && ValidMap(m, ppqn)
    ensures Lookup(m, p) >= 0 && Lookup(m, p + 1) >= 0 && InForce(m, p) >= 0
    ensures SecondsAt(m, ppqn, p + 1) == SecondsAt(m, ppqn, p) + Rate(ppqn, m[InForce(m, p)])
  {
    var i := InForce(m, p);
    Continuous(m, ppqn, i, p);
    Continuous(m, ppqn, i, p + 1);
    LineStep(m, ppqn, i, p);
  }

  /** The clock read by one lookup is the integral of the tempo. */
  lemma {:induction false} SecondsIsIntegral(m: Map, ppqn: int, p: nat)
    requires ppqn > 0 && ValidMap(m, ppqn)
    ensures Lookup(m, p) >= 0 && SecondsAt(m, ppqn, p) == Integral(m, ppqn, p)
  {
    if p > 0 {
      SecondsIsIntegral(m, ppqn, p - 1);
      OnePulse(m, ppqn, p - 1);
    }
  }

  lemma {:induction false} StrictlyIncreasing(m: Map, ppqn: int, p: nat, q: nat)
    requires ppqn > 0 && ValidMap(m, ppqn) && p < q
    ensures Lookup(m, p) >= 0 && Lookup(m, q) >= 0
    ensures SecondsAt(m, ppqn, p) < SecondsAt(m, ppqn, q)
    decreases q
  {
    OnePulse(m, ppqn, q - 1);
    RatePositive(ppqn, m[InForce(m, q - 1)]);
    if p < q - 1 {
      StrictlyIncreasing(m, ppqn, p, q - 1);
    }
  }

  lemma MoreIsShorter(ppqn: int, more: int, t: Tempo)
    requires 0 < ppqn < more && t.mpqn > 0
    ensures Rate(more, t) < Rate(ppqn, t)
  {
    var a, b, x, y := ppqn as real * 1000000.0, more as real * 1000000.0, Rate(ppqn, t), Rate(more, t);
    assert x * a == t.mpqn as real && y * b == t.mpqn as real;
    if y >= x {
      MulLess(x, y, a);
      MulLess(a, b, y);
    }
  }

  /** The same map read with more pulses to the quarter note runs ahead: every pulse but 0 comes earlier. */
  lemma {:induction false} MoreIsEarlier(m: Map, ppqn: int, more: int, p: nat)
    requires 0 < ppqn < more && ValidMap(m, ppqn)
    ensures p > 0 ==> Integral(m, more, p) < Integral(m, ppqn, p)
    ensures p == 0 ==> Integral(m, more, p) == Integral(m, ppqn, p) == 0.0
  {
    if p > 0 {
      MoreIsEarlier(m, ppqn, more, p - 1);
      MoreIsShorter(ppqn, more, m[InForce(m, p - 1)]);
    }
  }

  lemma ValidTicks(m: Map, ppqn: int)
    requires ppqn > 0 && ValidMap(m, ppqn)
    ensures Ticking(m)
  {
    forall i | 0 <= i < |m| ensures m[i].pulses >= 0 && m[i].seconds >= 0.0 {
      Increasing(m, ppqn, i, i);
      if i + 1 < |m| {
        assert Link(m, ppqn, i);
      }
      Continuous(m, ppqn, i, m[i].pulses);
      if m[i].pulses > 0 {
        StrictlyIncreasing(m, ppqn, 0, m[i].pulses);
      }
    }
  }

  lemma TickingSeconds(m: Map, ppqn: int, p: int)
    requires ppqn > 0 && Ticking(m) && p >= 0
    ensures Lookup(m, p) >= 0 && SecondsAt(m, ppqn, p) >= 0.0
  {
    var i := Lookup(m, p);
    RatePositive(ppqn, m[i]);
    MulLess(0.0, (p - m[i].pulses) as real, Rate(ppqn, m[i]));
  }

  lemma TickingPulses(m: Map, ppqn: int, s: real)
    requires ppqn > 0 && Ticking(m) && s >= 0.0
    ensures LookupSeconds(m, s) >= 0 && m[LookupSeconds(m, s)].mpqn > 0 && PulsesAt(m, ppqn, s) >= 0
  {
    var t := m[LookupSeconds(m, s)];
    var d := InverseRate(ppqn, t, s - t.seconds);
    RatePositive(ppqn, t);
    NonNegativeQuotient(s - t.seconds, d, Rate(ppqn, t));
    FloorShift(t.pulses, d);
  }

  // ------------------------------------------------------- and it has an inverse

  lemma MulLess(a: real, b: real, r: real)
    requires r > 0.0
    ensures a <= b ==> a * r <= b * r
    ensures a < b ==> a * r < b * r
  {
  }

  /** Seconds to pulses and back, on one line. */
  lemma InverseRate(ppqn: int, t: Tempo, d: real) returns (k: real)
    requires ppqn > 0 && t.mpqn > 0
    ensures k == d * PulseRate(ppqn, t) && k * Rate(ppqn, t) == d
  {
    var x, y := PulseRate(ppqn, t), Rate(ppqn, t);
    Cancel(ppqn as real * 1000000.0, t.mpqn as real, x, y);
    CancelLeft(d, x, y);
    k := d * x;
  }

  lemma CancelLeft(d: real, x: real, y: real)
    requires x * y == 1.0
    ensures d * x * y == d
  {
    Associate(d, x, y);
    Substitute(d, x * y, 1.0);
  }

  lemma Cancel(a: real, b: real, x: real, y: real)
    requires a > 0.0 && b > 0.0 && x * b == a && y * a == b
    ensures x * y == 1.0
  {
    Associate(x, y, a);
    Substitute(x, y * a, b);
    var w := x * y - 1.0;
    assert w * a == 0.0 by {
      assert (x * y - 1.0) * a == (x * y) * a - a;
    }
  }

  lemma Substitute(x: real, u: real, v: real)
    requires u == v
    ensures x * u == x * v
  {
  }

  lemma Associate(d: real, x: real, y: real)
    ensures d * x * y == d * (x * y)
  {
  }

  /** d pulses last x seconds; whole numbers around d bracket x. */
  lemma ScaleBracket(x: real, d: real, lo: real, hi: real, r: real)
    requires r > 0.0 && x == d * r && lo <= d < hi
    ensures lo * r <= x < hi * r
  {
    MulLess(lo, d, r);
    MulLess(d, hi, r);
  }

  lemma NonNegativeQuotient(x: real, d: real, r: real)
    requires r > 0.0 && x == d * r && x >= 0.0
    ensures d >= 0.0
  {
    MulLess(d, 0.0, r);
  }

  lemma FloorShift(a: int, d: real)
    ensures (a as real + d).Floor == a + d.Floor
  {
  }

  /** On the line of the entry found, s falls within the pulse returned. */
  lemma LineBracket(m: Map, ppqn: int, s: real)
    requires ppqn > 0 && ValidMap(m, ppqn) && s >= 0.0
    ensures LookupSeconds(m, s) >= 0
    ensures var j, p := LookupSeconds(m, s), PulsesAt(m, ppqn, s);
            && p >= m[j].pulses
            && Line(m, ppqn, j, p) <= s < Line(m, ppqn, j, p + 1)
  {
    var j := LookupSeconds(m, s);
    var t := m[j];
    RatePositive(ppqn, t);
    var d := InverseRate(ppqn, t, s - t.seconds);
    FloorShift(t.pulses, d);
    var k := d.Floor;
    ScaleBracket(s - t.seconds, d, k as real, (k + 1) as real, Rate(ppqn, t));
    NonNegativeQuotient(s - t.seconds, d, Rate(ppqn, t));
    assert PulsesAt(m, ppqn, s) == t.pulses + k;
  }

  lemma LineOrder(m: Map, ppqn: int, i: nat, p: int, q: int)
    requires ppqn > 0 && i < |m| && m[i].mpqn > 0
    ensures Line(m, ppqn, i, p) < Line(m, ppqn, i, q) <==> p < q
  {
    RatePositive(ppqn, m[i]);
    MulLess((p - m[i].pulses) as real, (q - m[i].pulses) as real, Rate(ppqn, m[i]));
    MulLess((q - m[i].pulses) as real, (p - m[i].pulses) as real, Rate(ppqn, m[i]));
  }

  /** s falls within the pulse the conversion returns. */
  lemma PulsesBracket(m: Map, ppqn: int, s: real)
    requires ppqn > 0 && ValidMap(m, ppqn) && s >= 0.0
    ensures LookupSeconds(m, s) >= 0
    ensures var p := PulsesAt(m, ppqn, s);
            && p >= 0 && Lookup(m, p) >= 0 && Lookup(m, p + 1) >= 0
            && SecondsAt(m, ppqn, p) <= s < SecondsAt(m, ppqn, p + 1)
  {
    LineBracket(m, ppqn, s);
    var j, p := LookupSeconds(m, s), PulsesAt(m, ppqn, s);
    Increasing(m, ppqn, j, j);
    if j + 1 < |m| {
      assert Link(m, ppqn, j);
      var q := m[j + 1].pulses;
      LineOrder(m, ppqn, j, q, p);
      Continuous(m, ppqn, j, p);
      if p < q {
        Continuous(m, ppqn, j, p + 1);
      } else {
        OnePulse(m, ppqn, p);
        RatePositive(ppqn, m[InForce(m, p)]);
      }
    } else {
      Continuous(m, ppqn, j, p);
      Continuous(m, ppqn, j, p + 1);
    }
  }

  /** Converting to seconds and back is the identity. */
  lemma PulsesInvertsSeconds(m: Map, ppqn: int, p: nat)
    requires ppqn > 0 && ValidMap(m, ppqn)
    ensures Lookup(m, p) >= 0 && SecondsAt(m, ppqn, p) >= 0.0
    ensures LookupSeconds(m, SecondsAt(m, ppqn, p)) >= 0
    ensures PulsesAt(m, ppqn, SecondsAt(m, ppqn, p)) == p
  {
    LookupFound(m, ppqn, p);
    var s := SecondsAt(m, ppqn, p);
    if p > 0 {
      StrictlyIncreasing(m, ppqn, 0, p);
    }
    PulsesBracket(m, ppqn, s);
    var q := PulsesAt(m, ppqn, s);
    if q < p {
      if q + 1 < p {
        StrictlyIncreasing(m, ppqn, q + 1, p);
      }
    } else if q > p {
      StrictlyIncreasing(m, ppqn, p, q);
    }
  }
}
