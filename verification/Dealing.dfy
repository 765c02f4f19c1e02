/**
 How the server deals the parts of a piece out to the computers: like cards, one to
 each in turn, or, when there are at least as many computers as parts, round the parts.
 */
module Dealing {
  /** Parts given to destination i: the entry of `track_num_map`. */
  function Share(nsrc: nat, ndest: nat, i: nat): nat
    requires i < ndest
  {
    nsrc / ndest + if i < nsrc % ndest then 1 else 0
  }

  /** The part, counted from 0, that destination i gets as its d-th. */
  function Dealt(ndest: nat, i: nat, d: nat): nat {
    i + d * ndest
  }

  lemma DivMod(s: nat, n: nat)
    requires n > 0
    ensures s == (s / n) * n + s % n && s % n < n
  {
  }

  /** One multiple of n further on is at least n further on. */
  lemma Apart(p: nat, q: nat, n: nat)
    requires p < q
    ensures p * n + n <= q * n
  {
    var k := q - p - 1;
    assert q * n == (p + 1 + k) * n == p * n + n + k * n;
  }

  lemma Quotient(i: nat, d: nat, n: nat)
    requires i < n
    ensures (i + d * n) / n == d && (i + d * n) % n == i
  {
    var s := i + d * n;
    DivMod(s, n);
    SameQuotient(s / n, s % n, d, i, n);
  }

  lemma SameQuotient(p: nat, r: nat, q: nat, i: nat, n: nat)
    requires r < n && i < n && p * n + r == q * n + i
    ensures p == q && r == i
  {
    if p < q {
      Apart(p, q, n);
    } else if q < p {
      Apart(q, p, n);
    }
  }

  /** The d-th part of destination i exists exactly when d is below its share, so no source index runs over. */
  lemma {:induction false} DealtInRange(nsrc: nat, ndest: nat, i: nat, d: nat)
    requires i < ndest
    ensures d < Share(nsrc, ndest, i) <==> Dealt(ndest, i, d) < nsrc
  {
    DivMod(nsrc, ndest);
    InRange(nsrc / ndest, nsrc % ndest, i, d, ndest);
  }

  lemma InRange(q: nat, r: nat, i: nat, d: nat, n: nat)
    requires r < n && i < n
    ensures d < q + (if i < r then 1 else 0) <==> i + d * n < q * n + r
  {
    if d < q {
      Apart(d, q, n);
    } else if d > q {
      Apart(q, d, n);
    }
  }

  /** Every part goes to exactly one place. */
  lemma {:induction false} DealtBijection(nsrc: nat, ndest: nat, s: nat)
    requires ndest > 0 && s < nsrc
    ensures var i, d := s % ndest, s / ndest;
            i < ndest && d < Share(nsrc, ndest, i) && Dealt(ndest, i, d) == s
    ensures forall i: nat, d: nat :: i < ndest && Dealt(ndest, i, d) == s ==> i == s % ndest && d == s / ndest
  {
    DivMod(s, ndest);
    DealtInRange(nsrc, ndest, s % ndest, s / ndest);
    forall i: nat, d: nat | i < ndest && Dealt(ndest, i, d) == s ensures i == s % ndest && d == s / ndest {
      Quotient(i, d, ndest);
    }
  }

  // -------------------------------------------------------------- conservation

  /** What destination i is dealt. */
  function Hand<T>(parts: seq<T>, ndest: nat, i: nat): (r: seq<T>)
    requires i < ndest
    ensures |r| == Share(|parts|, ndest, i)
    ensures forall d :: 0 <= d < |r| ==> Dealt(ndest, i, d) < |parts| && r[d] == parts[Dealt(ndest, i, d)]
  {
    assert forall d: nat :: d < Share(|parts|, ndest, i) ==> Dealt(ndest, i, d) < |parts| by {
      forall d: nat | d < Share(|parts|, ndest, i) ensures Dealt(ndest, i, d) < |parts| {
        DealtInRange(|parts|, ndest, i, d);
      }
    }
    seq(Share(|parts|, ndest, i), d requires d >= 0 && Dealt(ndest, i, d) < |parts| => parts[Dealt(ndest, i, d)])
  }

  function Hands<T>(parts: seq<T>, ndest: nat): (r: seq<seq<T>>)
    ensures |r| == ndest && forall i :: 0 <= i < ndest ==> r[i] == Hand(parts, ndest, i)
  {
    seq(ndest, i requires 0 <= i < ndest => Hand(parts, ndest, i))
  }

  function Concat<T>(ss: seq<seq<T>>): seq<T> {
    if ss == [] then [] else ss[0] + Concat(ss[1..])
  }

  lemma {:induction false} ConcatGrow<T>(ss: seq<seq<T>>, i: nat, x: T)
    requires i < |ss|
    ensures multiset(Concat(ss[i := ss[i] + [x]])) == multiset(Concat(ss)) + multiset{x}
    decreases i
  {
    var tt := ss[i := ss[i] + [x]];
    if i == 0 {
      assert tt[1..] == ss[1..];
      assert Concat(tt) == ss[0] + [x] + Concat(ss[1..]);
    } else {
      ConcatGrow(ss[1..], i - 1, x);
      assert tt[1..] == ss[1..][i - 1 := ss[1..][i - 1] + [x]];
    }
  }

  /** One more part goes to the end of one hand. */
  lemma HandsGrow<T>(parts: seq<T>, ndest: nat, x: T)
    requires ndest > 0
    ensures var i := |parts| % ndest;
            i < ndest && Hands(parts + [x], ndest) == Hands(parts, ndest)[i := Hand(parts, ndest, i) + [x]]
  {
    var n := |parts|;
    var i := n % ndest;
    forall j: nat | j < ndest
      ensures Hand(parts + [x], ndest, j) == if j == i then Hand(parts, ndest, j) + [x] else Hand(parts, ndest, j)
    {
      ShareGrows(n, ndest, j);
      if j == i {
        DivMod(n, ndest);
        assert Dealt(ndest, i, n / ndest) == n;
      }
    }
  }

  lemma ShareGrows(n: nat, ndest: nat, j: nat)
    requires j < ndest
    ensures Share(n + 1, ndest, j) == Share(n, ndest, j) + if j == n % ndest then 1 else 0
    ensures j == n % ndest ==> Share(n, ndest, j) == n / ndest
  {
    DivMod(n, ndest);
    var q, r := n / ndest, n % ndest;
    if r + 1 < ndest {
      Quotient(r + 1, q, ndest);
    } else {
      assert (q + 1) * ndest == n + 1;
      Quotient(0, q + 1, ndest);
    }
  }

  lemma {:induction false} EmptyHands<T>(n: nat, ss: seq<seq<T>>)
    requires |ss| == n && forall i :: 0 <= i < n ==> ss[i] == []
    ensures Concat(ss) == []
  {
    if n > 0 {
      EmptyHands(n - 1, ss[1..]);
    }
  }

  /** Dealing loses nothing and doubles nothing. */
  lemma {:induction false} DealingConserves<T>(parts: seq<T>, ndest: nat)
    requires ndest > 0
    ensures multiset(Concat(Hands(parts, ndest))) == multiset(parts)
  {
    if parts == [] {
      EmptyHands(ndest, Hands(parts, ndest));
    } else {
      var init, x := parts[..|parts| - 1], parts[|parts| - 1];
      assert parts == init + [x];
      DealingConserves(init, ndest);
      HandsGrow(init, ndest, x);
      ConcatGrow(Hands(init, ndest), |init| % ndest, x);
    }
  }

  /** The shares add up, and differ by at most one. */
  function TotalShare(nsrc: nat, ndest: nat, upto: nat): nat
    requires upto <= ndest
  {
    if upto == 0 then 0 else TotalShare(nsrc, ndest, upto - 1) + Share(nsrc, ndest, upto - 1)
  }

  lemma {:induction false} SharesUpTo(nsrc: nat, ndest: nat, upto: nat)
    requires 0 < ndest && upto <= ndest
    ensures TotalShare(nsrc, ndest, upto)
              == upto * (nsrc / ndest) + (if upto < nsrc % ndest then upto else nsrc % ndest)
  {
    if upto > 0 {
      SharesUpTo(nsrc, ndest, upto - 1);
      assert upto * (nsrc / ndest) == (upto - 1) * (nsrc / ndest) + nsrc / ndest;
    }
  }

  lemma SharesAddUp(nsrc: nat, ndest: nat)
    requires ndest > 0
    ensures TotalShare(nsrc, ndest, ndest) == nsrc
    ensures forall i: nat, j: nat :: i < ndest && j < ndest ==> Share(nsrc, ndest, i) <= Share(nsrc, ndest, j) + 1
  {
    SharesUpTo(nsrc, ndest, ndest);
    DivMod(nsrc, ndest);
  }

  // --------------------------------------------------- at least as many computers

  /** How many of the first n computers play part s, when computer i plays part i % nsrc. */
  function Players(nsrc: nat, n: nat, s: nat): nat
    requires s < nsrc
  {
    if n == 0 then 0 else Players(nsrc, n - 1, s) + if (n - 1) % nsrc == s then 1 else 0
  }

  /** Every part is played by the floor or the ceiling of computers per part. */
  lemma {:induction false} PlayersShare(nsrc: nat, n: nat, s: nat)
    requires s < nsrc
    ensures Players(nsrc, n, s) == Share(n, nsrc, s)
  {
    if n > 0 {
      PlayersShare(nsrc, n - 1, s);
      ShareGrows(n - 1, nsrc, s);
    } else {
      DivMod(0, nsrc);
    }
  }

  lemma EveryPartPlayed(nsrc: nat, ndest: nat, s: nat)
    requires s < nsrc <= ndest
    ensures Players(nsrc, ndest, s) >= 1
  {
    PlayersShare(nsrc, ndest, s);
    DealtInRange(ndest, nsrc, s, 0);
  }

  /** Tracks of a format 2 file given to destination i. */
  function FormatTwoShare(ntracks: nat, ndest: nat, i: nat): nat
    requires i < ndest
  {
    if ndest >= ntracks then 1 else Share(ntracks, ndest, i)
  }

  /** The source index of the d-th of them. */
  function FormatTwoIndex(ntracks: nat, ndest: nat, i: nat, d: nat): nat
    requires ntracks > 0
  {
    if ndest >= ntracks then i % ntracks + 1 else Dealt(ndest, i, d)
  }

  /** A format 2 file is read past its last track exactly when there are at least as many computers as tracks. */
  lemma FormatTwoRunsOverIff(ntracks: nat, ndest: nat)
    requires ntracks > 0 && ndest > 0
    ensures (exists i: nat, d: nat :: i < ndest && d < FormatTwoShare(ntracks, ndest, i)
                                      && FormatTwoIndex(ntracks, ndest, i, d) >= ntracks) <==> ndest >= ntracks
    ensures ndest >= ntracks ==>
              forall i: nat :: i < ndest ==>
                FormatTwoShare(ntracks, ndest, i) == 1 && FormatTwoIndex(ntracks, ndest, i, 0) == i % ntracks + 1
    ensures ndest < ntracks ==>
              forall i: nat, d: nat :: i < ndest ==>
                && (d < FormatTwoShare(ntracks, ndest, i) <==> Dealt(ndest, i, d) < ntracks)
                && FormatTwoIndex(ntracks, ndest, i, d) == Dealt(ndest, i, d)
  {
    hide Dealt, Share;
    if ndest >= ntracks {
      assert (ntracks - 1) % ntracks == ntracks - 1;
      assert FormatTwoIndex(ntracks, ndest, ntracks - 1, 0) == ntracks
          && 0 < FormatTwoShare(ntracks, ndest, ntracks - 1);
    } else {
      forall i: nat, d: nat | i < ndest
        ensures d < FormatTwoShare(ntracks, ndest, i) <==> Dealt(ndest, i, d) < ntracks
        ensures FormatTwoIndex(ntracks, ndest, i, d) == Dealt(ndest, i, d)
      {
        DealtInRange(ntracks, ndest, i, d);
      }
    }
  }
}
