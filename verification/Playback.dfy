/**
 Playback order of a song, on values.  `times[t][i]` is the absolute time of event
 i of track t, `cur[t]` the cursor of track t.  The k-way merge driven by the
 cursors is compared with an independent definition: the stable sort by time of
 the tracks laid end to end.
 */
module Playback {
  type Times = seq<seq<int>>

  /** An event named by its place: track and index within the track, from zero. */
  datatype Pos = Pos(track: nat, index: nat)

  ghost predicate CursorsOk(times: Times, cur: seq<nat>) {
    |cur| == |times| && forall t :: 0 <= t < |cur| ==> cur[t] <= |times[t]|
  }

  ghost predicate Sorted(s: seq<int>) {
    forall i, j :: 0 <= i < j < |s| ==> s[i] <= s[j]
  }

  ghost predicate TracksSorted(times: Times) {
    forall t :: 0 <= t < |times| ==> Sorted(times[t])
  }

  /** p names an event the cursors have not passed yet. */
  ghost predicate Ahead(times: Times, cur: seq<nat>, p: Pos)
    requires CursorsOk(times, cur)
  {
    p.track < |times| && cur[p.track] <= p.index < |times[p.track]|
  }

  ghost predicate Exists(times: Times, p: Pos) {
    p.track < |times| && p.index < |times[p.track]|
  }

  ghost function TimeAt(times: Times, p: Pos): int
    requires Exists(times, p)
  {
    times[p.track][p.index]
  }

  /** Time first, then track, then place in the track. */
  ghost predicate Before(times: Times, p: Pos, q: Pos)
    requires Exists(times, p) && Exists(times, q)
  {
    || TimeAt(times, p) < TimeAt(times, q)
    || (TimeAt(times, p) == TimeAt(times, q) && (p.track < q.track || (p.track == q.track && p.index < q.index)))
  }

  // ------------------------------------------------------ what is to be played

  /** s is in strict playback order. */
  ghost predicate StrictlyOrdered(times: Times, s: seq<Pos>) {
    && (forall p :: p in s ==> Exists(times, p))
    && forall i, j :: 0 <= i < j < |s| ==> Before(times, s[i], s[j])
  }

  /** s lists exactly the events ahead of the cursors, each once, in playback order. */
  ghost predicate IsOrder(times: Times, cur: seq<nat>, s: seq<Pos>)
    requires CursorsOk(times, cur)
  {
    (forall p :: p in s <==> Ahead(times, cur, p)) && StrictlyOrdered(times, s)
  }

  ghost function Order(times: Times, cur: seq<nat>): (r: seq<Pos>)
    requires CursorsOk(times, cur) && TracksSorted(times)
    ensures IsOrder(times, cur, r)
  {
    assert exists s :: IsOrder(times, cur, s) by {
      var s := OrderExists(times, cur);
      assert IsOrder(times, cur, s);
    }
    var s :| IsOrder(times, cur, s);
    s
  }

  function Start(n: nat): (r: seq<nat>)
    ensures |r| == n && forall i :: 0 <= i < n ==> r[i] == 0
  {
    seq(n, i => 0)
  }

  /** Everything played after a rewind. */
  ghost function PlayOrder(times: Times): seq<Pos>
    requires TracksSorted(times)
  {
    Order(times, Start(|times|))
  }

  // ------------------------------------------------------------- one merge step

  /** t holds the event to be played next: least time, lowest track among equals. */
  ghost predicate IsNext(times: Times, cur: seq<nat>, t: nat)
    requires CursorsOk(times, cur)
  {
    && t < |times| && cur[t] < |times[t]|
    && forall u {:trigger cur[u]} {:trigger times[u]} :: 0 <= u < |times| && cur[u] < |times[u]| ==>
         times[t][cur[t]] <= times[u][cur[u]] && (u < t ==> times[t][cur[t]] < times[u][cur[u]])
  }

  ghost predicate Finished(times: Times, cur: seq<nat>)
    requires CursorsOk(times, cur)
  {
    forall t {:trigger cur[t]} {:trigger times[t]} :: 0 <= t < |times| ==> cur[t] == |times[t]|
  }

  lemma {:induction false} NextExists(times: Times, cur: seq<nat>, n: nat) returns (t: int)
    requires CursorsOk(times, cur) && n <= |times|
    ensures t == -1 ==> forall u :: 0 <= u < n ==> cur[u] == |times[u]|
    ensures t != -1 ==> 0 <= t < n && cur[t] < |times[t]|
    ensures t != -1 ==> forall u :: 0 <= u < n && cur[u] < |times[u]| ==>
              times[t][cur[t]] <= times[u][cur[u]] && (u < t ==> times[t][cur[t]] < times[u][cur[u]])
  {
    if n == 0 {
      t := -1;
    } else {
      t := NextExists(times, cur, n - 1);
      if cur[n - 1] < |times[n - 1]| && (t == -1 || times[n - 1][cur[n - 1]] < times[t][cur[t]]) {
        t := n - 1;
      }
    }
  }

  ghost function Left(times: Times, cur: seq<nat>): nat
    requires CursorsOk(times, cur)
  {
    if times == [] then 0
    else |times[0]| - cur[0] + Left(times[1..], cur[1..])
  }

  lemma {:induction false} LeftStep(times: Times, cur: seq<nat>, t: nat)
    requires CursorsOk(times, cur) && t < |times| && cur[t] < |times[t]|
    ensures Left(times, cur[t := cur[t] + 1]) == Left(times, cur) - 1
  {
    var cur' := cur[t := cur[t] + 1];
    if t == 0 {
      assert cur'[1..] == cur[1..];
    } else {
      LeftStep(times[1..], cur[1..], t - 1);
      assert cur'[1..] == cur[1..][t - 1 := cur[t] + 1];
    }
  }

  lemma PrependOrdered(times: Times, p: Pos, s: seq<Pos>)
    requires Exists(times, p) && StrictlyOrdered(times, s)
    requires forall q :: q in s ==> Before(times, p, q)
    ensures StrictlyOrdered(times, [p] + s)
  {
    var r := [p] + s;
    forall i, j | 0 <= i < j < |r| ensures Before(times, r[i], r[j]) {
      assert r[j] == s[j - 1] && s[j - 1] in s;
      if i > 0 { assert r[i] == s[i - 1]; }
    }
  }

  lemma NextIsFirst(times: Times, cur: seq<nat>, t: nat, p: Pos)
    requires CursorsOk(times, cur) && TracksSorted(times) && IsNext(times, cur, t)
    ensures Ahead(times, cur, p) <==> p == Pos(t, cur[t]) || Ahead(times, cur[t := cur[t] + 1], p)
    ensures Ahead(times, cur[t := cur[t] + 1], p) ==> Before(times, Pos(t, cur[t]), p)
  {
    var u := p.track;
    if Ahead(times, cur, p) && u != t {
      assert Sorted(times[u]);
      assert times[t][cur[t]] <= times[u][cur[u]] <= times[u][p.index];
    }
    if Ahead(times, cur, p) && u == t {
      assert Sorted(times[t]);
    }
  }

  /** Playing the next event and then the rest is playing everything. */
  lemma StepIsOrder(times: Times, cur: seq<nat>, t: nat, rest: seq<Pos>)
    requires CursorsOk(times, cur) && TracksSorted(times) && IsNext(times, cur, t)
    requires IsOrder(times, cur[t := cur[t] + 1], rest)
    ensures IsOrder(times, cur, [Pos(t, cur[t])] + rest)
  {
    var head, cur' := Pos(t, cur[t]), cur[t := cur[t] + 1];
    forall p | p in rest ensures Before(times, head, p) {
      NextIsFirst(times, cur, t, p);
    }
    PrependOrdered(times, head, rest);
    forall p: Pos ensures p in [head] + rest <==> Ahead(times, cur, p) {
      NextIsFirst(times, cur, t, p);
    }
  }

  /** Merging by cursors reaches every event: there is a playback order. */
  lemma {:induction false} OrderExists(times: Times, cur: seq<nat>) returns (s: seq<Pos>)
    requires CursorsOk(times, cur) && TracksSorted(times)
    ensures IsOrder(times, cur, s)
    decreases Left(times, cur)
  {
    var t := NextExists(times, cur, |times|);
    if t == -1 {
      s := [];
    } else {
      LeftStep(times, cur, t);
      var rest := OrderExists(times, cur[t := cur[t] + 1]);
      StepIsOrder(times, cur, t, rest);
      s := [Pos(t, cur[t])] + rest;
    }
  }

  /** A list in strict playback order is determined by its members. */
  lemma {:induction false} OrderedUnique(times: Times, a: seq<Pos>, b: seq<Pos>)
    requires StrictlyOrdered(times, a) && StrictlyOrdered(times, b)
    requires forall p :: p in a <==> p in b
    ensures a == b
  {
    assert b == [] || b[0] in b;
    if a != [] {
      assert a[0] in b && b != [];
      assert b[0] in a;
      assert a[0] == b[0];
      assert forall p :: p in a <==> p == a[0] || p in a[1..];
      assert forall p :: p in b <==> p == b[0] || p in b[1..];
      assert a[0] !in a[1..] && b[0] !in b[1..];
      OrderedUnique(times, a[1..], b[1..]);
    }
  }

  /** The first event still to be played, and what is left after it. */
  lemma OrderUnfold(times: Times, cur: seq<nat>, t: nat)
    requires CursorsOk(times, cur) && TracksSorted(times) && IsNext(times, cur, t)
    ensures Order(times, cur) == [Pos(t, cur[t])] + Order(times, cur[t := cur[t] + 1])
  {
    var rest := Order(times, cur[t := cur[t] + 1]);
    StepIsOrder(times, cur, t, rest);
    OrderedUnique(times, Order(times, cur), [Pos(t, cur[t])] + rest);
  }

  lemma OrderEnds(times: Times, cur: seq<nat>)
    requires CursorsOk(times, cur) && TracksSorted(times)
    ensures Order(times, cur) == [] <==> Finished(times, cur)
  {
    var s := Order(times, cur);
    assert s != [] ==> s[0] in s;
    forall t | 0 <= t < |times| && s == [] ensures cur[t] == |times[t]| {
      assert !Ahead(times, cur, Pos(t, cur[t]));
    }
  }

  // ------------------------------------------------- the stable sort it equals

  ghost function Track(times: Times, t: nat, n: nat): seq<Pos>
    requires t < |times| && n <= |times[t]|
  {
    seq(n, i requires 0 <= i < n => Pos(t, i))
  }

  /** The tracks laid end to end. */
  ghost function Concatenation(times: Times, n: nat): seq<Pos>
    requires n <= |times|
  {
    if n == 0 then [] else Concatenation(times, n - 1) + Track(times, n - 1, |times[n - 1]|)
  }

  /** Stable insertion sort, comparing times only. */
  ghost function InsertByTime(times: Times, p: Pos, s: seq<Pos>): seq<Pos>
    requires Exists(times, p) && forall q :: q in s ==> Exists(times, q)
  {
    if s == [] || TimeAt(times, p) <= TimeAt(times, s[0]) then [p] + s
    else [s[0]] + InsertByTime(times, p, s[1..])
  }

  ghost function StableSort(times: Times, s: seq<Pos>): (r: seq<Pos>)
    requires forall q :: q in s ==> Exists(times, q)
    ensures forall q :: q in r ==> Exists(times, q)
  {
    if s == [] then [] else
      InsertMembers(times, s[0], StableSort(times, s[1..]));
      InsertByTime(times, s[0], StableSort(times, s[1..]))
  }

  lemma {:induction false} InsertMembers(times: Times, p: Pos, s: seq<Pos>)
    requires Exists(times, p) && forall q :: q in s ==> Exists(times, q)
    ensures forall q :: q in InsertByTime(times, p, s) <==> q == p || q in s
  {
    if s != [] && TimeAt(times, p) > TimeAt(times, s[0]) {
      InsertMembers(times, p, s[1..]);
      assert forall q :: q in s <==> q == s[0] || q in s[1..];
    }
  }

  ghost predicate Earlier(p: Pos, q: Pos) {
    p.track < q.track || (p.track == q.track && p.index < q.index)
  }

  ghost predicate InPlaceOrder(s: seq<Pos>) {
    forall i, j :: 0 <= i < j < |s| ==> Earlier(s[i], s[j])
  }

  lemma {:induction false} InsertOrdered(times: Times, p: Pos, s: seq<Pos>)
    requires Exists(times, p) && StrictlyOrdered(times, s)
    requires forall q :: q in s ==> Earlier(p, q)
    ensures StrictlyOrdered(times, InsertByTime(times, p, s))
  {
    InsertMembers(times, p, s);
    if s == [] || TimeAt(times, p) <= TimeAt(times, s[0]) {
      forall q | q in s ensures Before(times, p, q) {
        var i :| 0 <= i < |s| && s[i] == q;
        assert i > 0 ==> Before(times, s[0], s[i]);
      }
      PrependOrdered(times, p, s);
    } else {
      InsertOrdered(times, p, s[1..]);
      InsertMembers(times, p, s[1..]);
      forall q | q in InsertByTime(times, p, s[1..]) ensures Before(times, s[0], q) {
        if q != p {
          var i :| 0 <= i < |s[1..]| && s[1..][i] == q;
          assert Before(times, s[0], s[i + 1]);
        }
      }
      PrependOrdered(times, s[0], InsertByTime(times, p, s[1..]));
    }
  }

  lemma {:induction false} SortOrdered(times: Times, s: seq<Pos>)
    requires forall q :: q in s ==> Exists(times, q)
    requires InPlaceOrder(s)
    ensures StrictlyOrdered(times, StableSort(times, s))
    ensures forall p :: p in StableSort(times, s) <==> p in s
  {
    if s != [] {
      forall q | q in s[1..] ensures Earlier(s[0], q) {
        var i :| 0 <= i < |s[1..]| && s[1..][i] == q;
        assert Earlier(s[0], s[i + 1]);
      }
      SortOrdered(times, s[1..]);
      InsertMembers(times, s[0], StableSort(times, s[1..]));
      InsertOrdered(times, s[0], StableSort(times, s[1..]));
      assert forall q :: q in s <==> q == s[0] || q in s[1..];
    }
  }

  lemma {:induction false} ConcatenationShape(times: Times, n: nat)
    requires n <= |times|
    ensures forall p :: p in Concatenation(times, n) <==> p.track < n && p.index < |times[p.track]|
    ensures InPlaceOrder(Concatenation(times, n))
  {
    if n > 0 {
      ConcatenationShape(times, n - 1);
      var s, t := Concatenation(times, n - 1), Track(times, n - 1, |times[n - 1]|);
      forall p: Pos | p.track == n - 1 && p.index < |times[n - 1]| ensures p in t {
        assert t[p.index] == p;
      }
      var r := Concatenation(times, n);
      assert r == s + t;
      forall i, j | 0 <= i < j < |r| ensures Earlier(r[i], r[j]) {
        if i < |s| {
          assert r[i] == s[i] && s[i] in s;
        }
        if j >= |s| {
          assert r[j] == t[j - |s|];
        }
      }
    }
  }

  /** Stable sort, by time, of all the tracks laid end to end. */
  ghost function Reference(times: Times): seq<Pos> {
    ConcatenationShape(times, |times|);
    StableSort(times, Concatenation(times, |times|))
  }

  /** The cursors play exactly the stable sort by time of all the tracks. */
  lemma PlayOrderIsStableSort(times: Times)
    requires TracksSorted(times)
    ensures PlayOrder(times) == Reference(times)
  {
    var start := Start(|times|);
    var all := Concatenation(times, |times|);
    ConcatenationShape(times, |times|);
    SortOrdered(times, all);
    forall p: Pos ensures p in PlayOrder(times) <==> p in Reference(times) {
      assert Ahead(times, start, p) <==> Exists(times, p);
    }
    OrderedUnique(times, PlayOrder(times), Reference(times));
  }
}
