/**
 What the rebuilt tempo map says, entry by entry, without building it: where its entries
 are, and which tempo and signature are in force at a pulse.
 */
module TempoSettings {
  import opened Tracks
  import opened TempoMap
  import opened TempoBuild
  import opened Removal

  /** Tempo and signature after all events up to pulse p, in order, none of them lost; time fields left at 0. */
  function Settings(es: seq<Ev>, p: int): (t: Tempo)
    ensures t.pulses == 0 && t.seconds == 0.0
  {
    if es == [] then INITIAL
    else
      var e, before := es[|es| - 1], Settings(es[..|es| - 1], p);
      if e.time <= p then Overwrite(before, ChangeOf(e.bytes)) else before
  }

  /** The entry carries those settings. */
  ghost predicate Carries(t: Tempo, es: seq<Ev>) {
    t == Settings(es, t.pulses).(pulses := t.pulses, seconds := t.seconds)
  }

  lemma {:induction false} SettingsFlat(es: seq<Ev>, p: int, q: int)
    requires p <= q && forall i :: 0 <= i < |es| && p < es[i].time <= q ==> ChangeOf(es[i].bytes) == NoChange
    ensures Settings(es, p) == Settings(es, q)
  {
    if es != [] {
      var init := es[..|es| - 1];
      assert forall i :: 0 <= i < |init| ==> init[i] == es[i];
      SettingsFlat(init, p, q);
    }
  }

  ghost predicate HasEntry(m: Map, p: int) {
    exists i :: 0 <= i < |m| && m[i].pulses == p
  }

  /** The entries are at pulse 0 and where something changes, and carry what is set by then. */
  ghost predicate Describes(m: Map, es: seq<Ev>) {
    && (forall i :: 0 <= i < |m| ==> Carries(m[i], es))
    && forall p :: HasEntry(m, p) <==> p == 0 || (p > 0 && OthersAt(es, p))
  }

  lemma {:induction false} BuildDescribes(ppqn: int, es: seq<Ev>)
    requires ppqn > 0 && Timed(es)
    ensures Describes(Build(ppqn, es), es)
  {
    if es == [] {
      assert [INITIAL][0].pulses == 0;
      assert forall p :: HasEntry([INITIAL], p) <==> p == 0;
    } else {
      var init, e := es[..|es| - 1], es[|es| - 1];
      BuildDescribes(ppqn, init);
      BuildReached(ppqn, init, e.time);
      StepDescribes(Build(ppqn, init), ppqn, init, e);
      assert init + [e] == es;
    }
  }

  /** One more event at the end of the list. */
  lemma Snoc(es: seq<Ev>, e: Ev)
    ensures forall p :: Settings(es + [e], p) ==
                        if e.time <= p then Overwrite(Settings(es, p), ChangeOf(e.bytes)) else Settings(es, p)
    ensures forall p :: OthersAt(es + [e], p) <==> OthersAt(es, p) || (e.time == p && ChangeOf(e.bytes) != NoChange)
  {
    var all := es + [e];
    assert all[..|es|] == es;
    forall p ensures OthersAt(all, p) <==> OthersAt(es, p) || (e.time == p && ChangeOf(e.bytes) != NoChange) {
      if OthersAt(es, p) {
        var i :| 0 <= i < |es| && es[i].time == p && ChangeOf(es[i].bytes) != NoChange;
        assert all[i] == es[i];
      }
      assert all[|es|] == e;
    }
  }

  /** Behind the last entry nothing changes, so a new entry at p starts from what is set by then. */
  lemma NewDescribes(m: Map, ppqn: int, es: seq<Ev>, p: int)
    requires ppqn > 0 && Reached(m, ppqn, p) && Describes(m, es)
    requires forall i :: 0 <= i < |es| ==> 0 <= es[i].time <= p
    ensures p >= 0 && m[0].pulses == 0
    ensures var n := NewTempo(m, ppqn, p);
            && (forall i :: 0 <= i < |n| ==> Carries(n[i], es))
            && (forall i :: 0 <= i < |n| - 1 ==> n[i].pulses < p)
            && (forall q :: HasEntry(n, q) <==> HasEntry(m, q) || q == p)
  {
    hide Settings;
    forall i | 0 <= i < |m| - 1 ensures m[i].pulses < Last(m).pulses {
      Increasing(m, ppqn, i, |m| - 1);
    }
    Increasing(m, ppqn, |m| - 1, |m| - 1);
    var n, last := NewTempo(m, ppqn, p), Last(m);
    if last.pulses == p {
      assert HasEntry(m, p);
    } else {
      forall i | 0 <= i < |es| && last.pulses < es[i].time <= p ensures ChangeOf(es[i].bytes) == NoChange {
        assert !HasEntry(m, es[i].time);
      }
      SettingsFlat(es, last.pulses, p);
      assert Carries(m[|m| - 1], es);
      forall q ensures HasEntry(n, q) <==> HasEntry(m, q) || q == p {
        if HasEntry(m, q) {
          var i :| 0 <= i < |m| && m[i].pulses == q;
          assert n[i].pulses == q;
        }
        assert n[|m|].pulses == p;
      }
    }
  }

  lemma StepDescribes(m: Map, ppqn: int, es: seq<Ev>, e: Ev)
    requires ppqn > 0 && Reached(m, ppqn, e.time) && Describes(m, es)
    requires forall i :: 0 <= i < |es| ==> 0 <= es[i].time <= e.time
    ensures e.time >= 0 && m[0].pulses == 0 && Describes(Step(m, ppqn, e.time, ChangeOf(e.bytes)), es + [e])
  {
    hide Settings, NewTempo, OthersAt;
    NewDescribes(m, ppqn, es, e.time);
    Snoc(es, e);
    var c, r := ChangeOf(e.bytes), Step(m, ppqn, e.time, ChangeOf(e.bytes));
    if c != NoChange {
      var n := NewTempo(m, ppqn, e.time);
      forall p ensures HasEntry(r, p) <==> HasEntry(n, p) {
        SamePulses(n, r, p);
      }
    }
  }

  lemma SamePulses(n: Map, r: Map, p: int)
    requires |n| == |r| && forall i :: 0 <= i < |n| ==> n[i].pulses == r[i].pulses
    ensures HasEntry(r, p) <==> HasEntry(n, p)
  {
  }

  /**
   The rebuilt map against the events themselves: the entry in force at a pulse holds the last
   tempo and the last signature played at or before it.
   */
  lemma InForceSettings(ppqn: int, es: seq<Ev>, p: nat)
    requires ppqn > 0 && Timed(es)
    ensures var m := Build(ppqn, es);
            && InForce(m, p) >= 0
            && m[InForce(m, p)].(pulses := 0, seconds := 0.0) == Settings(es, p)
  {
    hide Settings, Build, Describes, ValidMap;
    BuildDescribes(ppqn, es);
    BuildReached(ppqn, es, if es == [] then 0 else es[|es| - 1].time);
    DescribedInForce(Build(ppqn, es), ppqn, es, p);
  }

  lemma DescribedInForce(m: Map, ppqn: int, es: seq<Ev>, p: nat)
    requires ppqn > 0 && ValidMap(m, ppqn) && Describes(m, es)
    ensures InForce(m, p) >= 0 && m[InForce(m, p)].(pulses := 0, seconds := 0.0) == Settings(es, p)
  {
    hide Settings, OthersAt;
    var n := InForce(m, p);
    Increasing(m, ppqn, n, n);
    forall i | 0 <= i < |es| && m[n].pulses < es[i].time <= p ensures ChangeOf(es[i].bytes) == NoChange {
      NoEntryBetween(m, ppqn, n, es[i].time);
      NotAmong(es, i);
    }
    SettingsFlat(es, m[n].pulses, p);
    assert Carries(m[n], es);
  }

  lemma NoEntryBetween(m: Map, ppqn: int, n: nat, q: int)
    requires ppqn > 0 && ValidMap(m, ppqn) && n < |m| && m[n].pulses < q
    requires forall k :: n < k < |m| ==> m[k].pulses > q
    ensures !HasEntry(m, q)
  {
    forall j | 0 <= j < |m| ensures m[j].pulses != q {
      if j < n {
        Increasing(m, ppqn, j, n);
      }
    }
  }

  lemma NotAmong(es: seq<Ev>, i: nat)
    requires i < |es| && !OthersAt(es, es[i].time)
    ensures ChangeOf(es[i].bytes) == NoChange
  {
  }

  /** Two lists of events change something at the same pulses, and agree on what is set at every pulse. */
  ghost predicate Alike(es: seq<Ev>, others: seq<Ev>) {
    && (forall p :: p > 0 ==> (OthersAt(es, p) <==> OthersAt(others, p)))
    && forall p :: p >= 0 ==> Settings(es, p) == Settings(others, p)
  }

  /** Two valid maps that describe alike lists agree entry by entry. */
  lemma {:induction false} SameEntry(m: Map, r: Map, ppqn: int, es: seq<Ev>, others: seq<Ev>, i: nat)
    requires ppqn > 0 && ValidMap(m, ppqn) && ValidMap(r, ppqn) && Describes(m, es) && Describes(r, others)
    requires Alike(es, others) && i < |m|
    ensures i < |r| && m[i] == r[i]
  {
    hide Settings, OthersAt;
    if i == 0 {
      assert Carries(m[0], es) && Carries(r[0], others);
    } else {
      SameEntry(m, r, ppqn, es, others, i - 1);
      assert Link(m, ppqn, i - 1);
      Increasing(m, ppqn, i, i);
      assert HasEntry(m, m[i].pulses) && HasEntry(r, m[i].pulses);
      var j :| 0 <= j < |r| && r[j].pulses == m[i].pulses;
      if j < i {
        Increasing(r, ppqn, j, i - 1);
      }
      assert Link(r, ppqn, i - 1);
      Increasing(r, ppqn, i, j);
      assert HasEntry(r, r[i].pulses);
      Increasing(r, ppqn, i, i);
      assert HasEntry(m, r[i].pulses);
      var k :| 0 <= k < |m| && m[k].pulses == r[i].pulses;
      if k < i {
        Increasing(m, ppqn, k, i - 1);
      } else {
        Increasing(m, ppqn, i, k);
      }
      assert Carries(m[i], es) && Carries(r[i], others);
    }
  }

  /** Two lists of events give one map exactly when they are alike. */
  lemma {:induction false} SameMapIff(ppqn: int, es: seq<Ev>, others: seq<Ev>)
    requires ppqn > 0 && Timed(es) && Timed(others)
    ensures Build(ppqn, es) == Build(ppqn, others) <==> Alike(es, others)
  {
    hide Settings, OthersAt, Build;
    var m, r := Build(ppqn, es), Build(ppqn, others);
    BuildDescribes(ppqn, es);
    BuildDescribes(ppqn, others);
    if m == r {
      forall p | p > 0 ensures OthersAt(es, p) <==> OthersAt(others, p) {
        assert HasEntry(m, p) <==> HasEntry(r, p);
      }
      forall p | p >= 0 ensures Settings(es, p) == Settings(others, p) {
        InForceSettings(ppqn, es, p);
        InForceSettings(ppqn, others, p);
      }
    }
    if Alike(es, others) {
      BuildReached(ppqn, es, if es == [] then 0 else es[|es| - 1].time);
      BuildReached(ppqn, others, if others == [] then 0 else others[|others| - 1].time);
      SameEntry(m, r, ppqn, es, others, |m| - 1);
      SameEntry(r, m, ppqn, others, es, |r| - 1);
      forall i | 0 <= i < |m| ensures m[i] == r[i] {
        SameEntry(m, r, ppqn, es, others, i);
      }
    }
  }
}
