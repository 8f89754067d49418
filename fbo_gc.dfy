/**
 * FBOMan::runGCAgainstVaidIDs as a function of the map and the valid ids:
 * which entries survive, which buffers are released and in what order, and
 * which diagnostics are written. The merge follows the source step by step,
 * including that the cursor moves past an entry whose key is larger than an
 * unmatched valid id without erasing it.
 */
module FboGc {
  import opened GLTypes
  import opened SortedSet
  import opened FboMap

  /** The two diagnostics the merge writes to std::cerr. */
  datatype GcLog =
    | UnmatchedValidKey(id: GLuint)   // the entry under the cursor is larger than id
    | TerminatedEarly(id: GLuint)     // the map ran out before id was reached

  /** The surviving entries, the released names in release order, and the diagnostics in order. */
  datatype GcOutcome = GcOutcome(kept: seq<Entry>, freed: seq<GLuint>, logs: seq<GcLog>)

  /**
   * The merge from a cursor position: m is the map from the cursor to the end,
   * v the valid ids not yet visited. Every entry is either kept or freed, and
   * each kept entry uses up one valid id.
   */
  function Reconcile(m: seq<Entry>, v: seq<GLuint>): (r: GcOutcome)
    ensures |r.kept| + |r.freed| == |m|
    ensures |r.kept| <= |v|
    decreases |m| + |v|
  {
    if v == [] then
      // the loop over the valid ids is over: release everything from the cursor on
      GcOutcome([], Keys(m), [])
    else if m == [] then
      // the cursor is at the end while ids are left: report and break
      GcOutcome([], [], [TerminatedEarly(v[0])])
    else if m[0].key < v[0] then
      // the inner while: erase the entry under the cursor, then release it
      var r := Reconcile(m[1..], v);
      GcOutcome(r.kept, [m[0].key] + r.freed, r.logs)
    else
      // report an unmatched id, then step past the entry under the cursor
      var r := Reconcile(m[1..], v[1..]);
      var log := if m[0].key > v[0] then [UnmatchedValidKey(v[0])] else [];
      GcOutcome([m[0]] + r.kept, r.freed, log + r.logs)
  }
}

module FboGcProperties {
  import opened GLTypes
  import opened SortedSet
  import opened FboMap
  import opened FboGc

  /**
   * The merge only removes: the survivors are entries of the input, still in
   * ascending order; every key is either kept or released, never both; and
   * the releases happen in ascending key order, so no name is released twice.
   */
  lemma {:induction false} ReconcilePartitions(m: seq<Entry>, v: seq<GLuint>)
    requires Sorted(m)
    ensures Sorted(Reconcile(m, v).kept)
    ensures StrictlyIncreasing(Reconcile(m, v).freed)
    ensures forall e :: e in Reconcile(m, v).kept ==> e in m
    ensures forall k :: k in Keys(m) <==> k in Keys(Reconcile(m, v).kept) || k in Reconcile(m, v).freed
    ensures forall k :: k in Reconcile(m, v).freed ==> k !in Keys(Reconcile(m, v).kept)
    decreases |m| + |v|
  {
    var r := Reconcile(m, v);
    if v == [] {
      SortedKeys(m);
    } else if m != [] {
      SortedTail(m);
      if m[0].key < v[0] {
        var r' := Reconcile(m[1..], v);
        ReconcilePartitions(m[1..], v);
        IncreasingCons(m[0].key, r'.freed);
        assert r.freed == [m[0].key] + r'.freed;
      } else {
        var r' := Reconcile(m[1..], v[1..]);
        ReconcilePartitions(m[1..], v[1..]);
        SortedCons(m[0], r'.kept);
        assert r.kept == [m[0]] + r'.kept;
      }
    }
  }

  /** The survivors form a sub-map of the input: no record is changed. */
  lemma ReconcileIsSubmap(m: seq<Entry>, v: seq<GLuint>)
    requires Sorted(m)
    ensures forall k :: k in AsMap(Reconcile(m, v).kept) ==>
              k in AsMap(m) && AsMap(Reconcile(m, v).kept)[k] == AsMap(m)[k]
  {
    var kept := Reconcile(m, v).kept;
    ReconcilePartitions(m, v);
    forall k | k in AsMap(kept) ensures k in AsMap(m) && AsMap(kept)[k] == AsMap(m)[k] {
      var i :| 0 <= i < |kept| && Keys(kept)[i] == k;
      AsMapAt(kept, i);
      assert kept[i] in m;
      var j :| 0 <= j < |m| && m[j] == kept[i];
      AsMapAt(m, j);
    }
  }

  /** Every released name is absent from the valid ids. */
  lemma {:induction false} ReconcileFreesOnlyInvalid(m: seq<Entry>, v: seq<GLuint>)
    requires Sorted(m) && StrictlyIncreasing(v)
    ensures forall k :: k in Reconcile(m, v).freed ==> k !in v
    decreases |m| + |v|
  {
    if v != [] && m != [] {
      SortedTail(m);
      if m[0].key < v[0] {
        ReconcileFreesOnlyInvalid(m[1..], v);
      } else {
        ReconcileFreesOnlyInvalid(m[1..], v[1..]);
        ReconcilePartitions(m[1..], v[1..]);
        assert v == [v[0]] + v[1..];
      }
    }
  }

  /** No over-collection: a key that is both in the map and valid survives. */
  lemma {:induction false} ReconcileKeepsValid(m: seq<Entry>, v: seq<GLuint>)
    requires Sorted(m) && StrictlyIncreasing(v)
    ensures forall k :: k in Keys(m) && k in v ==> k in Keys(Reconcile(m, v).kept)
    decreases |m| + |v|
  {
    if v != [] && m != [] {
      SortedTail(m);
      HeadIsLeast(v);
      var kept := Reconcile(m, v).kept;
      if m[0].key < v[0] {
        ReconcileKeepsValid(m[1..], v);
        assert kept == Reconcile(m[1..], v).kept;
      } else {
        var r' := Reconcile(m[1..], v[1..]);
        ReconcileKeepsValid(m[1..], v[1..]);
        assert kept == [m[0]] + r'.kept;
        assert Keys(kept) == [m[0].key] + Keys(r'.kept) by {
          assert kept[1..] == r'.kept;
        }
      }
    }
  }

  /**
   * When every valid id is in the map (the precondition the merge's own
   * comment states), the survivors are exactly the valid ids and nothing is
   * reported, so in particular the early break is never taken.
   */
  lemma {:induction false} ReconcileExact(m: seq<Entry>, v: seq<GLuint>)
    requires Sorted(m) && StrictlyIncreasing(v)
    requires forall x :: x in v ==> x in Keys(m)
    ensures forall k :: k in Keys(Reconcile(m, v).kept) <==> k in v
    ensures Reconcile(m, v).logs == []
    decreases |m| + |v|
  {
    if v != [] {
      assert v[0] in Keys(m);
      SortedTail(m);
      if m[0].key < v[0] {
        forall x | x in v ensures x in Keys(m[1..]) {
          if x != v[0] {
            var j :| 0 <= j < |v| && v[j] == x;
            assert v[0] < v[j];
          }
        }
        ReconcileExact(m[1..], v);
      } else {
        assert v[0] == m[0].key;
        HeadIsLeast(v);
        forall x | x in v[1..] ensures x in Keys(m[1..]) {
          assert x in Keys(m) && x != m[0].key;
        }
        ReconcileExact(m[1..], v[1..]);
        var r' := Reconcile(m[1..], v[1..]);
        assert Keys(Reconcile(m, v).kept) == [m[0].key] + Keys(r'.kept) by {
          assert ([m[0]] + r'.kept)[1..] == r'.kept;
        }
        assert v == [v[0]] + v[1..];
      }
    }
  }

  /**
   * The header's promise "all ids not in validKeys will be removed", which
   * holds when every valid id is in the map.
   */
  lemma ReconcileRemovesAllInvalid(m: seq<Entry>, v: seq<GLuint>)
    requires Sorted(m) && StrictlyIncreasing(v)
    requires forall x :: x in v ==> x in Keys(m)
    ensures forall k :: k in Keys(m) && k !in v ==> k in Reconcile(m, v).freed
  {
    ReconcileExact(m, v);
    ReconcilePartitions(m, v);
  }

  /**
   * The diagnostics as a function of the survivors: each survivor uses up
   * one valid id, reported when the survivor's key is larger than it;
   * a valid id left over when the survivors run out ends the merge early.
   */
  function PairLogs(kept: seq<Entry>, v: seq<GLuint>): seq<GcLog>
    requires |kept| <= |v|
  {
    if kept == [] then (if v == [] then [] else [TerminatedEarly(v[0])])
    else
      (if kept[0].key > v[0] then [UnmatchedValidKey(v[0])] else []) + PairLogs(kept[1..], v[1..])
  }

  /** The i-th survivor's key is at least the i-th valid id. */
  ghost predicate Covers(kept: seq<Entry>, v: seq<GLuint>) {
    |kept| <= |v| && forall i :: 0 <= i < |kept| ==> v[i] <= kept[i].key
  }

  lemma {:induction false} ReconcilePairs(m: seq<Entry>, v: seq<GLuint>)
    ensures Covers(Reconcile(m, v).kept, v)
    ensures Reconcile(m, v).logs == PairLogs(Reconcile(m, v).kept, v)
    decreases |m| + |v|
  {
    if v != [] && m != [] {
      if m[0].key < v[0] {
        ReconcilePairs(m[1..], v);
      } else {
        var r' := Reconcile(m[1..], v[1..]);
        ReconcilePairs(m[1..], v[1..]);
        var kept := [m[0]] + r'.kept;
        assert kept[1..] == r'.kept;
        forall i | 0 <= i < |kept| ensures v[i] <= kept[i].key {
          if i > 0 {
            assert kept[i] == r'.kept[i - 1] && v[i] == v[1..][i - 1];
          }
        }
      }
    }
  }

  /** A map whose entries cover the valid ids is a fixed point of the merge. */
  lemma {:induction false} ReconcileFixedPoint(kept: seq<Entry>, v: seq<GLuint>)
    requires Covers(kept, v)
    ensures Reconcile(kept, v) == GcOutcome(kept, [], PairLogs(kept, v))
    decreases |kept|
  {
    if kept != [] {
      assert v != [];
      forall i | 0 <= i < |kept| - 1 ensures v[1..][i] <= kept[1..][i].key {
        assert v[1..][i] == v[i + 1] && kept[1..][i] == kept[i + 1];
      }
      ReconcileFixedPoint(kept[1..], v[1..]);
      assert kept == [kept[0]] + kept[1..];
    }
  }

  /**
   * Running the merge a second time with the same valid ids releases nothing,
   * keeps everything and writes the same diagnostics as the first run.
   */
  lemma ReconcileIdempotent(m: seq<Entry>, v: seq<GLuint>)
    ensures Reconcile(Reconcile(m, v).kept, v) == GcOutcome(Reconcile(m, v).kept, [], Reconcile(m, v).logs)
  {
    ReconcilePairs(m, v);
    ReconcileFixedPoint(Reconcile(m, v).kept, v);
  }

  /** Some diagnostic says that the merge broke out of its loop early. */
  ghost predicate ReportsEarlyBreak(logs: seq<GcLog>) {
    exists i :: 0 <= i < |logs| && logs[i].TerminatedEarly?
  }

  lemma {:induction false} PairLogsTerminatedEarly(kept: seq<Entry>, v: seq<GLuint>)
    requires |kept| <= |v|
    ensures ReportsEarlyBreak(PairLogs(kept, v)) <==> |kept| < |v|
    decreases |kept|
  {
    if kept != [] {
      PairLogsTerminatedEarly(kept[1..], v[1..]);
      var head := if kept[0].key > v[0] then [UnmatchedValidKey(v[0])] else [];
      var tail := PairLogs(kept[1..], v[1..]);
      var logs := PairLogs(kept, v);
      assert logs == head + tail;
      if |kept| < |v| {
        var t :| 0 <= t < |tail| && tail[t].TerminatedEarly?;
        assert logs[|head| + t] == tail[t];
      }
      if ReportsEarlyBreak(logs) {
        var i :| 0 <= i < |logs| && logs[i].TerminatedEarly?;
        assert tail[i - |head|] == logs[i];
      }
    } else if v != [] {
      assert PairLogs(kept, v)[0].TerminatedEarly?;
    }
  }

  /** The merge breaks out early exactly when fewer entries survive than there are valid ids. */
  lemma ReconcileTerminatesEarly(m: seq<Entry>, v: seq<GLuint>)
    ensures ReportsEarlyBreak(Reconcile(m, v).logs) <==> |Reconcile(m, v).kept| < |v|
  {
    ReconcilePairs(m, v);
    PairLogsTerminatedEarly(Reconcile(m, v).kept, v);
  }

  /**
   * A valid id that is smaller than the entry under the cursor and not in
   * the map: the cursor still moves past that entry without erasing it, so it
   * survives although its key is not valid.
   */
  lemma ReconcileStepsOverLargerEntry(m: seq<Entry>, v: seq<GLuint>)
    requires Sorted(m) && StrictlyIncreasing(v)
    requires m != [] && v != [] && v[0] < m[0].key
    requires m[0].key !in v
    ensures m[0] in Reconcile(m, v).kept
    ensures m[0].key in Keys(Reconcile(m, v).kept)
    ensures Reconcile(m, v).logs[0] == UnmatchedValidKey(v[0])
    ensures Reconcile(m, v).kept == [m[0]] + Reconcile(m[1..], v[1..]).kept
  {
  }

  // Worked examples.

  const Rec := FboData("", 0, 0, 0)

  /** Map {3,5,9,12}, valid {5,12}: 3 and 9 are released, in that order; nothing is reported. */
  lemma ExampleSubsetOfMap()
    ensures var r := Reconcile([Entry(3, Rec), Entry(5, Rec), Entry(9, Rec), Entry(12, Rec)], [5, 12]);
            Keys(r.kept) == [5, 12] && r.freed == [3, 9] && r.logs == []
  {
    var e3, e5, e9, e12 := Entry(3, Rec), Entry(5, Rec), Entry(9, Rec), Entry(12, Rec);
    assert Reconcile([e12], [12]) == GcOutcome([e12], [], []) by {
      assert [e12][1..] == [] && [12][1..] == [];
    }
    assert Reconcile([e9, e12], [12]) == GcOutcome([e12], [9], []) by {
      assert [e9, e12][1..] == [e12];
    }
    assert Reconcile([e5, e9, e12], [5, 12]) == GcOutcome([e5, e12], [9], []) by {
      assert [e5, e9, e12][1..] == [e9, e12] && [5, 12][1..] == [12];
    }
    assert [e3, e5, e9, e12][1..] == [e5, e9, e12];
  }

  /**
   * Map {5,12}, valid {5,7,12}: nothing is released; 7 is reported, and the
   * cursor steps past 12 on it, so the map runs out at 12 and the merge breaks.
   */
  lemma ExampleValidIdMissing()
    ensures var r := Reconcile([Entry(5, Rec), Entry(12, Rec)], [5, 7, 12]);
            Keys(r.kept) == [5, 12] && r.freed == [] && r.logs == [UnmatchedValidKey(7), TerminatedEarly(12)]
  {
    var e5, e12 := Entry(5, Rec), Entry(12, Rec);
    assert Reconcile([], [12]) == GcOutcome([], [], [TerminatedEarly(12)]);
    assert Reconcile([e12], [7, 12]) == GcOutcome([e12], [], [UnmatchedValidKey(7), TerminatedEarly(12)]) by {
      assert [e12][1..] == [] && [7, 12][1..] == [12];
    }
    assert [e5, e12][1..] == [e12] && [5, 7, 12][1..] == [7, 12];
  }

  /** Map {3,5}, valid {0}: 3 survives although it is not valid, and only 5 is released. */
  lemma ExampleZeroSkipsSmallest()
    ensures var r := Reconcile([Entry(3, Rec), Entry(5, Rec)], [0]);
            Keys(r.kept) == [3] && r.freed == [5] && r.logs == [UnmatchedValidKey(0)]
  {
    var e3, e5 := Entry(3, Rec), Entry(5, Rec);
    assert Reconcile([e5], []) == GcOutcome([], [5], []);
    assert [e3, e5][1..] == [e5] && [0][1..] == [];
  }
}
