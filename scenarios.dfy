/**
  Worked examples of the reconciler: a short sequence of changes, an
  overflowing stream of new rows, and a load that replaces the view. The
  readings are parameters because the merge never looks at them.
 */
module Scenarios {
  import opened Wrappers
  import opened Measurements
  import opened ViewMerge
  import opened Snapshot
  import opened RealtimeStatus
  import opened Dashboard

  /** Rows 1 and 2 arrive, then row 1 again with new fields: it moves to the front. */
  lemma {:induction false} ChangeSequence(x: Reading, y: Reading, z: Reading)
    ensures var m1 := Measurement(1, "t1", x, "A");
      var m2 := Measurement(2, "t2", y, "B");
      var m1b := Measurement(1, "t3", z, "A");
      var v1 := ApplyChange([], m1);
      var v2 := ApplyChange(v1, m2);
      var v3 := ApplyChange(v2, m1b);
      v1 == [m1] && v2 == [m2, m1] && v3 == [m1b, m2]
  {
    var m1 := Measurement(1, "t1", x, "A");
    var m2 := Measurement(2, "t2", y, "B");
    var m1b := Measurement(1, "t3", z, "A");
    ChangeOfAbsentIdPrepends([m1], Insert, m2);
    assert WithoutId([m2, m1], 1) == [m2] by {
      assert [m2, m1][1..] == [m1];
      assert WithoutId([m1], 1) == [];
    }
  }

  /** 201 rows with ids 1..201 arrive in order: ids 201 down to 2 remain, id 1 is evicted. */
  lemma EvictionOfTheOldest(events: seq<Measurement>)
    requires |events| == 201
    requires forall k :: 0 <= k < |events| ==> events[k].id == k + 1
    ensures var v := Replay([], events);
      |v| == 200 && forall i :: 0 <= i < 200 ==> v[i].id == 201 - i
  {
    ReplayDistinctStream(events);
    var v := Replay([], events);
    forall i | 0 <= i < 200 ensures v[i].id == 201 - i {
      NewestFirstAt(events, i);
    }
  }

  /** A load that arrives after some changes replaces them with exactly its rows. */
  lemma SnapshotAfterChanges(st: LoadState, m5: Measurement, m6: Measurement, events: seq<Measurement>)
    ensures var before := LoadState(Replay(st.rows, events), st.initialLoading, st.errorMessage);
      ApplySnapshot(before, Loaded(Some([m5, m6]))).rows == [m5, m6] &&
      ApplySnapshot(before, Loaded(None)).rows == []
  {
  }

  /** A page that sees a load, two changes, notifications and an unmount. */
  method PageWalkthrough(m5: Measurement, m6: Measurement, row: Measurement)
    requires m5.id == 5 && m6.id == 6 && row.id == 5
  {
    var page := new Page();
    page.OnStatus("SUBSCRIBED");
    assert page.realtimeStatus == Active;
    page.OnSnapshot(Loaded(Some([m5, m6])));
    assert page.rows == [m5, m6] && !page.initialLoading;
    page.OnChange(Update, row);
    assert page.rows[0] == row && Latest(page.rows) == Some(row);
    page.OnStatus("TIMED_OUT");
    assert page.realtimeStatus == Active;
    page.Unmount();
    page.OnSnapshot(QueryFailed);
    assert page.errorMessage == None && page.rows[0] == row;
    page.OnStatus("CLOSED");
    assert StatusLabel(page.realtimeStatus) == ClosedLabel;
  }
}
