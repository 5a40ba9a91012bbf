/**
  The row-merge updater of the dashboard (app/page.tsx, the `setRows`
  callbacks of the INSERT and UPDATE handlers): drop every row with the
  incoming id, put the incoming row in front, keep at most 200 rows.
 */
module ViewMerge {
  import opened Wrappers
  import opened Measurements

  /** The rows of `view` whose id is not `id`, in their order (`filter(r => r.id !== id)`). */
  function WithoutId(view: View, id: int): (r: View)
    ensures |r| == |view| - IdCount(view, id)
    ensures forall i :: 0 <= i < |r| ==> r[i].id != id
    ensures IsSubsequence(r, view)
    decreases |view|
  {
    if view == [] then []
    else if view[0].id == id then WithoutId(view[1..], id)
    else
      var rest := WithoutId(view[1..], id);
      assert ([view[0]] + rest)[1..] == rest;
      [view[0]] + rest
  }

  /** The filter keeps exactly the rows that do not carry `id`. */
  lemma {:induction false} WithoutIdMembers(view: View, id: int, m: Measurement)
    ensures m in WithoutId(view, id) <==> m in view && m.id != id
    decreases |view|
  {
    if view != [] {
      WithoutIdMembers(view[1..], id, m);
      assert m in view <==> m == view[0] || m in view[1..];
    }
  }

  /** Filtering a view with distinct ids leaves distinct ids. */
  lemma {:induction false} WithoutIdKeepsDistinct(view: View, id: int)
    requires DistinctIds(view)
    ensures DistinctIds(WithoutId(view, id))
    decreases |view|
  {
    if view != [] {
      var rest := WithoutId(view[1..], id);
      WithoutIdKeepsDistinct(view[1..], id);
      forall m | m in rest ensures m.id != view[0].id {
        WithoutIdMembers(view[1..], id, m);
      }
    }
  }

  /** Filtering out an id that no row carries changes nothing. */
  lemma {:induction false} WithoutAbsentId(view: View, id: int)
    requires IdCount(view, id) == 0
    ensures WithoutId(view, id) == view
    decreases |view|
  {
    if view != [] {
      assert view[0].id != id;
      WithoutAbsentId(view[1..], id);
      assert view == [view[0]] + view[1..];
    }
  }

  /** A subsequence of `view` that avoids `id` is at most as long as the filtered view. */
  lemma {:induction false} AvoidingSubsequenceBound(s: View, view: View, id: int)
    requires IsSubsequence(s, view)
    requires forall i :: 0 <= i < |s| ==> s[i].id != id
    ensures |s| <= |view| - IdCount(view, id)
    decreases |view|
  {
    if s != [] {
      if s[0] == view[0] && IsSubsequence(s[1..], view[1..]) {
        AvoidingSubsequenceBound(s[1..], view[1..], id);
      } else {
        AvoidingSubsequenceBound(s, view[1..], id);
      }
    }
  }

  /**
    The filter is the only order-preserving selection that drops every row
    carrying `id` and keeps every other one: any such subsequence equals it.
   */
  lemma {:induction false} WithoutIdIsUnique(s: View, view: View, id: int)
    requires IsSubsequence(s, view)
    requires forall i :: 0 <= i < |s| ==> s[i].id != id
    requires |s| == |view| - IdCount(view, id)
    ensures s == WithoutId(view, id)
    decreases |view|
  {
    if view == [] {
    } else if s == [] {
      assert IdCount(view, id) == |view|;
      WithoutIdEmptyWhenAllMatch(view, id);
    } else if s[0] == view[0] && IsSubsequence(s[1..], view[1..]) {
      WithoutIdIsUnique(s[1..], view[1..], id);
      assert s == [s[0]] + s[1..];
    } else {
      AvoidingSubsequenceBound(s, view[1..], id);
      assert view[0].id == id;
      WithoutIdIsUnique(s, view[1..], id);
    }
  }

  /** When every row carries `id`, the filter leaves nothing. */
  lemma {:induction false} WithoutIdEmptyWhenAllMatch(view: View, id: int)
    requires IdCount(view, id) == |view|
    ensures WithoutId(view, id) == []
    decreases |view|
  {
    if view != [] {
      assert view[0].id == id;
      WithoutIdEmptyWhenAllMatch(view[1..], id);
    }
  }

  /**
    The updater shared by the INSERT and UPDATE handlers: the incoming row
    goes to position 0 whatever its `ts`, every older row with its id goes,
    and the rest follow in their order, cut at MaxRows.
   */
  function ApplyChange(view: View, incoming: Measurement): (r: View)
    ensures 1 <= |r| <= MaxRows
    ensures r[0] == incoming
    ensures |r| == Min(MaxRows, 1 + |view| - IdCount(view, incoming.id))
    ensures forall i :: 1 <= i < |r| ==> r[i].id != incoming.id
    ensures r[1..] <= WithoutId(view, incoming.id)
  {
    var w := WithoutId(view, incoming.id);
    var next := [incoming] + w;
    var r := next[..Min(MaxRows, |next|)];
    assert r[1..] == w[..|r| - 1];
    r
  }

  /** Nothing is added but the incoming row, and nothing is modified. */
  lemma ApplyChangeAddsNothing(view: View, incoming: Measurement, m: Measurement)
    requires m in ApplyChange(view, incoming)
    ensures m == incoming || m in view
  {
    var r := ApplyChange(view, incoming);
    if m != incoming {
      assert m in r[1..] by {
        var i :| 0 <= i < |r| && r[i] == m;
        assert r[1..][i - 1] == m;
      }
      assert m in WithoutId(view, incoming.id);
      WithoutIdMembers(view, incoming.id, m);
    }
  }

  /** A view with distinct ids keeps them distinct through a change. */
  lemma ApplyChangeKeepsDistinct(view: View, incoming: Measurement)
    requires DistinctIds(view)
    ensures DistinctIds(ApplyChange(view, incoming))
  {
    var w := WithoutId(view, incoming.id);
    WithoutIdKeepsDistinct(view, incoming.id);
    var r := ApplyChange(view, incoming);
    assert r[1..] == w[..|r| - 1];
  }

  /** The rows after position 0 keep their old relative order. */
  lemma ApplyChangeKeepsOrder(view: View, incoming: Measurement)
    ensures IsSubsequence(ApplyChange(view, incoming)[1..], view)
  {
    var w := WithoutId(view, incoming.id);
    var r := ApplyChange(view, incoming);
    assert r[1..] == w[..|r| - 1];
    SubsequencePrefix(w, view, |r| - 1);
  }

  /**
    The rows after position 0 are exactly the first |r| - 1 rows of the old
    view that do not carry the incoming id: as many as fit, never fewer.
   */
  lemma ApplyChangeKeepsNewestOthers(view: View, incoming: Measurement)
    ensures var r := ApplyChange(view, incoming);
      r[1..] == WithoutId(view, incoming.id)[..|r| - 1] &&
      (|r| < MaxRows ==> r[1..] == WithoutId(view, incoming.id))
  {
  }

  /** Which of the two postgres_changes subscriptions delivered a row. */
  datatype ChangeKind = Insert | Update

  /** The `setRows` updater that the handler for `kind` runs on the post-change row. */
  function HandleChange(view: View, kind: ChangeKind, row: Measurement): (r: View)
    ensures r == ApplyChange(view, row)
  {
    match kind
    case Insert => ApplyChange(view, row)
    case Update => ApplyChange(view, row)
  }

  /** The INSERT and UPDATE handlers compute the same view from the same payload. */
  lemma InsertAndUpdateCoincide(view: View, row: Measurement)
    ensures HandleChange(view, Insert, row) == HandleChange(view, Update, row)
  {
  }

  /** An UPDATE (or INSERT) for an id not in the view simply prepends the row. */
  lemma {:induction false} ChangeOfAbsentIdPrepends(view: View, kind: ChangeKind, row: Measurement)
    requires IdCount(view, row.id) == 0
    ensures HandleChange(view, kind, row) == ([row] + view)[..Min(MaxRows, 1 + |view|)]
  {
    WithoutAbsentId(view, row.id);
  }

  /**
    A second change for the same id supersedes the first completely: the
    view is the one the second change alone would have produced.
   */
  lemma {:induction false} LaterChangeSupersedes(view: View, first: Measurement, second: Measurement)
    requires first.id == second.id
    ensures ApplyChange(ApplyChange(view, first), second) == ApplyChange(view, second)
  {
    var id := first.id;
    var w := WithoutId(view, id);
    var r1 := ApplyChange(view, first);
    var p := r1[1..];
    assert p == w[..|r1| - 1];
    assert IdCount(p, id) == 0;
    assert r1 == [first] + p;
    assert WithoutId(r1, id) == WithoutId(p, id);
    WithoutAbsentId(p, id);
    var r2 := ApplyChange(view, second);
    assert r2 == [second] + w[..|r2| - 1];
  }

  /** Applying the same change twice in a row gives the view applying it once gives. */
  lemma {:induction false} ApplyChangeIdempotent(view: View, incoming: Measurement)
    ensures ApplyChange(ApplyChange(view, incoming), incoming) == ApplyChange(view, incoming)
  {
    LaterChangeSupersedes(view, incoming, incoming);
  }

  /** The `latest` memo: the row at position 0, or null for an empty view. */
  function Latest(view: View): (r: Option<Measurement>)
    ensures r.None? <==> view == []
    ensures r.Some? ==> r.value == view[0]
  {
    if |view| > 0 then Some(view[0]) else None
  }

  /** After a change the latest row shown is the incoming row. */
  lemma LatestIsIncoming(view: View, incoming: Measurement)
    ensures Latest(ApplyChange(view, incoming)) == Some(incoming)
  {
  }

  /** The view after applying `events` one by one, in arrival order. */
  function Replay(view: View, events: seq<Measurement>): (r: View)
    ensures events != [] ==> Latest(r) == Some(events[|events| - 1])
    decreases |events|
  {
    if events == [] then view
    else ApplyChange(Replay(view, events[..|events| - 1]), events[|events| - 1])
  }

  /** Any stream of changes keeps a bounded view with distinct ids (if it started so). */
  lemma {:induction false} ReplayKeepsInvariant(view: View, events: seq<Measurement>)
    requires |view| <= MaxRows && DistinctIds(view)
    ensures |Replay(view, events)| <= MaxRows && DistinctIds(Replay(view, events))
    decreases |events|
  {
    if events != [] {
      ReplayKeepsInvariant(view, events[..|events| - 1]);
      ApplyChangeKeepsDistinct(Replay(view, events[..|events| - 1]), events[|events| - 1]);
    }
  }

  /** The events in reverse arrival order, the newest first. */
  function NewestFirst(events: seq<Measurement>): (r: seq<Measurement>)
    ensures |r| == |events|
    decreases |events|
  {
    if events == [] then [] else [events[|events| - 1]] + NewestFirst(events[..|events| - 1])
  }

  lemma {:induction false} NewestFirstAt(events: seq<Measurement>, k: nat)
    requires k < |events|
    ensures NewestFirst(events)[k] == events[|events| - 1 - k]
    decreases |events|
  {
    if k > 0 {
      NewestFirstAt(events[..|events| - 1], k - 1);
    }
  }

  /**
    From an empty view, a stream of changes with pairwise distinct ids leaves
    the newest MaxRows of them, newest first; the older ones are evicted.
   */
  lemma {:induction false} ReplayDistinctStream(events: seq<Measurement>)
    requires DistinctIds(events)
    ensures Replay([], events) == NewestFirst(events)[..Min(MaxRows, |events|)]
    decreases |events|
  {
    if events != [] {
      var n := |events|;
      var older, e := events[..n - 1], events[n - 1];
      DistinctStreamSplit(events);
      ReplayDistinctStream(older);
      var v := Replay([], older);
      NewestCutAvoids(older, e.id);
      WithoutAbsentId(v, e.id);
      assert Replay([], events) == ApplyChange(v, e);
      assert ApplyChange(v, e) == ([e] + v)[..Min(MaxRows, 1 + |v|)];
      assert NewestFirst(events) == [e] + NewestFirst(older);
      PrependCut(e, NewestFirst(older));
    }
  }

  /** The older events of a distinct stream are distinct and avoid the newest one's id. */
  lemma DistinctStreamSplit(events: seq<Measurement>)
    requires events != [] && DistinctIds(events)
    ensures var older := events[..|events| - 1];
      DistinctIds(older) && forall j :: 0 <= j < |older| ==> older[j].id != events[|events| - 1].id
  {
    var older := events[..|events| - 1];
    forall i, j | 0 <= i < j < |older| ensures older[i].id != older[j].id {
      assert older[i] == events[i] && older[j] == events[j];
    }
  }

  /** The newest rows of a stream avoiding `id` avoid it too. */
  lemma NewestCutAvoids(events: seq<Measurement>, id: int)
    requires forall j :: 0 <= j < |events| ==> events[j].id != id
    ensures IdCount(NewestFirst(events)[..Min(MaxRows, |events|)], id) == 0
  {
    var v := NewestFirst(events)[..Min(MaxRows, |events|)];
    forall i | 0 <= i < |v| ensures v[i].id != id {
      NewestFirstAt(events, i);
    }
  }

  /** Cutting before or after putting a row in front gives the same MaxRows rows. */
  lemma PrependCut(e: Measurement, s: seq<Measurement>)
    ensures var k := Min(MaxRows, |s|);
      ([e] + s[..k])[..Min(MaxRows, 1 + k)] == ([e] + s)[..Min(MaxRows, 1 + |s|)]
  {
    var k := Min(MaxRows, |s|);
    var l := Min(MaxRows, 1 + |s|);
    assert Min(MaxRows, 1 + k) == l;
    assert ([e] + s[..k])[..l] == [e] + s[..l - 1];
    assert ([e] + s)[..l] == [e] + s[..l - 1];
  }
}
