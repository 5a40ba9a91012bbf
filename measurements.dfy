/**
  The rows of the `measurements` table as the dashboard holds them, and the
  vocabulary (counting ids, distinct ids, order-preserving subsequences) in
  which the merge of change events into the view is specified.
 */
module Measurements {

  /** The numeric reading of a row. The merge never inspects it, so it is opaque. */
  type Reading

  /** One row of `measurements`; `id` is the merge key, `ts` is only displayed. */
  datatype Measurement = Measurement(id: int, ts: string, value: Reading, source: string)

  /** The local view: the rows shown, most recently observed first. */
  type View = seq<Measurement>

  /** The cap on the number of rows the view keeps. */
  const MaxRows: nat := 200

  function Min(a: int, b: int): (r: int)
    ensures r <= a && r <= b && (r == a || r == b)
  {
    if a <= b then a else b
  }

  /** The number of rows of `view` that carry `id`. */
  function IdCount(view: View, id: int): (n: nat)
    ensures n <= |view|
    ensures n == 0 <==> forall i :: 0 <= i < |view| ==> view[i].id != id
    decreases |view|
  {
    if view == [] then 0
    else (if view[0].id == id then 1 else 0) + IdCount(view[1..], id)
  }

  /** No two rows of `view` share an id. */
  ghost predicate DistinctIds(view: View)
  {
    forall i, j :: 0 <= i < j < |view| ==> view[i].id != view[j].id
  }

  /** `a` is `b` with some elements left out and the rest kept in their order. */
  ghost predicate IsSubsequence<T>(a: seq<T>, b: seq<T>)
    decreases |b|
  {
    if a == [] then true
    else if b == [] then false
    else (a[0] == b[0] && IsSubsequence(a[1..], b[1..])) || IsSubsequence(a, b[1..])
  }

  /** Every prefix of a subsequence is again a subsequence. */
  lemma {:induction false} SubsequencePrefix<T>(a: seq<T>, b: seq<T>, k: nat)
    requires IsSubsequence(a, b) && k <= |a|
    ensures IsSubsequence(a[..k], b)
    decreases |b|
  {
    if k == 0 || a == [] {
      assert a[..k] == [];
    } else if a[0] == b[0] && IsSubsequence(a[1..], b[1..]) {
      SubsequencePrefix(a[1..], b[1..], k - 1);
      assert a[..k][0] == b[0] && a[..k][1..] == a[1..][..k - 1];
    } else {
      SubsequencePrefix(a, b[1..], k);
    }
  }

  /** A subsequence holds no element that the whole sequence lacks. */
  lemma {:induction false} SubsequenceMembers<T>(a: seq<T>, b: seq<T>, x: T)
    requires IsSubsequence(a, b) && x in a
    ensures x in b
    decreases |b|
  {
    if a[0] == b[0] && IsSubsequence(a[1..], b[1..]) {
      if x != a[0] {
        SubsequenceMembers(a[1..], b[1..], x);
      }
    } else {
      SubsequenceMembers(a, b[1..], x);
    }
  }
}
