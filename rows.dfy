/**
 * Reordering the witnesses by dragging a row handle: the `onDragEnd` of the
 * row-drag handle splices the `data` array in place, taking the dragged row
 * out and putting it back at the hovered index.
 */
module Rows {
  import opened Wrappers
  import opened Schema

  /** `s.splice(to, 0, s.splice(from, 1)[0])`: take the element at `from` out and insert it at `to`. */
  function Moved<T>(s: seq<T>, from: nat, to: nat): (r: seq<T>)
    requires from < |s| && to < |s|
    ensures |r| == |s| && r[to] == s[from]
  {
    var rest := s[..from] + s[from + 1..];
    rest[..to] + [s[from]] + rest[to..]
  }

  /**
   * Where every element ends up: outside the span between `from` and `to`
   * nothing moves, and inside it every element shifts by one towards `from`.
   */
  lemma MovedAt<T>(s: seq<T>, from: nat, to: nat, k: nat)
    requires from < |s| && to < |s| && k < |s|
    ensures Moved(s, from, to)[k] ==
      if k == to then s[from]
      else if from < to && from <= k < to then s[k + 1]
      else if to < from && to < k <= from then s[k - 1]
      else s[k]
  {
    var rest := s[..from] + s[from + 1..];
    assert forall j :: 0 <= j < |rest| ==> rest[j] == if j < from then s[j] else s[j + 1];
  }

  /** Moving a row keeps every row: the result is a permutation. */
  lemma MovedPermutes<T>(s: seq<T>, from: nat, to: nat)
    requires from < |s| && to < |s|
    ensures multiset(Moved(s, from, to)) == multiset(s)
  {
    var rest := s[..from] + s[from + 1..];
    assert s == s[..from] + [s[from]] + s[from + 1..];
    assert multiset(s) == multiset(s[..from]) + multiset{s[from]} + multiset(s[from + 1..]);
    assert multiset(rest) == multiset(s[..from]) + multiset(s[from + 1..]);
    assert rest == rest[..to] + rest[to..];
    assert multiset(rest) == multiset(rest[..to]) + multiset(rest[to..]);
    var m := Moved(s, from, to);
    assert m == rest[..to] + [s[from]] + rest[to..];
    assert multiset(m) == multiset(rest[..to]) + multiset{s[from]} + multiset(rest[to..]);
    assert multiset(m) == multiset(rest) + multiset{s[from]};
    assert multiset(s) == multiset(rest) + multiset{s[from]};
  }

  /** Dragging the row back to where it came from undoes the move. */
  lemma MovedBack<T>(s: seq<T>, from: nat, to: nat)
    requires from < |s| && to < |s|
    ensures Moved(Moved(s, from, to), to, from) == s
  {
    var m := Moved(s, from, to);
    var b := Moved(m, to, from);
    forall k | 0 <= k < |s| ensures b[k] == s[k] {
      MovedAt(m, to, from, k);
      if k == from {
      } else if to < from && to <= k < from {
        MovedAt(s, from, to, k + 1);
      } else if from < to && from < k <= to {
        MovedAt(s, from, to, k - 1);
      } else {
        MovedAt(s, from, to, k);
      }
    }
  }

  /** The pair of splices on the array itself: the rows between the two indices shift by one. */
  method MoveRow(a: array<Row>, from: nat, to: nat)
    requires from < a.Length && to < a.Length
    modifies a
    ensures a[..] == Moved(old(a[..]), from, to)
  {
    ghost var s := a[..];
    var dragged := a[from];
    if from < to {
      for k := from to to
        invariant forall j :: 0 <= j < a.Length ==> a[j] == if from <= j < k then old(a[j + 1]) else old(a[j])
      {
        a[k] := a[k + 1];
      }
    } else {
      var k := from;
      while k > to
        invariant to <= k <= from
        invariant forall j :: 0 <= j < a.Length ==> a[j] == if k < j <= from then old(a[j - 1]) else old(a[j])
      {
        a[k] := a[k - 1];
        k := k - 1;
      }
    }
    a[to] := dragged;
    assert forall j :: 0 <= j < a.Length ==> s[j] == old(a[j]);
    forall j | 0 <= j < a.Length ensures a[j] == Moved(s, from, to)[j] {
      MovedAt(s, from, to, j);
    }
  }

  /**
   * The data after the row drag as written: the guard `hoveredRow?.index &&
   * draggingRow` is false for hovered index 0, so a row dropped on the first
   * row stays where it was.
   */
  function RowDropAsWritten(s: seq<Row>, hovered: Option<nat>, dragging: Option<nat>): (r: seq<Row>)
    requires hovered.Some? ==> hovered.value < |s|
    requires dragging.Some? ==> dragging.value < |s|
    ensures hovered.None? || hovered.value == 0 || dragging.None? ==> r == s
    ensures hovered.Some? && hovered.value != 0 && dragging.Some? ==> r == Moved(s, dragging.value, hovered.value)
  {
    if hovered.Some? && hovered.value != 0 && dragging.Some? then Moved(s, dragging.value, hovered.value) else s
  }

  /** The row drag as intended: whenever a row is dragged over a row, it moves there. */
  function RowDrop(s: seq<Row>, hovered: Option<nat>, dragging: Option<nat>): (r: seq<Row>)
    requires hovered.Some? ==> hovered.value < |s|
    requires dragging.Some? ==> dragging.value < |s|
    ensures hovered.None? || dragging.None? ==> r == s
    ensures hovered.Some? && dragging.Some? ==> r == Moved(s, dragging.value, hovered.value)
  {
    if hovered.Some? && dragging.Some? then Moved(s, dragging.value, hovered.value) else s
  }

  /** The row-drag `onDragEnd` as written, on the data array. */
  method RowDragEndAsWritten(a: array<Row>, hovered: Option<nat>, dragging: Option<nat>)
    requires hovered.Some? ==> hovered.value < a.Length
    requires dragging.Some? ==> dragging.value < a.Length
    modifies a
    ensures a[..] == RowDropAsWritten(old(a[..]), hovered, dragging)
  {
    if hovered.Some? && hovered.value != 0 && dragging.Some? {
      MoveRow(a, dragging.value, hovered.value);
    }
  }

  /** The row-drag `onDragEnd` with the guard testing for a hovered row, not a non-zero index. */
  method RowDragEnd(a: array<Row>, hovered: Option<nat>, dragging: Option<nat>)
    requires hovered.Some? ==> hovered.value < a.Length
    requires dragging.Some? ==> dragging.value < a.Length
    modifies a
    ensures a[..] == RowDrop(old(a[..]), hovered, dragging)
  {
    if hovered.Some? && dragging.Some? {
      MoveRow(a, dragging.value, hovered.value);
    }
  }

  /**
   * The finding in the row drag: dropping the second row on the first leaves
   * the order unchanged as written, while the intended drop swaps them.
   */
  lemma MoveToTopSkipped(s: seq<Row>)
    requires |s| >= 2
    ensures RowDropAsWritten(s, Some(0), Some(1)) == s
    ensures RowDrop(s, Some(0), Some(1)) == [s[1], s[0]] + s[2..]
    ensures s[0] != s[1] ==> RowDrop(s, Some(0), Some(1)) != s
  {
    var r := RowDrop(s, Some(0), Some(1));
    forall k | 0 <= k < |s| ensures r[k] == ([s[1], s[0]] + s[2..])[k] {
      MovedAt(s, 1, 0, k);
    }
  }
}
