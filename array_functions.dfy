/**
 * The backend's array functions over offset-encoded array columns. An array column keeps the
 * elements of all its rows back to back; row `i` holds the elements between `offsets[i]` and
 * `offsets[i + 1]`. Each function walks the rows, appends the elements of its result row to a
 * new element column and pushes the running end offset.
 */
module ArrayFunctions {
  import opened Wrappers

  /** One element: SQL NULL or a value. Two nulls compare equal, as the column's `equals` does. */
  datatype Datum<T> = Null | Value(v: T)

  datatype ArrayColumn<T> = ArrayColumn(elements: seq<Datum<T>>, offsets: seq<nat>)

  /** Offsets start at 0, never decrease and end at the number of elements. */
  predicate WellFormed<T>(c: ArrayColumn<T>) {
    && |c.offsets| >= 1 && c.offsets[0] == 0
    && (forall i, j :: 0 <= i <= j < |c.offsets| ==> c.offsets[i] <= c.offsets[j])
    && c.offsets[|c.offsets| - 1] == |c.elements|
  }

  function NumRows<T>(c: ArrayColumn<T>): nat
    requires WellFormed(c)
  {
    |c.offsets| - 1
  }

  function Row<T>(c: ArrayColumn<T>, i: nat): seq<Datum<T>>
    requires WellFormed(c) && i < NumRows(c)
  {
    c.elements[c.offsets[i]..c.offsets[i + 1]]
  }

  /** The column holding `rows`, in order. */
  function FromRows<T>(rows: seq<seq<Datum<T>>>): (c: ArrayColumn<T>)
    ensures |c.offsets| == |rows| + 1
    ensures c.offsets[|rows|] == |c.elements|
  {
    if rows == [] then ArrayColumn([], [0])
    else
      var prev := FromRows(rows[..|rows| - 1]);
      ArrayColumn(prev.elements + rows[|rows| - 1], prev.offsets + [|prev.elements| + |rows[|rows| - 1]|])
  }

  lemma FromRowsSnoc<T>(rows: seq<seq<Datum<T>>>, r: seq<Datum<T>>)
    ensures FromRows(rows + [r]) ==
      ArrayColumn(FromRows(rows).elements + r, FromRows(rows).offsets + [|FromRows(rows).elements| + |r|])
  {
    assert (rows + [r])[..|rows|] == rows;
  }

  /** Appending a row's elements and its end offset gives the column of one more row. */
  lemma PushRow<T>(rows: seq<seq<Datum<T>>>, elements: seq<Datum<T>>, offsets: seq<nat>, r: seq<Datum<T>>,
                   elements2: seq<Datum<T>>, offsets2: seq<nat>)
    requires ArrayColumn(elements, offsets) == FromRows(rows)
    requires elements2 == elements + r && offsets2 == offsets + [|elements2|]
    ensures ArrayColumn(elements2, offsets2) == FromRows(rows + [r])
  {
    FromRowsSnoc(rows, r);
  }

  /** Appends one row's elements and its end offset: the column of one more row. */
  method AppendRow<T>(elements: seq<Datum<T>>, offsets: seq<nat>, ghost rows: seq<seq<Datum<T>>>, row: seq<Datum<T>>)
    returns (elements2: seq<Datum<T>>, offsets2: seq<nat>)
    requires ArrayColumn(elements, offsets) == FromRows(rows)
    ensures ArrayColumn(elements2, offsets2) == FromRows(rows + [row])
  {
    elements2 := elements + row;
    offsets2 := offsets + [|elements2|];
    PushRow(rows, elements, offsets, row, elements2, offsets2);
  }

  /** One more entry of `want` extends its prefix. */
  lemma PrefixSnoc<T>(want: seq<T>, i: nat)
    requires i < |want|
    ensures want[..i + 1] == want[..i] + [want[i]]
  {
  }

  /** The column built from `rows` is well formed, with one row per entry. */
  lemma {:induction false} FromRowsWellFormed<T>(rows: seq<seq<Datum<T>>>)
    ensures WellFormed(FromRows(rows)) && NumRows(FromRows(rows)) == |rows|
  {
    if rows != [] {
      var front := rows[..|rows| - 1];
      FromRowsWellFormed(front);
      var prev := FromRows(front);
      var c := FromRows(rows);
      assert c.offsets == prev.offsets + [|prev.elements| + |rows[|rows| - 1]|];
      forall i, j | 0 <= i <= j < |c.offsets|
        ensures c.offsets[i] <= c.offsets[j]
      {
        if j < |prev.offsets| {
          assert c.offsets[i] == prev.offsets[i] && c.offsets[j] == prev.offsets[j];
        } else {
          assert c.offsets[i] <= prev.offsets[|prev.offsets| - 1] || i == j;
        }
      }
    }
  }

  /** Row `i` of the column built from `rows` is `rows[i]`. */
  lemma {:induction false} FromRowsRow<T>(rows: seq<seq<Datum<T>>>, i: nat)
    requires i < |rows|
    ensures WellFormed(FromRows(rows)) && Row(FromRows(rows), i) == rows[i]
  {
    FromRowsWellFormed(rows);
    var front := rows[..|rows| - 1];
    FromRowsWellFormed(front);
    var prev := FromRows(front);
    var c := FromRows(rows);
    assert c.elements == prev.elements + rows[|rows| - 1];
    assert c.offsets == prev.offsets + [|prev.elements| + |rows[|rows| - 1]|];
    if i < |front| {
      FromRowsRow(front, i);
      assert c.offsets[i] == prev.offsets[i] && c.offsets[i + 1] == prev.offsets[i + 1];
      assert c.elements[..|prev.elements|] == prev.elements;
      assert rows[i] == front[i];
    }
  }

  /** The column built from `rows` is well formed and gives each row back. */
  lemma FromRowsRows<T>(rows: seq<seq<Datum<T>>>)
    ensures WellFormed(FromRows(rows)) && NumRows(FromRows(rows)) == |rows|
    ensures forall i :: 0 <= i < |rows| ==> Row(FromRows(rows), i) == rows[i]
  {
    FromRowsWellFormed(rows);
    forall i | 0 <= i < |rows|
      ensures Row(FromRows(rows), i) == rows[i]
    {
      FromRowsRow(rows, i);
    }
  }

  /** A row of a column without nulls has no nulls. */
  lemma RowNullFree<T>(c: ArrayColumn<T>, i: nat)
    requires WellFormed(c) && i < NumRows(c) && Null !in c.elements
    ensures Null !in Row(c, i)
  {
  }

  /** The number of occurrences of `x` in `s`. */
  function Count<T(==)>(s: seq<Datum<T>>, x: Datum<T>): nat
  {
    if s == [] then 0 else Count(s[..|s| - 1], x) + if s[|s| - 1] == x then 1 else 0
  }

  /** `array_length`: each row's length is the difference of its two offsets. */
  method ArrayLength<T>(c: ArrayColumn<T>) returns (lengths: seq<int>)
    requires WellFormed(c)
    ensures |lengths| == NumRows(c)
    ensures forall i :: 0 <= i < NumRows(c) ==> lengths[i] == |Row(c, i)|
  {
    lengths := [];
    var i := 0;
    while i < NumRows(c)
      invariant 0 <= i <= NumRows(c) && |lengths| == i
      invariant forall k :: 0 <= k < i ==> lengths[k] == |Row(c, k)|
    {
      lengths := lengths + [c.offsets[i + 1] - c.offsets[i]];
      i := i + 1;
    }
  }

  /** `array_length` of a constant column: the second offset is the length of its one row. */
  function ConstArrayLength<T>(c: ArrayColumn<T>): (n: int)
    requires WellFormed(c) && NumRows(c) >= 1
    ensures n == |Row(c, 0)|
  {
    c.offsets[1]
  }

  /**
   * `do_array_append`: every row followed by exactly one element of `data` (the row's own
   * value, the constant's value or a null, as the caller's column provides).
   */
  method ArrayAppend<T>(c: ArrayColumn<T>, data: seq<Datum<T>>) returns (r: ArrayColumn<T>)
    requires WellFormed(c) && |data| == NumRows(c)
    ensures WellFormed(r) && NumRows(r) == NumRows(c)
    ensures forall i :: 0 <= i < NumRows(c) ==> Row(r, i) == Row(c, i) + [data[i]]
  {
    var elements: seq<Datum<T>> := [];
    var offsets: seq<nat> := [0];
    ghost var out: seq<seq<Datum<T>>> := [];
    var currOffset := 0;
    var resultOffset := 0;
    var i := 0;
    while i < NumRows(c)
      invariant 0 <= i <= NumRows(c) && |out| == i
      invariant forall k :: 0 <= k < i ==> out[k] == Row(c, k) + [data[k]]
      invariant ArrayColumn(elements, offsets) == FromRows(out)
      invariant currOffset == c.offsets[i] && resultOffset == |elements|
    {
      var nextOffset := c.offsets[i + 1];
      var arraySize := nextOffset - currOffset;
      var appended := c.elements[currOffset..currOffset + arraySize] + [data[i]];
      assert appended == Row(c, i) + [data[i]];
      ghost var prev, elements0, offsets0 := out, elements, offsets;
      elements := elements + appended;
      resultOffset := resultOffset + arraySize + 1;
      offsets := offsets + [resultOffset];
      out := out + [appended];
      PushRow(prev, elements0, offsets0, appended, elements, offsets);
      forall k | 0 <= k < i + 1
        ensures out[k] == Row(c, k) + [data[k]]
      {
        if k < i {
          assert out[k] == prev[k];
        }
      }
      currOffset := nextOffset;
      i := i + 1;
    }
    r := ArrayColumn(elements, offsets);
    FromRowsRows(out);
  }

  // ----- array_remove -----

  /** The row without the elements equal to `t`, in their order. */
  function RemoveRow<T(==)>(row: seq<Datum<T>>, t: Datum<T>): seq<Datum<T>>
  {
    if row == [] then []
    else RemoveRow(row[..|row| - 1], t) + if row[|row| - 1] == t then [] else [row[|row| - 1]]
  }

  /** Removal keeps exactly the elements other than the target. */
  lemma {:induction false} RemoveRowMembers<T>(row: seq<Datum<T>>, t: Datum<T>, x: Datum<T>)
    ensures x in RemoveRow(row, t) <==> x in row && x != t
  {
    if row != [] {
      RemoveRowMembers(row[..|row| - 1], t, x);
      assert row == row[..|row| - 1] + [row[|row| - 1]];
    }
  }

  /**
   * Removal drops every occurrence of the target and no other element: the row shrinks by the
   * number of matches, and every other element, a null included, keeps its count.
   */
  lemma {:induction false} RemoveRowCounts<T>(row: seq<Datum<T>>, t: Datum<T>, x: Datum<T>)
    ensures |RemoveRow(row, t)| == |row| - Count(row, t)
    ensures Count(RemoveRow(row, t), x) == if x == t then 0 else Count(row, x)
  {
    if row != [] {
      var front := row[..|row| - 1];
      RemoveRowCounts(front, t, x);
      var kept := if row[|row| - 1] == t then [] else [row[|row| - 1]];
      CountAppend(RemoveRow(front, t), kept, x);
    }
  }

  lemma {:induction false} CountAppend<T>(a: seq<Datum<T>>, b: seq<Datum<T>>, x: Datum<T>)
    ensures Count(a + b, x) == Count(a, x) + Count(b, x)
    decreases |b|
  {
    if b != [] {
      CountAppend(a, b[..|b| - 1], x);
      assert (a + b)[..|a + b| - 1] == a + b[..|b| - 1];
    } else {
      assert a + b == a;
    }
  }

  /** Removal keeps the order: removing from a concatenation concatenates the removals. */
  lemma {:induction false} RemoveRowAppend<T>(a: seq<Datum<T>>, b: seq<Datum<T>>, t: Datum<T>)
    ensures RemoveRow(a + b, t) == RemoveRow(a, t) + RemoveRow(b, t)
    decreases |b|
  {
    if b == [] {
      assert a + b == a;
    } else {
      var front, last := b[..|b| - 1], b[|b| - 1];
      var kept := if last == t then [] else [last];
      assert (a + b)[..|a + b| - 1] == a + front && (a + b)[|a + b| - 1] == last;
      assert RemoveRow(a + b, t) == RemoveRow(a + front, t) + kept;
      RemoveRowAppend(a, front, t);
      assert RemoveRow(b, t) == RemoveRow(front, t) + kept;
      assert (RemoveRow(a, t) + RemoveRow(front, t)) + kept == RemoveRow(a, t) + (RemoveRow(front, t) + kept);
    }
  }

  /**
   * Whether `ArrayRemoveImpl::_process` drops element `e` for target `t`, as written. The
   * flags say whether the element column and the target column hold any null at all.
   */
  predicate DropsAsWritten<T(==)>(e: Datum<T>, t: Datum<T>, nullableElement: bool, nullableTarget: bool) {
    if nullableElement && !nullableTarget then e.Value? && e == t
    else if !nullableElement && nullableTarget then t.Value? && e == t
    else if nullableElement && nullableTarget then
      // Both non-null falls into the same branch as both null: counted as found unseen.
      !(e.Null? && t.Value?) && !(e.Value? && t.Null?)
    else e == t
  }

  /** The same decision with the both-nullable branch comparing two non-null values. */
  predicate Drops<T(==)>(e: Datum<T>, t: Datum<T>, nullableElement: bool, nullableTarget: bool) {
    if nullableElement && !nullableTarget then e.Value? && e == t
    else if !nullableElement && nullableTarget then t.Value? && e == t
    else if nullableElement && nullableTarget then
      if e.Null? && t.Value? then false
      else if e.Value? && t.Null? then false
      else if e.Null? && t.Null? then true
      else e == t
    else e == t
  }

  /** A column without nulls has its flag cleared, so an element is dropped exactly when it equals the target. */
  lemma DropsMeansEqual<T>(e: Datum<T>, t: Datum<T>, nullableElement: bool, nullableTarget: bool)
    requires !nullableElement ==> e.Value?
    requires !nullableTarget ==> t.Value?
    ensures Drops(e, t, nullableElement, nullableTarget) <==> e == t
  {
  }

  /** The row as the both-nullable branch, as written, leaves it. */
  function RemoveRowAsWritten<T(==)>(row: seq<Datum<T>>, t: Datum<T>, nullableElement: bool, nullableTarget: bool):
    seq<Datum<T>>
  {
    if row == [] then []
    else
      var front := RemoveRowAsWritten(row[..|row| - 1], t, nullableElement, nullableTarget);
      if DropsAsWritten(row[|row| - 1], t, nullableElement, nullableTarget) then front else front + [row[|row| - 1]]
  }

  /**
   * Rows [[null], [null, 1, 2]] with targets [null, 1]: both columns hold a null, and the
   * second row, as written, loses the 2 that is not equal to its target.
   */
  lemma RemoveAsWrittenDropsUnequal()
    ensures var row: seq<Datum<int>> := [Null, Value(1), Value(2)];
      && RemoveRowAsWritten(row, Value(1), true, true) == [Null]
      && RemoveRow(row, Value(1)) == [Null, Value(2)]
  {
    var row: seq<Datum<int>> := [Null, Value(1), Value(2)];
    assert row[..2] == [Null, Value(1)] && row[..1] == [Null] && row[..1][..0] == [];
    assert row[..2][..1] == [Null];
    assert RemoveRowAsWritten(row[..1], Value(1), true, true) == [Null];
    assert RemoveRowAsWritten(row[..2], Value(1), true, true) == [Null];
    assert RemoveRow(row[..1], Value(1)) == [Null];
    assert RemoveRow(row[..2], Value(1)) == [Null];
  }

  /**
   * One row of `ArrayRemoveImpl::_process`: the kept elements and the number found. Written
   * with the corrected both-nullable branch.
   */
  method RemoveFromRow<T(==)>(row: seq<Datum<T>>, t: Datum<T>, nullableElement: bool, nullableTarget: bool)
    returns (kept: seq<Datum<T>>, totalFound: nat)
    requires !nullableElement ==> Null !in row
    requires !nullableTarget ==> t.Value?
    ensures kept == RemoveRow(row, t)
    ensures totalFound == |row| - |kept|
  {
    kept := [];
    totalFound := 0;
    if |row| == 0 {
      return;
    }
    var j := 0;
    while j < |row|
      invariant 0 <= j <= |row|
      invariant kept == RemoveRow(row[..j], t)
      invariant totalFound == j - |kept|
    {
      assert row[..j + 1][..j] == row[..j];
      assert !nullableElement ==> row[j].Value?;
      DropsMeansEqual(row[j], t, nullableElement, nullableTarget);
      if nullableElement && !nullableTarget && row[j].Null? {
        kept := kept + [Null];
      } else if !nullableElement && nullableTarget && t.Null? {
        kept := kept + [row[j]];
      } else if nullableElement && nullableTarget {
        var nullElement := row[j].Null?;
        var nullTarget := t.Null?;
        if nullElement && !nullTarget {
          kept := kept + [Null];
        } else if !nullElement && nullTarget {
          kept := kept + [row[j]];
        } else if nullElement && nullTarget {
          totalFound := totalFound + 1;
        } else if row[j] == t {
          totalFound := totalFound + 1;
        } else {
          kept := kept + [row[j]];
        }
      } else if row[j] == t {
        totalFound := totalFound + 1;
      } else {
        kept := kept + [row[j]];
      }
      j := j + 1;
    }
    assert row[..j] == row;
  }

  /**
   * `array_remove` on an array column: every row without the elements equal to its target.
   * A target column of nulls against elements without nulls returns the column as it is.
   */
  method ArrayRemove<T(==)>(c: ArrayColumn<T>, targets: seq<Datum<T>>) returns (r: ArrayColumn<T>)
    requires WellFormed(c) && |targets| == NumRows(c)
    ensures WellFormed(r) && NumRows(r) == NumRows(c)
    ensures forall i :: 0 <= i < NumRows(c) ==> Row(r, i) == RemoveRow(Row(c, i), targets[i])
  {
    var nullableElement := Null in c.elements;
    var nullableTarget := Null in targets;
    if (forall k | 0 <= k < |targets| :: targets[k].Null?) && !nullableElement {
      forall i | 0 <= i < NumRows(c)
        ensures Row(c, i) == RemoveRow(Row(c, i), targets[i])
      {
        NothingToRemove(Row(c, i), targets[i]);
      }
      return c;
    }
    r := RemoveRows(c, targets, nullableElement, nullableTarget);
  }

  /** The row loop of `ArrayRemoveImpl::_process`, given the two columns' null flags. */
  method RemoveRows<T(==)>(c: ArrayColumn<T>, targets: seq<Datum<T>>, nullableElement: bool, nullableTarget: bool)
    returns (r: ArrayColumn<T>)
    requires WellFormed(c) && |targets| == NumRows(c)
    requires !nullableElement ==> Null !in c.elements
    requires !nullableTarget ==> Null !in targets
    ensures WellFormed(r) && NumRows(r) == NumRows(c)
    ensures forall i :: 0 <= i < NumRows(c) ==> Row(r, i) == RemoveRow(Row(c, i), targets[i])
  {
    var elements: seq<Datum<T>> := [];
    var offsets: seq<nat> := [0];
    ghost var out: seq<seq<Datum<T>>> := [];
    var resultOffset := 0;
    var i := 0;
    while i < NumRows(c)
      invariant 0 <= i <= NumRows(c) && |out| == i
      invariant forall k :: 0 <= k < i ==> out[k] == RemoveRow(Row(c, k), targets[k])
      invariant ArrayColumn(elements, offsets) == FromRows(out)
      invariant resultOffset == |elements|
    {
      var offset := c.offsets[i];
      var arraySize := c.offsets[i + 1] - c.offsets[i];
      var row := c.elements[offset..offset + arraySize];
      assert row == Row(c, i);
      if !nullableElement {
        RowNullFree(c, i);
      }
      var kept, totalFound := RemoveFromRow(row, targets[i], nullableElement, nullableTarget);
      assert arraySize - totalFound == |kept|;
      ghost var prev, elements0, offsets0 := out, elements, offsets;
      elements := elements + kept;
      resultOffset := resultOffset + arraySize - totalFound;
      offsets := offsets + [resultOffset];
      out := out + [kept];
      PushRow(prev, elements0, offsets0, kept, elements, offsets);
      forall k | 0 <= k < i + 1
        ensures out[k] == RemoveRow(Row(c, k), targets[k])
      {
        if k < i {
          assert out[k] == prev[k];
        }
      }
      i := i + 1;
    }
    r := ArrayColumn(elements, offsets);
    FromRowsRows(out);
  }

  /** A null target finds nothing to remove in a row without nulls. */
  lemma {:induction false} NothingToRemove<T>(row: seq<Datum<T>>, t: Datum<T>)
    requires t !in row
    ensures RemoveRow(row, t) == row
  {
    if row != [] {
      NothingToRemove(row[..|row| - 1], t);
      assert row == row[..|row| - 1] + [row[|row| - 1]];
    }
  }

  // ----- array_contains / array_position -----

  /** The 1-based position of the first element equal to `t`, or 0 when there is none. */
  function Position<T(==)>(row: seq<Datum<T>>, t: Datum<T>): nat
  {
    if row == [] then 0
    else if row[0] == t then 1
    else
      var p := Position(row[1..], t);
      if p == 0 then 0 else p + 1
  }

  /** Position 0 means absent; otherwise it points at the first occurrence. */
  lemma {:induction false} PositionMeans<T>(row: seq<Datum<T>>, t: Datum<T>)
    ensures Position(row, t) == 0 <==> t !in row
    ensures Position(row, t) > 0 ==>
      Position(row, t) <= |row| && row[Position(row, t) - 1] == t && t !in row[..Position(row, t) - 1]
  {
    if row != [] && row[0] != t {
      PositionMeans(row[1..], t);
      assert row == [row[0]] + row[1..];
      var p := Position(row[1..], t);
      if p > 0 {
        assert row[..p] == [row[0]] + row[1..][..p - 1];
      }
    }
  }

  /** An occurrence with none before it is the position. */
  lemma FirstPosition<T>(row: seq<Datum<T>>, t: Datum<T>, j: nat)
    requires j < |row| && row[j] == t && t !in row[..j]
    ensures Position(row, t) == j + 1
  {
    PositionMeans(row, t);
    var p := Position(row, t);
    assert row[j] in row;
  }

  /**
   * One row of `ArrayContainsImpl::_process`: with `positionEnabled` the 1-based position of
   * the first match (`array_position`), otherwise 1 or 0 (`array_contains`). A null target
   * matches a null element.
   */
  method ContainsInRow<T(==)>(row: seq<Datum<T>>, t: Datum<T>, nullableElement: bool, nullableTarget: bool,
                              positionEnabled: bool) returns (result: int)
    requires !nullableElement ==> Null !in row
    requires !nullableTarget ==> t.Value?
    ensures positionEnabled ==> result == Position(row, t)
    ensures !positionEnabled ==> result == if t in row then 1 else 0
  {
    if !nullableElement && nullableTarget && t.Null? {
      PositionMeans(row, t);
      return 0;
    }
    var found := 0;
    var position := 0;
    var j := 0;
    while j < |row| && position == 0
      invariant 0 <= j <= |row|
      decreases |row| - j + if position == 0 then 1 else 0
      invariant position == 0 ==> found == 0 && t !in row[..j]
      invariant position != 0 ==> found == 1 && j < |row| && position == j + 1 && row[j] == t && t !in row[..j]
    {
      assert row[..j + 1] == row[..j] + [row[j]];
      var skip := false;
      if nullableElement && !nullableTarget && row[j].Null? {
        skip := true;
      } else if nullableElement && nullableTarget {
        var nullElement := row[j].Null?;
        var nullTarget := t.Null?;
        if nullElement != nullTarget {
          skip := true;
        } else if nullElement {
          position := j + 1;
          found := 1;
        }
      }
      if !skip && position == 0 {
        found := if row[j] == t then 1 else 0;
        if found == 1 {
          position := j + 1;
        }
      }
      if position == 0 {
        j := j + 1;
      }
    }
    if position == 0 {
      assert row[..j] == row;
      PositionMeans(row, t);
    } else {
      FirstPosition(row, t, j);
    }
    result := if positionEnabled then position else found;
  }

  /**
   * `array_contains` / `array_position` over an array column and a target per row. A target
   * column of nulls against elements without nulls gives all zeros.
   */
  method ArrayContains<T(==)>(c: ArrayColumn<T>, targets: seq<Datum<T>>, positionEnabled: bool)
    returns (result: seq<int>)
    requires WellFormed(c) && |targets| == NumRows(c)
    ensures |result| == NumRows(c)
    ensures forall i :: 0 <= i < NumRows(c) ==>
      result[i] == if positionEnabled then Position(Row(c, i), targets[i]) else if targets[i] in Row(c, i) then 1 else 0
  {
    var nullableElement := Null in c.elements;
    var nullableTarget := Null in targets;
    if (forall k | 0 <= k < |targets| :: targets[k].Null?) && !nullableElement {
      result := seq(NumRows(c), _ => 0);
      forall i | 0 <= i < NumRows(c)
        ensures targets[i] !in Row(c, i) && Position(Row(c, i), targets[i]) == 0
      {
        PositionMeans(Row(c, i), targets[i]);
      }
      return;
    }
    result := [];
    var i := 0;
    while i < NumRows(c)
      invariant 0 <= i <= NumRows(c) && |result| == i
      invariant forall k :: 0 <= k < i ==>
        result[k] == if positionEnabled then Position(Row(c, k), targets[k]) else if targets[k] in Row(c, k) then 1 else 0
    {
      var offset := c.offsets[i];
      var arraySize := c.offsets[i + 1] - c.offsets[i];
      var row := c.elements[offset..offset + arraySize];
      assert row == Row(c, i);
      if !nullableElement {
        RowNullFree(c, i);
      }
      var r := ContainsInRow(row, targets[i], nullableElement, nullableTarget, positionEnabled);
      result := result + [r];
      i := i + 1;
    }
  }

  // ----- array_contains_any / array_contains_all / array_contains_seq -----

  /** Some target occurs in the row. */
  ghost predicate HasAny<T>(row: seq<Datum<T>>, targets: seq<Datum<T>>) {
    exists k :: 0 <= k < |targets| && targets[k] in row
  }

  /** Every target occurs in the row. */
  ghost predicate HasAll<T>(row: seq<Datum<T>>, targets: seq<Datum<T>>) {
    forall k :: 0 <= k < |targets| ==> targets[k] in row
  }

  /** The targets occur in the row as one contiguous run. */
  ghost predicate HasSeq<T>(row: seq<Datum<T>>, targets: seq<Datum<T>>) {
    exists j :: 0 <= j <= |row| - |targets| && RunAt(row, targets, j)
  }

  /** The targets occur in the row starting at index `j`. */
  ghost predicate RunAt<T>(row: seq<Datum<T>>, targets: seq<Datum<T>>, j: int)
    requires 0 <= j <= |row| - |targets|
  {
    row[j..j + |targets|] == targets
  }

  /**
   * `ArrayHasImpl::__process` on one row: whether any (`array_contains_any`) or all
   * (`array_contains_all`) of the targets occur in it, null matching null.
   */
  method HasInRow<T(==)>(row: seq<Datum<T>>, targets: seq<Datum<T>>, any: bool,
                         nullableElement: bool, nullableTarget: bool) returns (found: bool)
    requires !nullableElement ==> Null !in row
    requires !nullableTarget ==> Null !in targets
    ensures found == if any then HasAny(row, targets) else HasAll(row, targets)
  {
    var i := 0;
    while i < |targets|
      invariant 0 <= i <= |targets|
      invariant any ==> forall k :: 0 <= k < i ==> targets[k] !in row
      invariant !any ==> forall k :: 0 <= k < i ==> targets[k] in row
    {
      var nullTarget := nullableTarget && targets[i].Null?;
      assert nullTarget == targets[i].Null?;
      if !nullableElement && nullTarget {
        if !any {
          return false;
        }
      } else {
        var hit := false;
        var j := 0;
        while j < |row| && !hit
          invariant 0 <= j <= |row|
          decreases |row| - j + if hit then 0 else 1
          invariant hit ==> targets[i] in row
          invariant !hit ==> targets[i] !in row[..j]
        {
          assert row[..j + 1] == row[..j] + [row[j]];
          var nullElement := nullableElement && row[j].Null?;
          assert nullElement == row[j].Null?;
          if nullElement && nullTarget {
            hit := true;
          } else if nullElement != nullTarget {
          } else {
            hit := row[j] == targets[i];
          }
          if !hit {
            j := j + 1;
          }
        }
        if !hit {
          assert row[..j] == row;
        }
        if hit && any {
          return true;
        }
        if !hit && !any {
          return false;
        }
      }
      i := i + 1;
    }
    return !any;
  }

  /**
   * `ArrayHasImpl::__process_seq` on one row: whether the targets occur in it as one
   * contiguous run, tried from every start in turn.
   */
  method HasSeqInRow<T(==)>(row: seq<Datum<T>>, targets: seq<Datum<T>>,
                            nullableElement: bool, nullableTarget: bool) returns (found: bool)
    requires !nullableElement ==> Null !in row
    requires !nullableTarget ==> Null !in targets
    ensures found == HasSeq(row, targets)
  {
    if |row| < |targets| {
      return false;
    }
    if |targets| == 0 {
      assert RunAt(row, targets, 0);
      return true;
    }
    // An empty row is settled by the length test above.
    var j := 0;
    while j < |row|
      invariant 0 <= j <= |row|
      invariant forall m :: 0 <= m < j && m <= |row| - |targets| ==> !RunAt(row, targets, m)
    {
      if |row| - j < |targets| {
        return false;
      }
      var i := 0;
      var matching := true;
      while i < |targets| && matching
        invariant 0 <= i <= |targets|
        decreases |targets| - i + if matching then 1 else 0
        invariant row[j..j + i] == targets[..i]
        invariant !matching ==> i < |targets| && row[j + i] != targets[i]
      {
        var nullTarget := nullableTarget && targets[i].Null?;
        var nullElement := nullableElement && row[j + i].Null?;
        assert nullTarget == targets[i].Null? && nullElement == row[j + i].Null?;
        var hit: bool;
        if nullTarget && nullElement {
          hit := true;
        } else if nullTarget || nullElement {
          hit := false;
        } else {
          hit := row[j + i] == targets[i];
        }
        if hit {
          assert row[j..j + i + 1] == row[j..j + i] + [row[j + i]];
          assert targets[..i + 1] == targets[..i] + [targets[i]];
          i := i + 1;
        } else {
          matching := false;
        }
      }
      if i == |targets| {
        assert targets[..i] == targets;
        assert RunAt(row, targets, j);
        return true;
      }
      assert row[j..j + |targets|][i] == row[j + i];
      assert !RunAt(row, targets, j);
      j := j + 1;
    }
    return false;
  }

  /** A contiguous run of the targets in a row means each target occurs in it. */
  lemma HasSeqHasAll<T>(row: seq<Datum<T>>, targets: seq<Datum<T>>)
    requires HasSeq(row, targets)
    ensures HasAll(row, targets)
  {
    var j :| 0 <= j <= |row| - |targets| && RunAt(row, targets, j);
    forall k | 0 <= k < |targets|
      ensures targets[k] in row
    {
      assert targets[k] == row[j + k];
    }
  }

  /** With at least one target, all of them occurring means some occurs. */
  lemma HasAllHasAny<T>(row: seq<Datum<T>>, targets: seq<Datum<T>>)
    requires HasAll(row, targets) && |targets| > 0
    ensures HasAny(row, targets)
  {
    assert targets[0] in row;
  }

  /**
   * `array_contains_any` / `array_contains_all` over an array column and a column of target
   * arrays; a constant target column supplies its single row to every row.
   */
  method ArrayHas<T(==)>(c: ArrayColumn<T>, tc: ArrayColumn<T>, any: bool, constTarget: bool)
    returns (result: seq<bool>)
    requires WellFormed(c) && WellFormed(tc)
    requires if constTarget then NumRows(tc) == 1 else NumRows(tc) == NumRows(c)
    ensures |result| == NumRows(c)
    ensures forall i :: 0 <= i < NumRows(c) ==>
      var ts := Row(tc, if constTarget then 0 else i);
      result[i] == if any then HasAny(Row(c, i), ts) else HasAll(Row(c, i), ts)
  {
    var nullableElement := Null in c.elements;
    var nullableTarget := Null in tc.elements;
    result := [];
    var i := 0;
    while i < NumRows(c)
      invariant 0 <= i <= NumRows(c) && |result| == i
      invariant forall k :: 0 <= k < i ==>
        var ts := Row(tc, if constTarget then 0 else k);
        result[k] == if any then HasAny(Row(c, k), ts) else HasAll(Row(c, k), ts)
    {
      var row := c.elements[c.offsets[i]..c.offsets[i + 1]];
      var t := if constTarget then 0 else i;
      var ts := tc.elements[tc.offsets[t]..tc.offsets[t + 1]];
      assert row == Row(c, i) && ts == Row(tc, t);
      if !nullableElement {
        RowNullFree(c, i);
      }
      if !nullableTarget {
        RowNullFree(tc, t);
      }
      var found := HasInRow(row, ts, any, nullableElement, nullableTarget);
      result := result + [found];
      i := i + 1;
    }
  }

  /** `array_contains_seq` over an array column and a column of target arrays, row by row. */
  method ArrayHasSeq<T(==)>(c: ArrayColumn<T>, tc: ArrayColumn<T>) returns (result: seq<bool>)
    requires WellFormed(c) && WellFormed(tc) && NumRows(tc) == NumRows(c)
    ensures |result| == NumRows(c)
    ensures forall i :: 0 <= i < NumRows(c) ==> result[i] == HasSeq(Row(c, i), Row(tc, i))
  {
    var nullableElement := Null in c.elements;
    var nullableTarget := Null in tc.elements;
    result := [];
    var i := 0;
    while i < NumRows(c)
      invariant 0 <= i <= NumRows(c) && |result| == i
      invariant forall k :: 0 <= k < i ==> result[k] == HasSeq(Row(c, k), Row(tc, k))
    {
      var row := c.elements[c.offsets[i]..c.offsets[i + 1]];
      var ts := tc.elements[tc.offsets[i]..tc.offsets[i + 1]];
      assert row == Row(c, i) && ts == Row(tc, i);
      if !nullableElement {
        RowNullFree(c, i);
      }
      if !nullableTarget {
        RowNullFree(tc, i);
      }
      var found := HasSeqInRow(row, ts, nullableElement, nullableTarget);
      result := result + [found];
      i := i + 1;
    }
  }

  // ----- array_slice -----

  /**
   * Where `_array_slice_item` starts copying: a positive offset counts from 1, a negative one
   * from the end; a start before the first element is clamped to it.
   */
  function SliceStart(size: nat, offset: int): int {
    var o := if offset > 0 then offset - 1 else offset + size;
    if o > 0 then o else 0
  }

  /**
   * Where it stops: `length` elements after the unclamped start, kept within the row, or the
   * row's end when no length is given.
   */
  function SliceEnd(size: nat, offset: int, length: int, withLength: bool): int {
    var o := if offset > 0 then offset - 1 else offset + size;
    if withLength then Max(0, Min(size, o + length)) else size
  }

  function Min(a: int, b: int): int { if a < b then a else b }
  function Max(a: int, b: int): int { if a < b then b else a }

  /** The slice of one row; offset 0 selects nothing. */
  function Slice<T>(items: seq<Datum<T>>, offset: int, length: int, withLength: bool): (out: seq<Datum<T>>)
    ensures |out| <= |items|
  {
    var start := SliceStart(|items|, offset);
    var end := SliceEnd(|items|, offset, length, withLength);
    if offset == 0 || end <= start then [] else items[start..end]
  }

  /**
   * `_array_slice_item`: copies the selected elements of one row one by one and returns the
   * number it copied, never negative even when the length is.
   */
  method SliceItem<T>(items: seq<Datum<T>>, offset: int, length: int, withLength: bool)
    returns (out: seq<Datum<T>>, offsetDelta: nat)
    ensures out == Slice(items, offset, length, withLength)
    ensures offsetDelta == |out|
  {
    if offset == 0 {
      return [], 0;
    }
    var o := offset;
    if o > 0 {
      o := o - 1;
    } else {
      o := o + |items|;
    }
    var end: int;
    if withLength {
      end := Max(0, Min(|items|, o + length));
    } else {
      end := |items|;
    }
    o := if o > 0 then o else 0;
    out := [];
    var i := o;
    assert o == SliceStart(|items|, offset) && end == SliceEnd(|items|, offset, length, withLength);
    while i < end
      invariant end <= |items|
      invariant o <= i && (i == o || i <= end)
      invariant |out| == i - o && forall k :: 0 <= k < |out| ==> out[k] == items[o + k]
    {
      out := out + [items[i]];
      i := i + 1;
    }
    if o < end {
      assert out == items[o..end];
    }
    offsetDelta := if end < o then 0 else end - o;
  }

  /** Offset 1 with no length is the whole row, and so is the negative offset of its size. */
  lemma SliceWhole<T>(items: seq<Datum<T>>)
    ensures Slice(items, 1, 0, false) == items
    ensures |items| > 0 ==> Slice(items, -|items|, 0, false) == items
  {
  }

  /** A positive offset `k` within the row with a length `n >= 0` takes up to `n` elements from position `k`. */
  lemma SlicePositive<T>(items: seq<Datum<T>>, k: int, n: int)
    requires 1 <= k <= |items| && n >= 0
    ensures Slice(items, k, n, true) == items[k - 1..Min(|items|, k - 1 + n)]
  {
    assert SliceStart(|items|, k) == k - 1;
    assert SliceEnd(|items|, k, n, true) == Min(|items|, k - 1 + n);
  }

  /** A negative offset `-k` within the row with no length takes its last `k` elements. */
  lemma SliceNegative<T>(items: seq<Datum<T>>, k: int)
    requires 1 <= k <= |items|
    ensures Slice(items, -k, 0, false) == items[|items| - k..]
  {
  }

  /**
   * A negative offset reaching before the row still counts the length from that virtual
   * start: three elements, offset -5 and length 3 select only the first.
   */
  lemma SliceBeforeStart()
    ensures Slice([Value(1), Value(2), Value(3)], -5, 3, true) == [Value(1)]
  {
  }

  /**
   * `array_slice` over a column: every row sliced by its own offset and, when given, its own
   * length.
   */
  method ArraySlice<T>(c: ArrayColumn<T>, offsets: seq<int>, lengths: seq<int>, withLength: bool)
    returns (r: ArrayColumn<T>)
    requires WellFormed(c) && |offsets| == NumRows(c) && |lengths| == NumRows(c)
    ensures WellFormed(r) && NumRows(r) == NumRows(c)
    ensures forall i :: 0 <= i < NumRows(c) ==> Row(r, i) == Slice(Row(c, i), offsets[i], lengths[i], withLength)
  {
    var elements: seq<Datum<T>> := [];
    var destOffsets: seq<nat> := [0];
    ghost var out: seq<seq<Datum<T>>> := [];
    var i := 0;
    while i < NumRows(c)
      invariant 0 <= i <= NumRows(c) && |out| == i
      invariant forall k :: 0 <= k < i ==> out[k] == Slice(Row(c, k), offsets[k], lengths[k], withLength)
      invariant ArrayColumn(elements, destOffsets) == FromRows(out)
    {
      var items := c.elements[c.offsets[i]..c.offsets[i + 1]];
      assert items == Row(c, i);
      var sliced, delta := SliceItem(items, offsets[i], lengths[i], withLength);
      ghost var prev, elements0, offsets0 := out, elements, destOffsets;
      elements := elements + sliced;
      destOffsets := destOffsets + [destOffsets[|destOffsets| - 1] + delta];
      out := out + [sliced];
      PushRow(prev, elements0, offsets0, sliced, elements, destOffsets);
      forall k | 0 <= k < i + 1
        ensures out[k] == Slice(Row(c, k), offsets[k], lengths[k], withLength)
      {
        if k < i {
          assert out[k] == prev[k];
        }
      }
      i := i + 1;
    }
    r := ArrayColumn(elements, destOffsets);
    FromRowsRows(out);
  }

  // ----- array_distinct -----

  /** The row with every element after its first occurrence dropped. */
  function DistinctRow<T(==)>(row: seq<Datum<T>>): seq<Datum<T>>
  {
    if row == [] then []
    else
      var front := row[..|row| - 1];
      if row[|row| - 1] in front then DistinctRow(front) else DistinctRow(front) + [row[|row| - 1]]
  }

  /** Distinct keeps exactly the elements of the row, each once. */
  lemma {:induction false} DistinctRowMeans<T>(row: seq<Datum<T>>)
    ensures forall x :: x in DistinctRow(row) <==> x in row
    ensures Distinct(DistinctRow(row))
  {
    if row != [] {
      var front := row[..|row| - 1];
      DistinctRowMeans(front);
      assert row == front + [row[|row| - 1]];
    }
  }

  /** Distinct is idempotent. */
  lemma {:induction false} DistinctRowTwice<T>(row: seq<Datum<T>>)
    ensures DistinctRow(DistinctRow(row)) == DistinctRow(row)
  {
    DistinctRowMeans(row);
    DistinctOfDistinct(DistinctRow(row));
  }

  /** A row without repeats is its own distinct row. */
  lemma {:induction false} DistinctOfDistinct<T>(row: seq<Datum<T>>)
    requires Distinct(row)
    ensures DistinctRow(row) == row
  {
    if row != [] {
      var front := row[..|row| - 1];
      DistinctOfDistinct(front);
      assert row[|row| - 1] !in front by {
        forall k | 0 <= k < |front|
          ensures front[k] != row[|row| - 1]
        {
          assert front[k] == row[k];
        }
      }
      assert row == front + [row[|row| - 1]];
    }
  }

  /**
   * One row of `array_distinct_any_type`: a row of at most one element is copied; otherwise the
   * first element is kept and each later one is kept unless an earlier element with the same
   * hash is equal to it. `hash` stands for the element column's FNV hash.
   */
  method DistinctInRow<T(==)>(row: seq<Datum<T>>, hash: Datum<T> -> int) returns (out: seq<Datum<T>>)
    ensures out == DistinctRow(row)
  {
    if |row| <= 1 {
      out := [];
      var j := 0;
      while j < |row|
        invariant 0 <= j <= |row| && out == row[..j]
      {
        out := out + [row[j]];
        j := j + 1;
      }
      assert row[..0] == [] && row[..|row|] == row;
      if |row| == 1 {
        assert DistinctRow(row) == DistinctRow(row[..0]) + [row[0]];
      }
      return;
    }
    out := [row[0]];
    assert row[..1][..0] == [];
    var sets := {hash(row[0])};
    var j := 1;
    while j < |row|
      invariant 1 <= j <= |row|
      invariant out == DistinctRow(row[..j])
      invariant forall k :: 0 <= k < j ==> hash(row[k]) in sets
    {
      assert row[..j + 1][..j] == row[..j];
      if hash(row[j]) !in sets {
        assert row[j] !in row[..j];
        out := out + [row[j]];
        sets := sets + {hash(row[j])};
      } else {
        var isContains := false;
        var k := 0;
        while k < j && !isContains
          invariant 0 <= k <= j
          invariant isContains ==> row[j] in row[..j]
          invariant !isContains ==> row[j] !in row[..k]
          decreases j - k + if isContains then 0 else 1
        {
          assert row[..k + 1] == row[..k] + [row[k]];
          if hash(row[k]) == hash(row[j]) && row[k] == row[j] {
            assert row[..j][k] == row[j];
            isContains := true;
          } else {
            k := k + 1;
          }
        }
        if !isContains {
          assert row[..k] == row[..j];
          out := out + [row[j]];
        }
      }
      j := j + 1;
    }
    assert row[..j] == row;
  }

  /** `array_distinct` over a column: a null row is left empty, every other row deduplicated. */
  method ArrayDistinct<T(==)>(c: ArrayColumn<T>, rowNulls: seq<bool>, hash: Datum<T> -> int)
    returns (r: ArrayColumn<T>)
    requires WellFormed(c) && |rowNulls| == NumRows(c)
    ensures WellFormed(r) && NumRows(r) == NumRows(c)
    ensures forall i :: 0 <= i < NumRows(c) ==> Row(r, i) == if rowNulls[i] then [] else DistinctRow(Row(c, i))
  {
    var elements: seq<Datum<T>> := [];
    var offsets: seq<nat> := [0];
    ghost var want := seq(NumRows(c), k requires 0 <= k < NumRows(c) => if rowNulls[k] then [] else DistinctRow(Row(c, k)));
    ghost var out: seq<seq<Datum<T>>> := [];
    var i := 0;
    while i < NumRows(c)
      invariant 0 <= i <= NumRows(c) && out == want[..i]
      invariant ArrayColumn(elements, offsets) == FromRows(out)
    {
      var kept: seq<Datum<T>> := [];
      if !rowNulls[i] {
        kept := DistinctInRow(Row(c, i), hash);
      }
      assert kept == want[i];
      elements, offsets := AppendRow(elements, offsets, out, kept);
      out := out + [kept];
      PrefixSnoc(want, i);
      i := i + 1;
    }
    r := ArrayColumn(elements, offsets);
    assert out == want;
    FromRowsRows(out);
  }

  // ----- array_reverse -----

  function Reverse<T>(s: seq<T>): seq<T>
  {
    if s == [] then [] else Reverse(s[1..]) + [s[0]]
  }

  /** The reversed row has the same length and holds element `|s| - 1 - k` at index `k`. */
  lemma {:induction false} ReverseIndex<T>(s: seq<T>)
    ensures |Reverse(s)| == |s|
    ensures forall k :: 0 <= k < |s| ==> Reverse(s)[k] == s[|s| - 1 - k]
  {
    if s != [] {
      ReverseIndex(s[1..]);
    }
  }

  /** Reversing twice gives the row back. */
  lemma ReverseTwice<T>(s: seq<T>)
    ensures Reverse(Reverse(s)) == s
  {
    ReverseIndex(s);
    ReverseIndex(Reverse(s));
  }

  /** One row of `array_reverse_any_types`: the elements appended from the last to the first. */
  method ReverseRow<T>(row: seq<Datum<T>>) returns (out: seq<Datum<T>>)
    ensures out == Reverse(row)
  {
    out := [];
    var j := |row|;
    while j > 0
      invariant 0 <= j <= |row|
      invariant out == Reverse(row[j..])
    {
      j := j - 1;
      assert row[j..][1..] == row[j + 1..];
      out := out + [row[j]];
    }
    assert row[0..] == row;
  }

  /** `array_reverse` over a column: a null row is left empty, every other row reversed. */
  method ArrayReverse<T>(c: ArrayColumn<T>, rowNulls: seq<bool>) returns (r: ArrayColumn<T>)
    requires WellFormed(c) && |rowNulls| == NumRows(c)
    ensures WellFormed(r) && NumRows(r) == NumRows(c)
    ensures forall i :: 0 <= i < NumRows(c) ==> Row(r, i) == if rowNulls[i] then [] else Reverse(Row(c, i))
  {
    var elements: seq<Datum<T>> := [];
    var offsets: seq<nat> := [0];
    ghost var want := seq(NumRows(c), k requires 0 <= k < NumRows(c) => if rowNulls[k] then [] else Reverse(Row(c, k)));
    ghost var out: seq<seq<Datum<T>>> := [];
    var i := 0;
    while i < NumRows(c)
      invariant 0 <= i <= NumRows(c) && out == want[..i]
      invariant ArrayColumn(elements, offsets) == FromRows(out)
    {
      var reversed: seq<Datum<T>> := [];
      if !rowNulls[i] {
        reversed := ReverseRow(Row(c, i));
      }
      assert reversed == want[i];
      elements, offsets := AppendRow(elements, offsets, out, reversed);
      out := out + [reversed];
      PrefixSnoc(want, i);
      i := i + 1;
    }
    r := ArrayColumn(elements, offsets);
    assert out == want;
    FromRowsRows(out);
  }

  // ----- repeat -----

  /** `n` copies of `v`. */
  function Copies<T>(v: T, n: nat): (s: seq<T>)
    ensures |s| == n && forall x :: x in s ==> x == v
  {
    if n == 0 then [] else Copies(v, n - 1) + [v]
  }

  /** The number of copies a repeat count asks for: none for a null or non-positive count. */
  function RepeatCount(count: Option<int>): nat {
    if count.Some? && count.value > 0 then count.value else 0
  }

  /** The inner loop of `repeat`: `n` more copies of `v` at the end of `elements`. */
  method AppendCopies<T>(elements: seq<Datum<T>>, v: Datum<T>, n: nat) returns (r: seq<Datum<T>>)
    ensures r == elements + Copies(v, n)
  {
    r := elements;
    var repeatIndex := 0;
    while repeatIndex < n
      invariant 0 <= repeatIndex <= n
      invariant r == elements + Copies(v, repeatIndex)
    {
      r := r + [v];
      repeatIndex := repeatIndex + 1;
    }
  }

  /**
   * The body of `repeat`'s row loop: a null count appends nothing, a positive one that many
   * copies of the source value, and the running total follows the elements.
   */
  method RepeatRow<T>(elements: seq<Datum<T>>, total: nat, source: Datum<T>, count: Option<int>)
    returns (elements2: seq<Datum<T>>, total2: nat)
    requires total == |elements|
    ensures elements2 == elements + Copies(source, RepeatCount(count)) && total2 == |elements2|
  {
    elements2, total2 := elements, total;
    if count.Some? {
      var repeatCount := count.value;
      if repeatCount > 0 {
        elements2 := AppendCopies(elements, source, repeatCount);
        total2 := total + repeatCount;
      }
    }
    if RepeatCount(count) == 0 {
      assert elements2 == elements + [];
    }
  }

  /** One more repeated row keeps every row so far the copies its count asks for. */
  lemma RepeatedRowsSnoc<T>(rows: seq<seq<Datum<T>>>, sources: seq<Datum<T>>, counts: seq<Option<int>>,
                            i: nat, row: seq<Datum<T>>)
    requires |rows| == i < |sources| == |counts|
    requires forall k :: 0 <= k < i ==> rows[k] == Copies(sources[k], RepeatCount(counts[k]))
    requires row == Copies(sources[i], RepeatCount(counts[i]))
    ensures forall k :: 0 <= k < i + 1 ==> (rows + [row])[k] == Copies(sources[k], RepeatCount(counts[k]))
  {
    forall k | 0 <= k < i + 1
      ensures (rows + [row])[k] == Copies(sources[k], RepeatCount(counts[k]))
    {
      if k < i {
        assert (rows + [row])[k] == rows[k];
      }
    }
  }

  /** The column built from the repeated rows holds, row by row, the copies each count asks for. */
  lemma RepeatedColumn<T>(rows: seq<seq<Datum<T>>>, sources: seq<Datum<T>>, counts: seq<Option<int>>)
    requires |rows| == |sources| == |counts|
    requires forall k :: 0 <= k < |rows| ==> rows[k] == Copies(sources[k], RepeatCount(counts[k]))
    ensures WellFormed(FromRows(rows)) && NumRows(FromRows(rows)) == |sources|
    ensures forall i :: 0 <= i < |sources| ==> Row(FromRows(rows), i) == Copies(sources[i], RepeatCount(counts[i]))
  {
    FromRowsRows(rows);
    forall i | 0 <= i < |sources|
      ensures Row(FromRows(rows), i) == Copies(sources[i], RepeatCount(counts[i]))
    {
      assert Row(FromRows(rows), i) == rows[i];
    }
  }

  /**
   * `repeat`: row `i` holds `counts[i]` copies of `sources[i]`; a non-positive count gives an
   * empty row, and a null count a NULL row (flagged in `nulls`) with nothing beneath it.
   */
  method ArrayRepeat<T>(sources: seq<Datum<T>>, counts: seq<Option<int>>)
    returns (r: ArrayColumn<T>, nulls: seq<bool>)
    requires |counts| == |sources|
    ensures WellFormed(r) && NumRows(r) == |sources|
    ensures |nulls| == |sources| && forall i :: 0 <= i < |sources| ==> (nulls[i] <==> counts[i].None?)
    ensures forall i :: 0 <= i < |sources| ==>
      |Row(r, i)| == RepeatCount(counts[i])
    ensures forall i, x :: 0 <= i < |sources| && x in Row(r, i) ==> x == sources[i]
  {
    var elements: seq<Datum<T>> := [];
    var destOffsets: seq<nat> := [0];
    ghost var out: seq<seq<Datum<T>>> := [];
    var totalRepeatedRows := 0;
    var curRow := 0;
    while curRow < |sources|
      invariant 0 <= curRow <= |sources| && |out| == curRow
      invariant forall k :: 0 <= k < curRow ==>
        out[k] == Copies(sources[k], RepeatCount(counts[k]))
      invariant ArrayColumn(elements, destOffsets) == FromRows(out)
      invariant totalRepeatedRows == |elements|
    {
      ghost var elementsBefore, offsetsBefore := elements, destOffsets;
      elements, totalRepeatedRows := RepeatRow(elements, totalRepeatedRows, sources[curRow], counts[curRow]);
      destOffsets := destOffsets + [totalRepeatedRows];
      ghost var row := Copies(sources[curRow], RepeatCount(counts[curRow]));
      ghost var prev, elements0, offsets0 := out, elementsBefore, offsetsBefore;
      out := out + [row];
      PushRow(prev, elements0, offsets0, row, elements, destOffsets);
      RepeatedRowsSnoc(prev, sources, counts, curRow, row);
      curRow := curRow + 1;
    }
    r := ArrayColumn(elements, destOffsets);
    RepeatedColumn(out, sources, counts);
    nulls := seq(|counts|, k requires 0 <= k < |counts| => counts[k].None?);
  }

  // ----- array_concat -----

  /** Every column is well formed with `n` rows. */
  predicate Aligned<T>(cs: seq<ArrayColumn<T>>, n: nat) {
    forall k :: 0 <= k < |cs| ==> WellFormed(cs[k]) && NumRows(cs[k]) == n
  }

  /** Row `i` of each column, concatenated in column order. */
  function Joined<T>(cs: seq<ArrayColumn<T>>, n: nat, i: nat): seq<Datum<T>>
    requires Aligned(cs, n) && i < n
  {
    if cs == [] then [] else Joined(cs[..|cs| - 1], n, i) + Row(cs[|cs| - 1], i)
  }

  /** The joined row is as long as the rows together, and holds exactly their elements. */
  lemma {:induction false} JoinedMeans<T>(cs: seq<ArrayColumn<T>>, n: nat, i: nat, x: Datum<T>)
    requires Aligned(cs, n) && i < n
    ensures x in Joined(cs, n, i) <==> exists k :: 0 <= k < |cs| && x in Row(cs[k], i)
  {
    if cs != [] {
      var front := cs[..|cs| - 1];
      JoinedMeans(front, n, i, x);
      if x in Row(cs[|cs| - 1], i) {
        assert 0 <= |cs| - 1 < |cs|;
      }
      if exists k :: 0 <= k < |cs| && x in Row(cs[k], i) {
        var k :| 0 <= k < |cs| && x in Row(cs[k], i);
        if k < |cs| - 1 {
          assert cs[k] == front[k];
        }
      }
    }
  }

  /**
   * `concat` over array columns: a row is null when it is null in any column and then holds
   * nothing; otherwise it joins that row of every column in order.
   */
  method ArrayConcat<T>(columns: seq<ArrayColumn<T>>, rowNulls: seq<seq<bool>>, numRows: nat)
    returns (r: ArrayColumn<T>, nulls: seq<bool>)
    requires |columns| >= 1 && Aligned(columns, numRows)
    requires |rowNulls| == |columns| && forall k :: 0 <= k < |rowNulls| ==> |rowNulls[k]| == numRows
    ensures |nulls| == numRows
    ensures forall i :: 0 <= i < numRows ==> (nulls[i] <==> exists k :: 0 <= k < |columns| && rowNulls[k][i])
    ensures WellFormed(r) && NumRows(r) == numRows
    ensures forall i :: 0 <= i < numRows ==> Row(r, i) == if nulls[i] then [] else Joined(columns, numRows, i)
  {
    nulls := MergeNulls(rowNulls, numRows);
    var elements: seq<Datum<T>> := [];
    var offsets: seq<nat> := [0];
    ghost var want := seq(numRows, k requires 0 <= k < numRows => if nulls[k] then [] else Joined(columns, numRows, k));
    ghost var out: seq<seq<Datum<T>>> := [];
    var row := 0;
    while row < numRows
      invariant 0 <= row <= numRows && out == want[..row]
      invariant ArrayColumn(elements, offsets) == FromRows(out)
    {
      var joined: seq<Datum<T>> := [];
      if !nulls[row] {
        joined := JoinRow(columns, numRows, row);
      }
      assert joined == want[row];
      elements, offsets := AppendRow(elements, offsets, out, joined);
      out := out + [joined];
      PrefixSnoc(want, row);
      row := row + 1;
    }
    r := ArrayColumn(elements, offsets);
    assert out == want;
    FromRowsRows(out);
  }

  /** The row-wise OR of the columns' null flags. */
  method MergeNulls(rowNulls: seq<seq<bool>>, numRows: nat) returns (nulls: seq<bool>)
    requires forall k :: 0 <= k < |rowNulls| ==> |rowNulls[k]| == numRows
    ensures |nulls| == numRows
    ensures forall i :: 0 <= i < numRows ==> (nulls[i] <==> exists k :: 0 <= k < |rowNulls| && rowNulls[k][i])
  {
    nulls := seq(numRows, _ => false);
    var c := 0;
    while c < |rowNulls|
      invariant 0 <= c <= |rowNulls| && |nulls| == numRows
      invariant forall i :: 0 <= i < numRows ==> (nulls[i] <==> exists k :: 0 <= k < c && rowNulls[k][i])
    {
      nulls := seq(numRows, i requires 0 <= i < numRows => nulls[i] || rowNulls[c][i]);
      c := c + 1;
    }
  }

  /** The elements of row `row` of every column, appended column after column. */
  method JoinRow<T>(columns: seq<ArrayColumn<T>>, numRows: nat, row: nat) returns (joined: seq<Datum<T>>)
    requires Aligned(columns, numRows) && row < numRows
    ensures joined == Joined(columns, numRows, row)
  {
    joined := [];
    var k := 0;
    while k < |columns|
      invariant 0 <= k <= |columns|
      invariant joined == Joined(columns[..k], numRows, row)
    {
      assert columns[..k + 1][..k] == columns[..k];
      var column := columns[k];
      joined := joined + column.elements[column.offsets[row]..column.offsets[row + 1]];
      k := k + 1;
    }
    assert columns[..k] == columns;
  }
}
