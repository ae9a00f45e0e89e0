/** Rows and the pure queries over the row collection (script.js:19-37):
    counting the ON rows, the ceiling `maxOn`, the candidate filter used by
    the demotion loop, and the `find` by id used by the mutators. */
module RowModel {
  import opened Wrappers

  /** Bounds on the number of rows. */
  const MIN_ROWS: nat := 3
  const MAX_ROWS: nat := 7

  /** A row. The source's id is the string "row-N" minted from a counter;
      the model keeps the number N, which determines the string. */
  datatype Row = Row(id: nat, text: string, isOn: bool)

  function Bit(b: bool): nat {
    if b then 1 else 0
  }

  /** The number of ON rows (the `reduce` of `activeCount`). */
  function ActiveCount(rows: seq<Row>): (n: nat)
    ensures n <= |rows|
  {
    if rows == [] then 0
    else ActiveCount(rows[..|rows| - 1]) + Bit(rows[|rows| - 1].isOn)
  }

  /** The largest number of rows that may be ON: all but one. */
  function MaxOn(rows: seq<Row>): (m: int)
    ensures -1 <= m < |rows|
  {
    |rows| - 1
  }

  function Min(a: int, b: int): int {
    if a <= b then a else b
  }

  /** No two rows share an id. */
  ghost predicate DistinctIds(rows: seq<Row>) {
    forall i, j :: 0 <= i < j < |rows| ==> rows[i].id != rows[j].id
  }

  /** `after` is `before` with at most its toggle switched from ON to OFF. */
  predicate KeptOrDemoted(before: Row, after: Row) {
    after.id == before.id && after.text == before.text && (after.isOn ==> before.isOn)
  }

  /** `after` is `before` with some ON rows switched OFF and nothing else changed. */
  ghost predicate DemotedFrom(before: seq<Row>, after: seq<Row>) {
    |after| == |before| && forall i :: 0 <= i < |after| ==> KeptOrDemoted(before[i], after[i])
  }

  /** Every row of `before` with that id that was ON is still ON in `after`. */
  ghost predicate KeepsOn(before: seq<Row>, after: seq<Row>, id: nat) {
    forall i :: 0 <= i < |before| && i < |after| && before[i].id == id && before[i].isOn ==> after[i].isOn
  }

  /** A row the demotion loop may pick: it is ON and, when an id to keep
      is given, it is not the row with that id. */
  predicate Eligible(row: Row, except: Option<nat>) {
    row.isOn && (except.None? || row.id != except.value)
  }

  /** The positions of the eligible rows, in order: `rows.filter(row => row.isOn)`
      when `except` is None, and the further filter `row.id !== except` otherwise. */
  function OnRows(rows: seq<Row>, except: Option<nat>): (r: seq<nat>)
    ensures forall k :: 0 <= k < |r| ==> r[k] < |rows| && Eligible(rows[r[k]], except)
    ensures forall i :: 0 <= i < |rows| && Eligible(rows[i], except) ==> i in r
    ensures forall a, b :: 0 <= a < b < |r| ==> r[a] < r[b]
  {
    if rows == [] then []
    else
      var init := OnRows(rows[..|rows| - 1], except);
      if Eligible(rows[|rows| - 1], except) then init + [|rows| - 1] else init
  }

  /** `rows.find(item => item.id === id)`: the position of the first row with that id. */
  function FindRow(rows: seq<Row>, id: nat): (r: Option<nat>)
    ensures r.Some? ==> r.value < |rows| && rows[r.value].id == id
    ensures r.Some? ==> forall j :: 0 <= j < r.value ==> rows[j].id != id
    ensures r.None? ==> forall j :: 0 <= j < |rows| ==> rows[j].id != id
  {
    if rows == [] then None
    else match FindRow(rows[..|rows| - 1], id)
      case Some(i) => Some(i)
      case None => if rows[|rows| - 1].id == id then Some(|rows| - 1) else None
  }

  /** Changing one row changes the count by that row's contribution only. */
  lemma {:induction false} ActiveCountUpdate(rows: seq<Row>, i: nat, r: Row)
    requires i < |rows|
    ensures ActiveCount(rows[i := r]) == ActiveCount(rows) - Bit(rows[i].isOn) + Bit(r.isOn)
  {
    var n := |rows|;
    if i == n - 1 {
      assert rows[i := r][..n - 1] == rows[..n - 1];
    } else {
      assert rows[i := r][..n - 1] == rows[..n - 1][i := r];
      ActiveCountUpdate(rows[..n - 1], i, r);
    }
  }

  /** The count depends only on the rows' ON/OFF states, position by position. */
  lemma {:induction false} SameStatesSameCount(a: seq<Row>, b: seq<Row>)
    requires |a| == |b| && forall i :: 0 <= i < |a| ==> a[i].isOn == b[i].isOn
    ensures ActiveCount(a) == ActiveCount(b)
  {
    if a != [] {
      SameStatesSameCount(a[..|a| - 1], b[..|b| - 1]);
    }
  }

  /** The count of `activeCount` is the size of the filter the demotion loop draws from. */
  lemma {:induction false} OnRowsCount(rows: seq<Row>)
    ensures |OnRows(rows, None)| == ActiveCount(rows)
  {
    if rows != [] {
      OnRowsCount(rows[..|rows| - 1]);
    }
  }

  /** Every row is ON exactly when the count reaches the length. */
  lemma {:induction false} AllOnIff(rows: seq<Row>)
    ensures ActiveCount(rows) == |rows| <==> forall i :: 0 <= i < |rows| ==> rows[i].isOn
  {
    if rows != [] {
      var init := rows[..|rows| - 1];
      AllOnIff(init);
      assert forall i :: 0 <= i < |init| ==> init[i] == rows[i];
    }
  }

  /** The ceiling `maxOn` says exactly "at least one row is OFF". */
  lemma MaxOnMeansOneOff(rows: seq<Row>)
    ensures ActiveCount(rows) <= MaxOn(rows) <==> exists i :: 0 <= i < |rows| && !rows[i].isOn
  {
    AllOnIff(rows);
  }

  /** One demotion: switching one ON row OFF lowers the count by one,
      keeps the ids, and keeps ON every row with another id. */
  lemma DemoteStep(before: seq<Row>, rows: seq<Row>, pick: nat)
    requires DemotedFrom(before, rows)
    requires pick < |rows| && rows[pick].isOn
    ensures DemotedFrom(before, rows[pick := rows[pick].(isOn := false)])
    ensures ActiveCount(rows[pick := rows[pick].(isOn := false)]) == ActiveCount(rows) - 1
    ensures DistinctIds(rows) ==> DistinctIds(rows[pick := rows[pick].(isOn := false)])
    ensures forall id :: KeepsOn(before, rows, id) && rows[pick].id != id ==>
      KeepsOn(before, rows[pick := rows[pick].(isOn := false)], id)
  {
    ActiveCountUpdate(rows, pick, rows[pick].(isOn := false));
  }

  /** Demotion keeps the ids, so it keeps them distinct. */
  lemma DemotedKeepsDistinct(before: seq<Row>, after: seq<Row>)
    requires DemotedFrom(before, after) && DistinctIds(before)
    ensures DistinctIds(after)
  {
  }

  /** With distinct ids and at least two ON rows, some ON row other than
      the one to keep exists, so the protected filter is never empty. */
  lemma OtherOnRow(rows: seq<Row>, keep: nat)
    requires DistinctIds(rows)
    requires ActiveCount(rows) >= 2
    ensures |OnRows(rows, Some(keep))| > 0
  {
    OnRowsCount(rows);
    var on := OnRows(rows, None);
    var i, j := on[0], on[1];
    assert rows[i].id != rows[j].id;
    if rows[i].id != keep {
      assert i in OnRows(rows, Some(keep));
    } else {
      assert j in OnRows(rows, Some(keep));
    }
  }
}
