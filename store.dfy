/** The live row collection and its mutators (script.js:19-29, 114-211).
    The module-level `rows` array and `idCounter` become the two fields of
    a `Store`; every mutator keeps `Valid()`: between MIN_ROWS and MAX_ROWS
    rows, at least one of them OFF, and distinct ids minted by the counter. */
module RowStore {
  import opened Wrappers
  import opened RowModel
  import opened StateCodec

  /** The store's invariant: between MIN_ROWS and MAX_ROWS rows, at least
      one OFF, distinct ids, all minted by a counter now at `counter`. */
  ghost predicate Wellformed(rows: seq<Row>, counter: nat) {
    MIN_ROWS <= |rows| <= MAX_ROWS &&
    ActiveCount(rows) <= MaxOn(rows) &&
    DistinctIds(rows) &&
    forall i :: 0 <= i < |rows| ==> 1 <= rows[i].id <= counter
  }

  /** What `toggleRow` leaves behind, from the rows `before` it and the
      position `i` of the row it flipped: that row ends flipped; every other
      row is at most demoted; the count goes down by one, or up by one capped
      at `maxOn`; `switched` (a row had to be switched off) holds exactly
      when a row was switched ON while the count was already `maxOn`, and
      otherwise the flip is the only change. */
  ghost predicate ToggledFrom(before: seq<Row>, after: seq<Row>, i: nat, switched: bool) {
    i < |before| && |after| == |before| &&
    var wasOn := before[i].isOn;
    after[i] == before[i].(isOn := !wasOn) &&
    (forall j :: 0 <= j < |after| && j != i ==> KeptOrDemoted(before[j], after[j])) &&
    ActiveCount(after) ==
      (if wasOn then ActiveCount(before) - 1 else Min(ActiveCount(before) + 1, MaxOn(after))) &&
    (switched <==> !wasOn && ActiveCount(before) == MaxOn(after)) &&
    (!switched ==> after == before[i := before[i].(isOn := !wasOn)])
  }

  /** What `loadStateFromUrl` reports: no token in the URL, a token that
      could not be restored, or the restored state and whether a toggle had
      to be switched off to apply the rule. */
  datatype LoadOutcome = NoToken | Invalid | Loaded(switchedOffAny: bool)

  class Store {
    var rows: seq<Row>
    var idCounter: nat

    ghost predicate Valid()
      reads this
    {
      Wellformed(rows, idCounter)
    }

    /** `rows = Array.from({length: MIN_ROWS}, () => newRow())` */
    constructor ()
      ensures Valid()
      ensures rows == [Row(1, "", false), Row(2, "", false), Row(3, "", false)]
      ensures idCounter == 3
    {
      idCounter := 0;
      rows := [];
      new;
      while |rows| < MIN_ROWS
        invariant |rows| <= MIN_ROWS && idCounter == |rows|
        invariant forall i :: 0 <= i < |rows| ==> rows[i] == Row(i + 1, "", false)
      {
        var row := NewRow();
        rows := rows + [row];
      }
    }

    /** `newRow`: mints the next id and returns an empty OFF row. */
    method NewRow() returns (row: Row)
      modifies this`idCounter
      ensures idCounter == old(idCounter) + 1
      ensures row == Row(idCounter, "", false)
    {
      idCounter := idCounter + 1;
      row := Row(idCounter, "", false);
    }

    /** `enforceMaxOn`: switches ON rows off, one per unit of excess, until at
        most `maxOn` remain. Each pick is an arbitrary eligible row (the
        source draws it at random); when `preferKeep` names a row and another
        ON row exists, the named row is not eligible. Needs a row at all: on
        an empty collection the source assigns `isOn` on the `undefined` pick
        (script.js:158), which throws. */
    method EnforceMaxOn(preferKeep: Option<nat>) returns (switchedOffAny: bool)
      requires |rows| >= 1
      modifies this`rows
      ensures DemotedFrom(old(rows), rows)
      ensures ActiveCount(rows) == Min(ActiveCount(old(rows)), MaxOn(rows))
      ensures switchedOffAny <==> ActiveCount(old(rows)) > MaxOn(rows)
      ensures switchedOffAny <==> rows != old(rows)
      ensures preferKeep.Some? && |rows| >= 2 && DistinctIds(old(rows)) ==>
        KeepsOn(old(rows), rows, preferKeep.value)
    {
      var count := ActiveCount(rows);
      var allowed := MaxOn(rows);
      switchedOffAny := false;
      ghost var before := rows;
      ghost var protect := preferKeep.Some? && |rows| >= 2 && DistinctIds(before);
      while count > allowed
        invariant DemotedFrom(before, rows) && allowed == MaxOn(rows)
        invariant count == ActiveCount(rows)
        invariant Min(ActiveCount(before), allowed) <= count <= ActiveCount(before)
        invariant count < ActiveCount(before) ==> allowed <= count
        invariant switchedOffAny <==> count < ActiveCount(before)
        invariant !switchedOffAny ==> rows == before
        invariant protect ==> DistinctIds(rows) && KeepsOn(before, rows, preferKeep.value)
        decreases count
      {
        var onRows := OnRows(rows, None);
        var candidates := onRows;
        if preferKeep.Some? {
          var excludingPreferred := OnRows(rows, preferKeep);
          if |excludingPreferred| > 0 {
            candidates := excludingPreferred;
          }
        }
        OnRowsCount(rows);
        if protect {
          OtherOnRow(rows, preferKeep.value);
        }
        var k :| 0 <= k < |candidates|;
        var pick := candidates[k];
        DemoteStep(before, rows, pick);
        rows := rows[pick := rows[pick].(isOn := false)];
        switchedOffAny := true;
        count := count - 1;
      }
    }

    /** `addRow`: appends an empty OFF row with a fresh id, unless the
        collection is full. */
    method AddRow()
      requires Valid()
      modifies this
      ensures Valid()
      ensures |old(rows)| >= MAX_ROWS ==> rows == old(rows) && idCounter == old(idCounter)
      ensures |old(rows)| < MAX_ROWS ==>
        idCounter == old(idCounter) + 1 &&
        rows == old(rows) + [Row(idCounter, "", false)] &&
        forall i :: 0 <= i < |old(rows)| ==> old(rows)[i].id != idCounter
    {
      if |rows| >= MAX_ROWS {
        return;
      }
      var row := NewRow();
      ActiveCountAppendOff(rows, row);
      rows := rows + [row];
    }

    /** `removeRow`: drops the last row, unless the collection is at its
        minimum, and re-applies the rule. `None` when nothing was done,
        otherwise whether a toggle had to be switched off. */
    method RemoveRow() returns (outcome: Option<bool>)
      requires Valid()
      modifies this
      ensures Valid() && idCounter == old(idCounter)
      ensures outcome.None? <==> |old(rows)| <= MIN_ROWS
      ensures outcome.None? ==> rows == old(rows)
      ensures outcome.Some? ==>
        var kept := old(rows)[..|old(rows)| - 1];
        |rows| == |kept| &&
        (forall i :: 0 <= i < |rows| ==> KeptOrDemoted(kept[i], rows[i])) &&
        ActiveCount(rows) == Min(ActiveCount(kept), MaxOn(rows)) &&
        (outcome.value <==> forall i :: 0 <= i < |kept| ==> kept[i].isOn) &&
        (!outcome.value ==> rows == kept)
    {
      if |rows| <= MIN_ROWS {
        return None;
      }
      rows := rows[..|rows| - 1];
      AllOnIff(rows);
      var switchedOffAny := EnforceMaxOn(None);
      outcome := Some(switchedOffAny);
    }

    /** `updateText`: sets the text of the row with that id, if any. */
    method UpdateText(rowId: nat, value: string)
      requires Valid()
      modifies this
      ensures Valid() && idCounter == old(idCounter)
      ensures FindRow(old(rows), rowId).None? ==> rows == old(rows)
      ensures FindRow(old(rows), rowId).Some? ==>
        var i := FindRow(old(rows), rowId).value;
        rows == old(rows)[i := old(rows)[i].(text := value)]
    {
      var found := FindRow(rows, rowId);
      if found.None? {
        return;
      }
      var i := found.value;
      ActiveCountUpdate(rows, i, rows[i].(text := value));
      rows := rows[i := rows[i].(text := value)];
    }

    /** `toggleRow`: flips the row with that id, if any, then re-applies the
        rule keeping that row ON when it can. `None` when no row has the id,
        otherwise whether another toggle had to be switched off. */
    method ToggleRow(rowId: nat) returns (outcome: Option<bool>)
      requires Valid()
      modifies this
      ensures Valid() && idCounter == old(idCounter)
      ensures outcome.None? <==> FindRow(old(rows), rowId).None?
      ensures outcome.None? ==> rows == old(rows)
      ensures outcome.Some? ==>
        ToggledFrom(old(rows), rows, FindRow(old(rows), rowId).value, outcome.value)
    {
      var found := FindRow(rows, rowId);
      if found.None? {
        return None;
      }
      var i := found.value;
      ghost var before := rows;
      FlipKeepsDistinct(before, i);
      rows := rows[i := rows[i].(isOn := !rows[i].isOn)];
      ghost var toggled := rows;
      var switchedOffAny := EnforceMaxOn(Some(rows[i].id));
      ToggleOutcome(before, toggled, rows, i, switchedOffAny, idCounter);
      outcome := Some(switchedOffAny);
    }

    /** The `map` of `decodeState`: one fresh id per kept entry, minted in
        order. On a rejected token the rows are untouched, though the counter
        may have advanced (ids are minted before an entry is read). */
    method DecodeState(f: Foreign, token: string) returns (decoded: Option<seq<Row>>)
      modifies this`idCounter
      ensures decoded.Some? <==> DecodeEntries(f, token).Some?
      ensures decoded.Some? ==>
        decoded.value == Restore(DecodeEntries(f, token).value, old(idCounter)) &&
        idCounter == old(idCounter) + |decoded.value|
      ensures idCounter >= old(idCounter)
    {
      var parsed := Unwrap(f, token);
      if parsed.None? {
        return None;
      }
      var slice := Validate(parsed.value);
      if slice.None? {
        return None;
      }
      var items := slice.value;
      var out: seq<Row> := [];
      var k := 0;
      while k < |items|
        invariant k <= |items| && |out| == k
        invariant idCounter == old(idCounter) + k
        invariant forall j :: 0 <= j < k ==> !items[j].JNull?
        invariant forall j :: 0 <= j < k ==>
          out[j] == Row(old(idCounter) + 1 + j, TextOf(items[j]), IsOnOf(items[j]))
      {
        var row := NewRow();
        var item := items[k];
        if item.JNull? {
          return None;
        }
        out := out + [Row(row.id, TextOf(item), IsOnOf(item))];
        k := k + 1;
      }
      MintedRows(items, out, old(idCounter));
      decoded := Some(out);
    }

    /** `loadStateFromUrl`: restores the rows from a token, if one is given
        and valid, then re-applies the rule with no row preferred. */
    method LoadStateFromUrl(f: Foreign, encoded: Option<string>) returns (outcome: LoadOutcome)
      requires Valid()
      modifies this
      ensures Valid()
      ensures outcome.NoToken? <==> encoded.None? || encoded.value == ""
      ensures outcome.Invalid? <==>
        encoded.Some? && encoded.value != "" && DecodeEntries(f, encoded.value).None?
      ensures !outcome.Loaded? ==> rows == old(rows)
      ensures outcome.NoToken? ==> idCounter == old(idCounter)
      ensures outcome.Loaded? ==> idCounter == old(idCounter) + |rows|
      ensures idCounter >= old(idCounter)
      ensures outcome.Loaded? ==>
        var es := DecodeEntries(f, encoded.value).value;
        var restored := Restore(es, old(idCounter));
        DemotedFrom(restored, rows) &&
        ActiveCount(rows) == Min(ActiveCount(restored), MaxOn(rows)) &&
        (outcome.switchedOffAny <==> forall i :: 0 <= i < |es| ==> es[i].isOn) &&
        (!outcome.switchedOffAny ==> rows == restored)
    {
      if encoded.None? || encoded.value == "" {
        return NoToken;
      }
      var decodedRows := DecodeState(f, encoded.value);
      if decodedRows.None? {
        return Invalid;
      }
      ghost var es := DecodeEntries(f, encoded.value).value;
      RestoredAllOn(es, old(idCounter));
      rows := decodedRows.value;
      ghost var restored := rows;
      var switchedOffAny := EnforceMaxOn(None);
      LoadKeepsWellformed(es, old(idCounter), rows, idCounter);
      outcome := Loaded(switchedOffAny);
    }
  }

  /** Demoting rows of a collection with good bounds and ids keeps the
      store's invariant once the count is at most `maxOn`. */
  lemma DemotionKeepsWellformed(before: seq<Row>, after: seq<Row>, counter: nat)
    requires MIN_ROWS <= |before| <= MAX_ROWS && DistinctIds(before)
    requires forall i :: 0 <= i < |before| ==> 1 <= before[i].id <= counter
    requires DemotedFrom(before, after) && ActiveCount(after) <= MaxOn(after)
    ensures Wellformed(after, counter)
  {
    DemotedKeepsDistinct(before, after);
  }

  /** The rows the decoding loop builds are the coerced entries with ids
      minted in order after `base`. */
  lemma MintedRows(items: seq<Json>, out: seq<Row>, base: nat)
    requires |out| == |items| && forall j :: 0 <= j < |items| ==> !items[j].JNull?
    requires forall j :: 0 <= j < |items| ==> out[j] == Row(base + 1 + j, TextOf(items[j]), IsOnOf(items[j]))
    ensures CoerceAll(items).Some? && out == Restore(CoerceAll(items).value, base)
  {
    var es := CoerceAll(items).value;
    var restored := Restore(es, base);
    assert |restored| == |es| == |out|;
    forall j | 0 <= j < |items| ensures out[j] == restored[j] {
      assert CoerceItem(items[j]) == Some(es[j]);
      assert restored[j] == Row(base + 1 + j, es[j].text, es[j].isOn);
    }
    assert out == restored;
  }

  /** Restoring entries with fresh ids and demoting down to `maxOn` yields
      a well-formed store. */
  lemma LoadKeepsWellformed(es: seq<Entry>, base: nat, after: seq<Row>, counter: nat)
    requires MIN_ROWS <= |es| <= MAX_ROWS && base + |es| == counter
    requires DemotedFrom(Restore(es, base), after) && ActiveCount(after) <= MaxOn(after)
    ensures Wellformed(after, counter)
  {
    RestoredIdsFresh(es, base);
    DemotionKeepsWellformed(Restore(es, base), after, counter);
  }

  /** Restored rows exceed `maxOn` exactly when every restored entry is ON. */
  lemma RestoredAllOn(es: seq<Entry>, base: nat)
    ensures ActiveCount(Restore(es, base)) > MaxOn(Restore(es, base)) <==>
      forall i :: 0 <= i < |es| ==> es[i].isOn
  {
    var rows := Restore(es, base);
    assert forall i :: 0 <= i < |rows| ==> rows[i].isOn == Entries(rows)[i].isOn;
    AllOnIff(rows);
  }

  /** A toggle followed by a demotion down to `maxOn` keeps the store's invariant. */
  lemma ToggleKeepsWellformed(before: seq<Row>, toggled: seq<Row>, after: seq<Row>, i: nat, counter: nat)
    requires Wellformed(before, counter)
    requires i < |before| && toggled == before[i := before[i].(isOn := !before[i].isOn)]
    requires DemotedFrom(toggled, after) && ActiveCount(after) <= MaxOn(after)
    ensures Wellformed(after, counter)
  {
    FlipKeepsDistinct(before, i);
    DemotionKeepsWellformed(toggled, after, counter);
  }

  /** Flipping one row's toggle keeps the ids distinct. */
  lemma FlipKeepsDistinct(rows: seq<Row>, i: nat)
    requires i < |rows| && DistinctIds(rows)
    ensures DistinctIds(rows[i := rows[i].(isOn := !rows[i].isOn)])
  {
    var flipped := rows[i := rows[i].(isOn := !rows[i].isOn)];
    assert forall j :: 0 <= j < |rows| ==> flipped[j].id == rows[j].id;
  }

  /** Everything `toggleRow` promises, from what the toggle and the demotion
      each guarantee. */
  lemma ToggleOutcome(before: seq<Row>, toggled: seq<Row>, after: seq<Row>, i: nat, switched: bool, counter: nat)
    requires Wellformed(before, counter)
    requires i < |before| && toggled == before[i := before[i].(isOn := !before[i].isOn)]
    requires DemotedFrom(toggled, after) && KeepsOn(toggled, after, toggled[i].id)
    requires ActiveCount(after) == Min(ActiveCount(toggled), MaxOn(after))
    requires switched <==> ActiveCount(toggled) > MaxOn(after)
    requires !switched ==> after == toggled
    ensures Wellformed(after, counter) && ToggledFrom(before, after, i, switched)
  {
    ToggleKeepsWellformed(before, toggled, after, i, counter);
    ToggledRowKept(before, toggled, after, i);
    ToggleCount(before, toggled, after, i, switched);
  }

  /** The toggled row keeps its new state when the demotion protects it;
      every other row is at most demoted. */
  lemma ToggledRowKept(before: seq<Row>, toggled: seq<Row>, after: seq<Row>, i: nat)
    requires i < |before| && toggled == before[i := before[i].(isOn := !before[i].isOn)]
    requires DemotedFrom(toggled, after) && KeepsOn(toggled, after, toggled[i].id)
    ensures |after| == |before| && after[i] == toggled[i]
    ensures forall j :: 0 <= j < |after| && j != i ==> KeptOrDemoted(before[j], after[j])
  {
    assert KeptOrDemoted(toggled[i], after[i]);
  }

  /** The count after `toggleRow`: one less when the row was switched OFF;
      one more, capped at `maxOn`, when it was switched ON, and the cap
      applies exactly when the collection was already at `maxOn`. */
  lemma ToggleCount(before: seq<Row>, toggled: seq<Row>, after: seq<Row>, i: nat, switched: bool)
    requires i < |before| && toggled == before[i := before[i].(isOn := !before[i].isOn)]
    requires |after| == |before| && ActiveCount(before) <= MaxOn(before)
    requires ActiveCount(after) == Min(ActiveCount(toggled), MaxOn(after))
    requires switched <==> ActiveCount(toggled) > MaxOn(after)
    ensures ActiveCount(after) ==
      (if before[i].isOn then ActiveCount(before) - 1 else Min(ActiveCount(before) + 1, MaxOn(after)))
    ensures switched <==> !before[i].isOn && ActiveCount(before) == MaxOn(after)
  {
    ActiveCountUpdate(before, i, toggled[i]);
  }

  /** Appending an OFF row leaves the count unchanged. */
  lemma ActiveCountAppendOff(rows: seq<Row>, row: Row)
    requires !row.isOn
    ensures ActiveCount(rows + [row]) == ActiveCount(rows)
  {
    assert (rows + [row])[..|rows|] == rows;
  }

  /** Three fresh rows, each toggled ON in turn: the third toggle exceeds
      `maxOn` (2), so one of the first two is switched off and the row just
      toggled stays ON. */
  method ToggleAllThree() returns (store: Store)
    ensures fresh(store)
    ensures store.Valid() && |store.rows| == 3 && ActiveCount(store.rows) == 2
    ensures store.rows[2].isOn && store.rows[0].isOn != store.rows[1].isOn
  {
    store := new Store();
    ActiveCountOfThree(store.rows);
    assert FindRow(store.rows, 1) == Some(0);
    var first := store.ToggleRow(1);
    assert store.rows[0].isOn && !store.rows[1].isOn && !store.rows[2].isOn;
    ActiveCountOfThree(store.rows);
    assert FindRow(store.rows, 2) == Some(1);
    var second := store.ToggleRow(2);
    assert store.rows[0].isOn && store.rows[1].isOn && !store.rows[2].isOn;
    ActiveCountOfThree(store.rows);
    assert FindRow(store.rows, 3) == Some(2);
    var third := store.ToggleRow(3);
    ActiveCountOfThree(store.rows);
  }

  lemma ActiveCountOfThree(rows: seq<Row>)
    requires |rows| == 3
    ensures ActiveCount(rows) == Bit(rows[0].isOn) + Bit(rows[1].isOn) + Bit(rows[2].isOn)
  {
    assert rows[..2][..1] == rows[..1];
    assert rows[..1][..0] == [];
    assert ActiveCount(rows[..1]) == Bit(rows[0].isOn);
    assert ActiveCount(rows[..2]) == Bit(rows[0].isOn) + Bit(rows[1].isOn);
  }

  /** Sharing that state and decoding the token restores the same three
      (text, isOn) pairs, two of them ON. */
  method ShareAllThree(f: Foreign) returns (live: seq<Row>, restored: seq<Row>)
    requires Faithful(f)
    ensures |live| == 3 && ActiveCount(live) == 2
    ensures DecodeEntries(f, EncodeState(f, live)) == Some(Entries(restored))
    ensures Entries(restored) == Entries(live)
    ensures |restored| == 3 && ActiveCount(restored) == 2
  {
    var store := ToggleAllThree();
    live := store.rows;
    ShareRoundTripInBounds(f, live);
    var decoded := store.DecodeState(f, EncodeState(f, live));
    restored := decoded.value;
    SameEntriesSameCount(restored, live);
  }
}
