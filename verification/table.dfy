/**
 * The vendor table: each row's derived columns (payment term in days and
 * vendor score) are recomputed from the row's own inputs on every pass,
 * and the table can be narrowed to the vendors of one product.
 */
module Table {
  import opened Wrappers
  import opened Calendar
  import opened Terms
  import opened Scoring

  /** One vendor offer. termsDays and vendorScore are the derived columns;
      None means the column is not present (yet) for this row. */
  datatype VendorRow = VendorRow(
    vendorCode: string,
    product: string,
    price: real,
    termsRaw: Option<string>,
    termsDays: Option<int>,
    vendorScore: Option<real>)

  /** The two rows agree on every column that is not derived. */
  predicate SameInputs(a: VendorRow, b: VendorRow) {
    a.vendorCode == b.vendorCode && a.product == b.product
    && a.price == b.price && a.termsRaw == b.termsRaw
  }

  /** The row's derived columns are those of its own inputs on this date. */
  predicate Consistent(row: VendorRow, today: Date)
    requires ValidDate(today)
  {
    row.termsDays == Some(ResolveTermsDays(row.termsRaw, today))
    && row.vendorScore == Some(VendorScore(row.price, ResolveTermsDays(row.termsRaw, today)))
  }

  /** The score of one row, read from its price and terms_days columns. */
  function RowScore(row: VendorRow): (s: real)
    requires row.termsDays.Some?
    ensures row.termsDays.value <= 0 ==> s == NoTermScore
    ensures row.termsDays.value > 0 ==> (s - row.price) * row.termsDays.value as real == 1.0
    ensures row.termsDays.value > 0 ==> row.price < s <= row.price + 1.0
  {
    VendorScore(row.price, row.termsDays.value)
  }

  /** The terms_days column filled in from each row's terms text. */
  function WithTermsDays(rows: seq<VendorRow>, today: Date): (r: seq<VendorRow>)
    requires ValidDate(today)
    ensures |r| == |rows|
    ensures forall i :: 0 <= i < |r| ==>
      SameInputs(r[i], rows[i]) && r[i].vendorScore == rows[i].vendorScore
      && r[i].termsDays == Some(ResolveTermsDays(rows[i].termsRaw, today))
      && 0 <= r[i].termsDays.value <= 365
  {
    seq(|rows|, i requires 0 <= i < |rows| =>
      rows[i].(termsDays := Some(ResolveTermsDays(rows[i].termsRaw, today))))
  }

  /** The vendor_score column filled in from each row's own price and
      terms_days. */
  function WithScores(rows: seq<VendorRow>): (r: seq<VendorRow>)
    requires forall i :: 0 <= i < |rows| ==> rows[i].termsDays.Some?
    ensures |r| == |rows|
    ensures forall i :: 0 <= i < |r| ==>
      SameInputs(r[i], rows[i]) && r[i].termsDays == rows[i].termsDays
      && r[i].vendorScore.Some?
      && (rows[i].termsDays.value <= 0 ==> r[i].vendorScore.value == NoTermScore)
      && (rows[i].termsDays.value > 0 ==>
            (r[i].vendorScore.value - rows[i].price) * rows[i].termsDays.value as real == 1.0)
  {
    seq(|rows|, i requires 0 <= i < |rows| => rows[i].(vendorScore := Some(RowScore(rows[i]))))
  }

  /** Both derived columns recomputed: same rows, same order, inputs
      untouched, and every row consistent with its own inputs. */
  function DeriveColumns(rows: seq<VendorRow>, today: Date): (r: seq<VendorRow>)
    requires ValidDate(today)
    ensures |r| == |rows|
    ensures forall i :: 0 <= i < |r| ==> SameInputs(r[i], rows[i]) && Consistent(r[i], today)
  {
    WithScores(WithTermsDays(rows, today))
  }

  /** A table that keeps the inputs of rows, row by row, and is consistent
      on every row is the derived table of rows: there is only one. */
  lemma DeriveUnique(rows: seq<VendorRow>, r: seq<VendorRow>, today: Date)
    requires ValidDate(today) && |r| == |rows|
    requires forall i :: 0 <= i < |r| ==> SameInputs(r[i], rows[i]) && Consistent(r[i], today)
    ensures r == DeriveColumns(rows, today)
  {
    var d := DeriveColumns(rows, today);
    forall i | 0 <= i < |r| ensures r[i] == d[i] {
      assert SameInputs(r[i], d[i]) && Consistent(r[i], today) && Consistent(d[i], today);
    }
  }

  /** The derived columns depend only on the inputs: whatever stale values
      two tables carry in their derived columns, equal inputs give equal
      results. */
  lemma DeriveIgnoresStaleColumns(a: seq<VendorRow>, b: seq<VendorRow>, today: Date)
    requires ValidDate(today)
    requires |a| == |b| && forall i :: 0 <= i < |a| ==> SameInputs(a[i], b[i])
    ensures DeriveColumns(a, today) == DeriveColumns(b, today)
  {
    DeriveUnique(b, DeriveColumns(a, today), today);
  }

  /** Recomputing an already derived table changes nothing. */
  lemma DeriveIdempotent(rows: seq<VendorRow>, today: Date)
    requires ValidDate(today)
    ensures DeriveColumns(DeriveColumns(rows, today), today) == DeriveColumns(rows, today)
  {
    var d := DeriveColumns(rows, today);
    DeriveUnique(d, d, today);
  }

  /** A derived row depends on that row's own inputs only, not on its
      position or on any other row of the table. */
  lemma DeriveRowLocal(a: seq<VendorRow>, i: int, b: seq<VendorRow>, j: int, today: Date)
    requires ValidDate(today) && 0 <= i < |a| && 0 <= j < |b| && SameInputs(a[i], b[j])
    ensures DeriveColumns(a, today)[i] == DeriveColumns(b, today)[j]
  {
    var da, db := DeriveColumns(a, today), DeriveColumns(b, today);
    assert SameInputs(da[i], db[j]) && Consistent(da[i], today) && Consistent(db[j], today);
  }

  /** Deriving a table with one more row in front derives that row on its
      own and then the rest. */
  lemma DeriveCons(x: VendorRow, rest: seq<VendorRow>, today: Date)
    requires ValidDate(today)
    ensures var d := DeriveColumns([x] + rest, today);
            d[0] == DeriveColumns([x], today)[0] && d[1..] == DeriveColumns(rest, today)
  {
    var rows := [x] + rest;
    var d := DeriveColumns(rows, today);
    DeriveRowLocal(rows, 0, [x], 0, today);
    var e := DeriveColumns(rest, today);
    var tail := d[1..];
    assert |tail| == |e| == |rest|;
    forall i | 0 <= i < |rest| ensures tail[i] == e[i] {
      assert rows[i + 1] == rest[i];
      DeriveRowLocal(rows, i + 1, rest, i, today);
    }
    assert tail == e;
  }

  /** The rows whose product is the selected one, in their original order. */
  function FilterProduct(rows: seq<VendorRow>, product: string): (r: seq<VendorRow>)
    ensures |r| <= |rows|
    ensures forall k :: 0 <= k < |r| ==> r[k].product == product
  {
    if rows == [] then []
    else if rows[0].product == product then [rows[0]] + FilterProduct(rows[1..], product)
    else FilterProduct(rows[1..], product)
  }

  /** r is rows at the indices idx. */
  ghost predicate PicksAt(rows: seq<VendorRow>, r: seq<VendorRow>, idx: seq<int>) {
    |idx| == |r| && forall k :: 0 <= k < |idx| ==> 0 <= idx[k] < |rows| && r[k] == rows[idx[k]]
  }

  ghost predicate StrictlyIncreasing(idx: seq<int>) {
    forall k, l :: 0 <= k < l < |idx| ==> idx[k] < idx[l]
  }

  /** idx holds exactly the indices of the rows of the given product. */
  ghost predicate IndicesOfProduct(rows: seq<VendorRow>, idx: seq<int>, product: string) {
    forall i :: 0 <= i < |rows| ==> (rows[i].product == product <==> i in idx)
  }

  /** r is rows at the strictly increasing indices idx, and idx holds
      exactly the indices of the rows of the given product. */
  ghost predicate OrderedSelection(rows: seq<VendorRow>, r: seq<VendorRow>, idx: seq<int>, product: string) {
    PicksAt(rows, r, idx) && StrictlyIncreasing(idx) && IndicesOfProduct(rows, idx, product)
  }

  /** Every index moved one place on. */
  function Shift(idx: seq<int>): (r: seq<int>)
    ensures |r| == |idx| && forall k :: 0 <= k < |r| ==> r[k] == idx[k] + 1
  {
    seq(|idx|, k requires 0 <= k < |idx| => idx[k] + 1)
  }

  lemma ShiftMembership(idx: seq<int>)
    ensures forall i :: i in Shift(idx) <==> i - 1 in idx
  {
    var shifted := Shift(idx);
    forall i ensures (i in shifted <==> i - 1 in idx) {
      if i in shifted {
        var k :| 0 <= k < |shifted| && shifted[k] == i;
        assert idx[k] == i - 1;
      }
      if i - 1 in idx {
        var k :| 0 <= k < |idx| && idx[k] == i - 1;
        assert shifted[k] == i;
      }
    }
  }

  /** Putting a row of another product in front of a table keeps a
      selection of the rest, with every index moved on. */
  lemma ConsSkipped(x: VendorRow, rest: seq<VendorRow>, r: seq<VendorRow>, idx: seq<int>, product: string)
    requires OrderedSelection(rest, r, idx, product) && x.product != product
    ensures OrderedSelection([x] + rest, r, Shift(idx), product)
  {
    var rows, shifted := [x] + rest, Shift(idx);
    ShiftMembership(idx);
    assert forall k :: 0 <= k < |shifted| ==> r[k] == rows[shifted[k]];
    forall i | 0 <= i < |rows| ensures (rows[i].product == product <==> i in shifted) {
      if i > 0 {
        assert rows[i] == rest[i - 1];
      }
    }
  }

  /** Putting a row of the selected product in front of a table selects
      that row first, then the selection of the rest. */
  lemma ConsKept(x: VendorRow, rest: seq<VendorRow>, r: seq<VendorRow>, idx: seq<int>, product: string)
    requires OrderedSelection(rest, r, idx, product) && x.product == product
    ensures OrderedSelection([x] + rest, [x] + r, [0] + Shift(idx), product)
  {
    var rows, idx', r' := [x] + rest, [0] + Shift(idx), [x] + r;
    forall k | 0 <= k < |idx'| ensures 0 <= idx'[k] < |rows| && r'[k] == rows[idx'[k]] {
      if k > 0 {
        assert idx'[k] == idx[k - 1] + 1 && r'[k] == r[k - 1];
      }
    }
    forall k, l | 0 <= k < l < |idx'| ensures idx'[k] < idx'[l] {
      assert idx'[l] == idx[l - 1] + 1;
      if k > 0 {
        assert idx'[k] == idx[k - 1] + 1;
      }
    }
    ConsKeptIndices(x, rest, idx, product);
  }

  lemma ConsKeptIndices(x: VendorRow, rest: seq<VendorRow>, idx: seq<int>, product: string)
    requires IndicesOfProduct(rest, idx, product) && x.product == product
    ensures IndicesOfProduct([x] + rest, [0] + Shift(idx), product)
  {
    var rows, shifted := [x] + rest, Shift(idx);
    ShiftMembership(idx);
    forall i | 0 <= i < |rows| ensures (rows[i].product == product <==> i in [0] + shifted) {
      if i > 0 {
        assert rows[i] == rest[i - 1];
        assert i in [0] + shifted <==> i in shifted;
      }
    }
  }

  /** The filter keeps exactly the rows of the selected product, each
      once, in their original relative order. */
  lemma {:induction false} FilterIsOrderedSelection(rows: seq<VendorRow>, product: string)
    ensures exists idx :: OrderedSelection(rows, FilterProduct(rows, product), idx, product)
    decreases |rows|
  {
    if rows == [] {
      assert FilterProduct(rows, product) == [];
      assert OrderedSelection(rows, [], [], product);
    } else {
      var x, rest := rows[0], rows[1..];
      var fr := FilterProduct(rest, product);
      FilterIsOrderedSelection(rest, product);
      var idx :| OrderedSelection(rest, fr, idx, product);
      assert rows == [x] + rest;
      if x.product == product {
        ConsKept(x, rest, fr, idx, product);
        assert FilterProduct(rows, product) == [x] + fr;
      } else {
        ConsSkipped(x, rest, fr, idx, product);
        assert FilterProduct(rows, product) == fr;
      }
    }
  }

  /** The step of FilterThenDerive for a front row of the selected product. */
  lemma FilterThenDeriveKept(x: VendorRow, rest: seq<VendorRow>, product: string, today: Date)
    requires ValidDate(today) && x.product == product
    requires DeriveColumns(FilterProduct(rest, product), today)
             == FilterProduct(DeriveColumns(rest, today), product)
    ensures DeriveColumns(FilterProduct([x] + rest, product), today)
            == FilterProduct(DeriveColumns([x] + rest, today), product)
  {
    var rows, fr := [x] + rest, FilterProduct(rest, product);
    var d, lhs := DeriveColumns(rows, today), DeriveColumns([x] + fr, today);
    assert rows[1..] == rest;
    assert FilterProduct(rows, product) == [x] + fr;
    DeriveCons(x, rest, today);
    DeriveCons(x, fr, today);
    var head, tail := d[0], d[1..];
    assert tail == DeriveColumns(rest, today);
    assert lhs[0] == head && lhs[1..] == FilterProduct(tail, product);
    assert head.product == product;
    assert d == [head] + tail;
    assert FilterProduct(d, product) == [head] + FilterProduct(tail, product);
    assert lhs == [lhs[0]] + lhs[1..];
  }

  /** The step of FilterThenDerive for a front row of another product. */
  lemma FilterThenDeriveSkipped(x: VendorRow, rest: seq<VendorRow>, product: string, today: Date)
    requires ValidDate(today) && x.product != product
    requires DeriveColumns(FilterProduct(rest, product), today)
             == FilterProduct(DeriveColumns(rest, today), product)
    ensures DeriveColumns(FilterProduct([x] + rest, product), today)
            == FilterProduct(DeriveColumns([x] + rest, today), product)
  {
    var rows := [x] + rest;
    var d := DeriveColumns(rows, today);
    assert rows[1..] == rest;
    assert FilterProduct(rows, product) == FilterProduct(rest, product);
    DeriveCons(x, rest, today);
    assert d[0].product != product;
    assert FilterProduct(d, product) == FilterProduct(d[1..], product);
  }

  /** Deriving the columns of the selected product's rows gives the same
      rows as deriving the whole table and then selecting. */
  lemma {:induction false} FilterThenDerive(rows: seq<VendorRow>, product: string, today: Date)
    requires ValidDate(today)
    ensures DeriveColumns(FilterProduct(rows, product), today)
            == FilterProduct(DeriveColumns(rows, today), product)
    decreases |rows|
  {
    if rows == [] {
      assert FilterProduct(rows, product) == [];
    } else {
      var x, rest := rows[0], rows[1..];
      assert rows == [x] + rest;
      FilterThenDerive(rest, product, today);
      if x.product == product {
        FilterThenDeriveKept(x, rest, product, today);
      } else {
        FilterThenDeriveSkipped(x, rest, product, today);
      }
    }
  }

  /** With no edits in the grid, recomputing the selected product's rows
      (after the whole table was already derived) changes nothing. */
  lemma RederiveSelectionUnchanged(rows: seq<VendorRow>, product: string, today: Date)
    requires ValidDate(today)
    ensures var selected := FilterProduct(DeriveColumns(rows, today), product);
            DeriveColumns(selected, today) == selected
  {
    var d := DeriveColumns(rows, today);
    FilterThenDerive(d, product, today);
    DeriveIdempotent(rows, today);
  }
}
