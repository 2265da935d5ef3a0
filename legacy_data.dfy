/**
 * The earlier, categorical-only dataset of data.go (package goitree): a
 * feature list, one value column per feature and a size, with add, row,
 * copyNoValues, sample and the split step.
 */
module LegacyData {
  import opened Wrappers
  import opened Seqs
  import Random

  datatype FeatureType = Categorical | Numerical
  datatype Feature = Feature(name: string, kind: FeatureType)
  datatype FeatureValue = FeatureValue(str: string, num: real)

  /** A row: each feature with its value. */
  type Row = map<Feature, FeatureValue>

  datatype Error =
    | UnknownFeature  // add panics: the row carries a feature with no column
    | SizeTooLarge    // sample panics: more rows asked for than the dataset holds
    | NothingToDraw   // Split panics in rand.Intn(0): no features, or an empty column

  /** Every column holds exactly `size` entries. */
  ghost predicate Rectangular(values: map<Feature, seq<FeatureValue>>, size: int) {
    size >= 0 && forall f :: f in values ==> |values[f]| == size
  }

  /** Row k: each column's k-th entry under its feature. */
  function RowAt(values: map<Feature, seq<FeatureValue>>, k: nat): (r: Row)
    requires forall f :: f in values ==> k < |values[f]|
    ensures r.Keys == values.Keys
  {
    map f | f in values :: values[f][k]
  }

  /** The rows a rectangular set of columns holds, in index order. */
  ghost function RowsOf(values: map<Feature, seq<FeatureValue>>, size: int): (rows: seq<Row>)
    requires Rectangular(values, size)
    ensures |rows| == size
    ensures forall k :: 0 <= k < size ==> rows[k] == RowAt(values, k)
  {
    seq(size, k requires 0 <= k < size => RowAt(values, k))
  }

  // ---------------------------------------------------------------------
  // add

  /** add: every feature of the row gets the row's value appended to its column; other columns are left as they are. */
  function AddedColumns(values: map<Feature, seq<FeatureValue>>, row: Row): (r: map<Feature, seq<FeatureValue>>)
    ensures r.Keys == values.Keys
  {
    map f | f in values :: if f in row then values[f] + [row[f]] else values[f]
  }

  /** Adding a row with exactly the dataset's features appends it as the last row and keeps every column at the size. */
  lemma AddFullRow(values: map<Feature, seq<FeatureValue>>, size: int, row: Row)
    requires Rectangular(values, size) && row.Keys == values.Keys
    ensures Rectangular(AddedColumns(values, row), size + 1)
    ensures RowsOf(AddedColumns(values, row), size + 1) == RowsOf(values, size) + [row]
  {
    var added := AddedColumns(values, row);
    forall k | 0 <= k < size ensures RowAt(added, k) == RowAt(values, k) {
      forall f | f in values ensures added[f][k] == values[f][k] {
      }
    }
    assert RowAt(added, size) == row;
  }

  /**
   * add never checks that the row has every feature: a row that lacks one
   * leaves that column a value short, so the columns no longer all hold
   * `size` entries.
   */
  lemma AddPartialRowBreaksShape(values: map<Feature, seq<FeatureValue>>, size: int, row: Row)
    requires Rectangular(values, size) && row.Keys <= values.Keys && row.Keys != values.Keys
    ensures !Rectangular(AddedColumns(values, row), size + 1)
  {
    var f :| f in values && f !in row;
    assert |AddedColumns(values, row)[f]| == size;
  }

  // ---------------------------------------------------------------------
  // sample

  /**
   * The draws of sample as written, read from the stream at `pos`: for each row, the
   * rejection loop's draws up to one not in `copied`, which is recorded;
   * then the separate draw whose row is actually added. The result is the
   * indices of the rows added, None when the stream runs out.
   */
  function SampleTrace(draws: seq<int>, pos: nat, copied: set<int>, count: nat): (r: Option<seq<int>>)
    ensures r.Some? ==> forall k :: 0 <= k < |r.value| ==> r.value[k] in draws
    decreases |draws| - pos
  {
    if count == 0 then Some([])
    else if pos >= |draws| then None
    else if draws[pos] in copied then SampleTrace(draws, pos + 1, copied, count)
    else if pos + 1 >= |draws| then None
    else
      match SampleTrace(draws, pos + 2, copied + {draws[pos]}, count - 1)
      case None => None
      case Some(rest) => Some([draws[pos + 1]] + rest)
  }

  /** A completed trace has one added index per requested row. */
  lemma {:induction false} SampleTraceLength(draws: seq<int>, pos: nat, copied: set<int>, count: nat)
    requires SampleTrace(draws, pos, copied, count).Some?
    ensures |SampleTrace(draws, pos, copied, count).value| == count
    decreases |draws| - pos
  {
    if count > 0 && pos < |draws| {
      if draws[pos] in copied {
        SampleTraceLength(draws, pos + 1, copied, count);
      } else {
        SampleTraceLength(draws, pos + 2, copied + {draws[pos]}, count - 1);
      }
    }
  }

  /**
   * The indices the rejection loop accepts, each then added: what the
   * `copied` bookkeeping is for, and what dataset.go's Sample does.
   */
  function SampleTraceIntended(draws: seq<int>, pos: nat, copied: set<int>, count: nat): (r: Option<seq<int>>)
    ensures r.Some? ==> |r.value| == count && forall k :: 0 <= k < |r.value| ==> r.value[k] in draws
    decreases |draws| - pos
  {
    if count == 0 then Some([])
    else if pos >= |draws| then None
    else if draws[pos] in copied then SampleTraceIntended(draws, pos + 1, copied, count)
    else
      match SampleTraceIntended(draws, pos + 1, copied + {draws[pos]}, count - 1)
      case None => None
      case Some(rest) => Some([draws[pos]] + rest)
  }

  /** With the accepted index added, the sample never repeats a row index, nor one copied before. */
  lemma {:induction false} SampleIntendedDistinct(draws: seq<int>, pos: nat, copied: set<int>, count: nat)
    requires SampleTraceIntended(draws, pos, copied, count).Some?
    ensures var r := SampleTraceIntended(draws, pos, copied, count).value;
            Distinct(r) && forall k :: 0 <= k < |r| ==> r[k] !in copied
    decreases |draws| - pos
  {
    if count > 0 && pos < |draws| {
      if draws[pos] in copied {
        SampleIntendedDistinct(draws, pos + 1, copied, count);
      } else {
        var x := draws[pos];
        SampleIntendedDistinct(draws, pos + 1, copied + {x}, count - 1);
        var rest := SampleTraceIntended(draws, pos + 1, copied + {x}, count - 1).value;
        var r := [x] + rest;
        assert forall k :: 1 <= k < |r| ==> r[k] == rest[k - 1];
      }
    }
  }

  /**
   * As written, sample can add the same row twice: from a two-row
   * dataset, the stream 0, 1, 1, 1 accepts indices 0 and 1 but adds row 1
   * both times.
   */
  lemma SampleRepeatsRow()
    ensures SampleTrace([0, 1, 1, 1], 0, {}, 2) == Some([1, 1])
    ensures SampleTraceIntended([0, 1, 1, 1], 0, {}, 2) == Some([0, 1])
  {
    var d := [0, 1, 1, 1];
    assert d[0] == 0 && d[1] == 1 && d[2] == 1 && d[3] == 1;
    assert SampleTrace(d, 4, {0, 1}, 0) == Some([]);
    assert [d[3]] + [] == [1];
    assert SampleTrace(d, 2, {0}, 1) == Some([1]);
    assert [d[1]] + [1] == [1, 1];
    assert SampleTrace(d, 0, {}, 2) == Some([1, 1]);
    assert SampleTraceIntended(d, 2, {0, 1}, 0) == Some([]);
    assert [d[1]] + [] == [1];
    assert SampleTraceIntended(d, 1, {0}, 1) == Some([1]);
    assert [d[0]] + [1] == [0, 1];
    assert SampleTraceIntended(d, 0, {}, 2) == Some([0, 1]);
  }

  /** The rows at the given indices, in that order. */
  ghost function Pick(rows: seq<Row>, idx: seq<int>): (r: seq<Row>)
    requires forall k :: 0 <= k < |idx| ==> 0 <= idx[k] < |rows|
    ensures |r| == |idx| && forall k :: 0 <= k < |idx| ==> r[k] == rows[idx[k]]
  {
    seq(|idx|, k requires 0 <= k < |idx| => rows[idx[k]])
  }

  /** Picking one more index appends that row. */
  lemma PickSnoc(rows: seq<Row>, idx: seq<int>, i: int)
    requires forall k :: 0 <= k < |idx| ==> 0 <= idx[k] < |rows|
    requires 0 <= i < |rows|
    ensures Pick(rows, idx + [i]) == Pick(rows, idx) + [rows[i]]
  {
  }

  // ---------------------------------------------------------------------
  // splitOn and Split

  /** The legacy condition: a feature and the string its value must equal. */
  datatype SplitCondition = SplitCondition(feature: Feature, value: string)

  /** The row's string under the condition's feature (the zero value when it has none), compared with the condition's string. */
  function Matches(c: SplitCondition, row: Row): bool {
    (if c.feature in row then row[c.feature].str else "") == c.value
  }

  /**
   * A row without the condition's feature reads the zero value, the empty
   * string: it goes to the matched side exactly when the condition's string
   * is empty.
   */
  lemma MissingFeatureSide(rows: seq<Row>, c: SplitCondition)
    ensures forall r: Row :: r in rows && c.feature !in r ==> (r in MatchedRows(rows, c) <==> c.value == "")
    ensures forall r: Row :: r in rows && c.feature in r ==> (r in MatchedRows(rows, c) <==> r[c.feature].str == c.value)
  {
    SplitOnMembers(rows, c);
  }

  /** The matched side of splitOn, in the original order. */
  function MatchedRows(rows: seq<Row>, c: SplitCondition): (r: seq<Row>)
    ensures forall k :: 0 <= k < |r| ==> Matches(c, r[k])
  {
    if rows == [] then []
    else
      var m := MatchedRows(rows[..|rows| - 1], c);
      if Matches(c, rows[|rows| - 1]) then m + [rows[|rows| - 1]] else m
  }

  /** The other side of splitOn, in the original order. */
  function UnmatchedRows(rows: seq<Row>, c: SplitCondition): (r: seq<Row>)
    ensures forall k :: 0 <= k < |r| ==> !Matches(c, r[k])
  {
    if rows == [] then []
    else
      var n := UnmatchedRows(rows[..|rows| - 1], c);
      if Matches(c, rows[|rows| - 1]) then n else n + [rows[|rows| - 1]]
  }

  /** The two sides of splitOn partition the rows: the sizes add up and together they hold every row once. */
  lemma {:induction false} SplitOnPartition(rows: seq<Row>, c: SplitCondition)
    ensures |MatchedRows(rows, c)| + |UnmatchedRows(rows, c)| == |rows|
    ensures multiset(MatchedRows(rows, c)) + multiset(UnmatchedRows(rows, c)) == multiset(rows)
  {
    if rows != [] {
      var front := rows[..|rows| - 1];
      SplitOnPartition(front, c);
      assert rows == front + [rows[|rows| - 1]];
    }
  }

  /** Splitting a concatenation splits each part: each side keeps the rows in their original order. */
  lemma {:induction false} MatchedRowsConcat(xs: seq<Row>, ys: seq<Row>, c: SplitCondition)
    ensures MatchedRows(xs + ys, c) == MatchedRows(xs, c) + MatchedRows(ys, c)
    ensures UnmatchedRows(xs + ys, c) == UnmatchedRows(xs, c) + UnmatchedRows(ys, c)
  {
    if ys == [] {
      assert xs + ys == xs;
    } else {
      var front := ys[..|ys| - 1];
      var last := ys[|ys| - 1];
      MatchedRowsConcat(xs, front, c);
      assert (xs + ys)[..|xs + ys| - 1] == xs + front;
      assert (xs + ys)[|xs + ys| - 1] == last;
    }
  }

  /** A row is on the matched side iff it matches, on the other side iff it does not. */
  lemma {:induction false} SplitOnMembers(rows: seq<Row>, c: SplitCondition)
    ensures forall r :: r in MatchedRows(rows, c) <==> r in rows && Matches(c, r)
    ensures forall r :: r in UnmatchedRows(rows, c) <==> r in rows && !Matches(c, r)
  {
    if rows != [] {
      var front := rows[..|rows| - 1];
      SplitOnMembers(front, c);
      assert rows == front + [rows[|rows| - 1]];
    }
  }

  /** Three rows of which the first two match. */
  lemma SplitThree(x: Row, y: Row, z: Row, c: SplitCondition)
    requires Matches(c, x) && Matches(c, y) && !Matches(c, z)
    ensures MatchedRows([x, y, z], c) == [x, y] && UnmatchedRows([x, y, z], c) == [z]
  {
    assert [x, y, z][..2] == [x, y];
    assert [x, y][..1] == [x];
    assert [x][..0] == [];
    assert MatchedRows([x], c) == [x] && UnmatchedRows([x], c) == [];
    assert MatchedRows([x, y], c) == [x] + [y] && UnmatchedRows([x, y], c) == [];
    assert MatchedRows([x, y, z], c) == [x] + [y] && UnmatchedRows([x, y, z], c) == [] + [z];
  }

  /** The TestSplit example of data_test.go: Color "red" sends apple and raspberry left and pear right. */
  lemma SplitOnExample()
    ensures var name := Feature("Name", Categorical);
            var color := Feature("Color", Categorical);
            var apple := map[name := FeatureValue("apple", 0.0), color := FeatureValue("red", 0.0)];
            var raspberry := map[name := FeatureValue("raspberry", 0.0), color := FeatureValue("red", 0.0)];
            var pear := map[name := FeatureValue("pear", 0.0), color := FeatureValue("green", 0.0)];
            && MatchedRows([apple, raspberry, pear], SplitCondition(color, "red")) == [apple, raspberry]
            && UnmatchedRows([apple, raspberry, pear], SplitCondition(color, "red")) == [pear]
  {
    var name := Feature("Name", Categorical);
    var color := Feature("Color", Categorical);
    var apple := map[name := FeatureValue("apple", 0.0), color := FeatureValue("red", 0.0)];
    var raspberry := map[name := FeatureValue("raspberry", 0.0), color := FeatureValue("red", 0.0)];
    var pear := map[name := FeatureValue("pear", 0.0), color := FeatureValue("green", 0.0)];
    var c := SplitCondition(color, "red");
    assert "green" != "red" by {
      assert "green"[0] != "red"[0];
    }
    assert Matches(c, apple) && Matches(c, raspberry) && !Matches(c, pear);
    SplitThree(apple, raspberry, pear, c);
  }

  /** The column Split draws the threshold from: the feature's own column, empty when it has none. */
  function Column(values: map<Feature, seq<FeatureValue>>, f: Feature): seq<FeatureValue> {
    if f in values then values[f] else []
  }

  /**
   * Split's condition: a random feature of the list, and the string of a
   * random entry of that feature's column; rand.Intn(0) panics when there
   * is no feature or the column is empty.
   */
  function SplitConditionSpec(features: seq<Feature>, values: map<Feature, seq<FeatureValue>>,
                              src: Random.Source, site: Random.Site): (r: Result<SplitCondition, Error>)
    requires Random.Valid(src)
    ensures r.Err? <==> |features| == 0 || |Column(values, features[src.intn(site, 0, |features|)])| == 0
    ensures r.Err? ==> r.error == NothingToDraw
  {
    if |features| == 0 then Err(NothingToDraw)
    else
      var f := features[src.intn(site, 0, |features|)];
      var col := Column(values, f);
      if |col| == 0 then Err(NothingToDraw)
      else Ok(SplitCondition(f, col[src.intn(site, 1, |col|)].str))
  }

  /** The drawn feature is one of the list, and the threshold string is an entry of that feature's own column. */
  lemma SplitThresholdFromColumn(features: seq<Feature>, values: map<Feature, seq<FeatureValue>>,
                                 src: Random.Source, site: Random.Site)
    requires Random.Valid(src) && SplitConditionSpec(features, values, src, site).Ok?
    ensures var c := SplitConditionSpec(features, values, src, site).value;
            && c.feature in features && c.feature in values
            && exists k :: 0 <= k < |values[c.feature]| && values[c.feature][k].str == c.value
  {
    var f := features[src.intn(site, 0, |features|)];
    var k := src.intn(site, 1, |Column(values, f)|);
    assert values[f][k].str == SplitConditionSpec(features, values, src, site).value.value;
  }

  /**
   * One round of sample's outer loop: the rejection loop draws until an
   * index not yet copied comes up; that index is the row added.
   */
  method DrawUnseen(draws: seq<int>, pos: nat, copied: set<int>, count: nat) returns (randIdx: int, next: nat)
    requires count > 0 && SampleTraceIntended(draws, pos, copied, count).Some?
    ensures randIdx !in copied && 0 < next <= |draws| && randIdx == draws[next - 1]
    ensures SampleTraceIntended(draws, next, copied + {randIdx}, count - 1).Some?
    ensures SampleTraceIntended(draws, pos, copied, count).value
            == [randIdx] + SampleTraceIntended(draws, next, copied + {randIdx}, count - 1).value
  {
    next := pos;
    randIdx := draws[next];
    next := next + 1;
    while randIdx in copied
      invariant pos < next <= |draws| && randIdx == draws[next - 1]
      invariant SampleTraceIntended(draws, next - 1, copied, count) == SampleTraceIntended(draws, pos, copied, count)
      decreases |draws| - next
    {
      randIdx := draws[next];
      next := next + 1;
    }
  }

  // ---------------------------------------------------------------------
  // The dataset

  class DataSet {
    var features: seq<Feature>
    var values: map<Feature, seq<FeatureValue>>
    var size: int

    /** The shape every method but add relies on: each column holds `size` entries. */
    ghost predicate Valid()
      reads this
    {
      Rectangular(values, size)
    }

    ghost function Rows(): seq<Row>
      reads this
      requires Valid()
    {
      RowsOf(values, size)
    }

    /** The literal of copyNoValues: the given features, no columns yet, size 0. */
    constructor (features: seq<Feature>)
      ensures this.features == features && values == map[] && size == 0
    {
      this.features := features;
      values := map[];
      size := 0;
    }

    /**
     * add: for each feature of the row, its value appended to that
     * feature's column, panicking on a feature without a column; then the
     * size grows by one. It does not check that every feature is present.
     */
    method Add(row: Row) returns (err: Option<Error>)
      modifies this
      ensures err.Some? <==> !(row.Keys <= old(values).Keys)
      ensures err.Some? ==> err.value == UnknownFeature
      ensures err.None? ==> features == old(features) && values == AddedColumns(old(values), row) && size == old(size) + 1
    {
      ghost var columns := values;
      var pending := row.Keys;
      while pending != {}
        invariant pending <= row.Keys
        invariant features == old(features) && size == old(size)
        invariant row.Keys - pending <= columns.Keys
        invariant values == map f | f in columns :: if f in row.Keys - pending then columns[f] + [row[f]] else columns[f]
        decreases pending
      {
        var f :| f in pending;
        if f !in values {
          return Some(UnknownFeature);
        }
        values := values[f := values[f] + [row[f]]];
        pending := pending - {f};
      }
      size := size + 1;
      return None;
    }

    /** row: each feature of the columns with its column's idx-th entry. */
    method RowOf(idx: int) returns (row: Row)
      requires Valid() && 0 <= idx < size
      ensures row == Rows()[idx]
    {
      row := map[];
      var pending := values.Keys;
      while pending != {}
        invariant pending <= values.Keys
        invariant row == map f | f in values.Keys - pending :: values[f][idx]
        decreases pending
      {
        var f :| f in pending;
        row := row[f := values[f][idx]];
        pending := pending - {f};
      }
    }

    /** copyNoValues: the same feature list (shared, not copied), an empty column for each existing column, size 0. */
    method CopyNoValues() returns (cp: DataSet)
      ensures fresh(cp) && cp.features == features && cp.values == (map f | f in values :: []) && cp.size == 0
      ensures cp.Valid() && cp.Rows() == []
    {
      cp := new DataSet(features);
      var pending := values.Keys;
      while pending != {}
        invariant pending <= values.Keys
        invariant fresh(cp) && cp.features == features && cp.size == 0
        invariant cp.values == map f | f in values.Keys - pending :: []
        decreases pending
      {
        var f :| f in pending;
        cp.values := cp.values[f := []];
        pending := pending - {f};
      }
    }

    /** add of a row with exactly this dataset's features: it becomes the last row. */
    method AddWholeRow(row: Row)
      requires Valid() && row.Keys == values.Keys
      modifies this
      ensures Valid() && features == old(features) && values.Keys == old(values).Keys
      ensures Rows() == old(Rows()) + [row]
    {
      AddFullRow(values, size, row);
      var err := Add(row);
      assert err.None?;
    }

    /**
     * sample: panics when more rows are asked for than there are;
     * otherwise, per row, a rejection loop draws until an index not yet
     * copied comes up and records it, and the row at that index is added
     * (the corrected form of the second draw at data.go:92). `draws`
     * answers the rand.Intn calls in order.
     */
    method Sample(n: int, draws: seq<int>) returns (cp: DataSet?, err: Option<Error>)
      requires Valid()
      requires forall k :: 0 <= k < |draws| ==> 0 <= draws[k] < size
      requires 0 <= n <= size ==> SampleTraceIntended(draws, 0, {}, n).Some?
      ensures n > size ==> cp == null && err == Some(SizeTooLarge)
      ensures n <= size ==> err.None? && cp != null && fresh(cp) && cp.Valid() && cp.features == features
      ensures n <= size ==> cp != null && cp.values.Keys == values.Keys
      ensures 0 <= n <= size ==> cp != null && cp.Rows() == Pick(Rows(), SampleTraceIntended(draws, 0, {}, n).value)
      ensures n < 0 ==> cp != null && cp.Rows() == []
    {
      if n > size {
        return null, Some(SizeTooLarge);
      }
      cp := CopyNoValues();
      if n < 0 {
        return cp, None;
      }
      ghost var trace := SampleTraceIntended(draws, 0, {}, n).value;
      ghost var rows := Rows();
      ghost var added: seq<int> := [];
      var copied: set<int> := {};
      var next := 0;
      var i := 0;
      while i < n
        invariant 0 <= i <= n && 0 <= next
        invariant fresh(cp) && cp.Valid() && cp.features == features && cp.values.Keys == values.Keys
        invariant SampleTraceIntended(draws, next, copied, n - i).Some?
        invariant added + SampleTraceIntended(draws, next, copied, n - i).value == trace
        invariant forall k :: 0 <= k < |added| ==> 0 <= added[k] < |rows|
        invariant cp.Rows() == Pick(rows, added)
      {
        var randIdx, after := DrawUnseen(draws, next, copied, n - i);
        ghost var rest := SampleTraceIntended(draws, after, copied + {randIdx}, n - i - 1).value;
        SeqAssoc(added, [randIdx], rest);
        PickSnoc(rows, added, randIdx);
        copied := copied + {randIdx};
        next := after;
        var row := RowOf(randIdx);
        added := added + [randIdx];
        cp.AddWholeRow(row);
        i := i + 1;
      }
      return cp, None;
    }

    /**
     * splitOn: two datasets started from copyNoValues; each row goes to
     * the first when its string under the condition's feature equals the
     * condition's string, to the second otherwise.
     */
    method SplitOn(c: SplitCondition) returns (matched: DataSet, notMatches: DataSet)
      requires Valid()
      ensures fresh(matched) && fresh(notMatches) && matched != notMatches
      ensures matched.Valid() && matched.features == features && matched.values.Keys == values.Keys
      ensures notMatches.Valid() && notMatches.features == features && notMatches.values.Keys == values.Keys
      ensures matched.Rows() == MatchedRows(Rows(), c) && notMatches.Rows() == UnmatchedRows(Rows(), c)
    {
      matched := CopyNoValues();
      notMatches := CopyNoValues();
      for i := 0 to size
        invariant fresh(matched) && fresh(notMatches) && matched != notMatches
        invariant matched.Valid() && matched.features == features && matched.values.Keys == values.Keys
        invariant notMatches.Valid() && notMatches.features == features && notMatches.values.Keys == values.Keys
        invariant matched.Rows() == MatchedRows(Rows()[..i], c)
        invariant notMatches.Rows() == UnmatchedRows(Rows()[..i], c)
      {
        RouteRow(c, i, matched, notMatches);
      }
      assert Rows()[..size] == Rows();
    }

    /** One pass of splitOn's loop: row i joins the side its condition picks. */
    method RouteRow(c: SplitCondition, i: int, matched: DataSet, notMatches: DataSet)
      requires Valid() && 0 <= i < size
      requires matched != notMatches && matched != this && notMatches != this
      requires matched.Valid() && matched.values.Keys == values.Keys
      requires notMatches.Valid() && notMatches.values.Keys == values.Keys
      requires matched.Rows() == MatchedRows(Rows()[..i], c)
      requires notMatches.Rows() == UnmatchedRows(Rows()[..i], c)
      modifies matched, notMatches
      ensures matched.Valid() && matched.features == old(matched.features) && matched.values.Keys == values.Keys
      ensures notMatches.Valid() && notMatches.features == old(notMatches.features) && notMatches.values.Keys == values.Keys
      ensures matched.Rows() == MatchedRows(Rows()[..i + 1], c)
      ensures notMatches.Rows() == UnmatchedRows(Rows()[..i + 1], c)
    {
      assert Rows()[..i + 1][..i] == Rows()[..i];
      var row := RowOf(i);
      if Matches(c, row) {
        matched.AddWholeRow(row);
      } else {
        notMatches.AddWholeRow(row);
      }
    }

    /** Split: the drawn condition (or the rand.Intn(0) panic, an error here), then splitOn. */
    method Split(src: Random.Source, site: Random.Site)
      returns (res: Result<SplitCondition, Error>, matched: DataSet?, notMatches: DataSet?)
      requires Valid() && Random.Valid(src)
      ensures res == SplitConditionSpec(features, values, src, site)
      ensures res.Err? ==> matched == null && notMatches == null
      ensures res.Ok? ==> && matched != null && notMatches != null
                          && fresh(matched) && fresh(notMatches) && matched != notMatches
                          && matched.Valid() && matched.features == features && matched.values.Keys == values.Keys
                          && notMatches.Valid() && notMatches.features == features && notMatches.values.Keys == values.Keys
                          && matched.Rows() == MatchedRows(Rows(), res.value)
                          && notMatches.Rows() == UnmatchedRows(Rows(), res.value)
    {
      if |features| == 0 {
        return Err(NothingToDraw), null, null;
      }
      var feature := features[src.intn(site, 0, |features|)];
      var col := if feature in values then values[feature] else [];
      if |col| == 0 {
        return Err(NothingToDraw), null, null;
      }
      var condition := SplitCondition(feature, col[src.intn(site, 1, |col|)].str);
      matched, notMatches := SplitOn(condition);
      res := Ok(condition);
    }
  }
}
