/**
 * The columnar dataset of dataset.go as a class: an attribute list, one
 * column of values per attribute and a row count, updated in place. Every
 * method is specified against the value-level model in DataSetSpec through
 * `Model()`, the table of rows the columns materialize.
 */
module DataSets {
  import opened Wrappers
  import opened Seqs
  import opened DataSetSpec
  import Random

  class DataSet {
    var attributes: seq<Attribute>
    var values: map<Attribute, seq<AttributeValue>>
    var size: int

    /** Each attribute declared once, one column per attribute, every column `size` long. */
    ghost predicate Valid()
      reads this
    {
      && Distinct(attributes)
      && values.Keys == Elements(attributes)
      && size >= 0
      && forall a :: a in values ==> |values[a]| == size
    }

    /** The rows the columns hold, in index order. */
    ghost function Rows(): seq<Row>
      reads this
      requires Valid()
    {
      RowsOf(values, size)
    }

    /** The abstract value: the schema and the rows. */
    ghost function Model(): (t: Table)
      reads this
      requires Valid()
      ensures |t.rows| == size
    {
      Table(attributes, Rows())
    }

    /** A valid dataset is a well-formed table: every row carries exactly the declared attributes. */
    lemma ModelWellFormed()
      requires Valid()
      ensures WellFormed(Model())
    {
      forall r | r in Rows() ensures r.Keys == Elements(attributes) {
        var k :| 0 <= k < size && Rows()[k] == r;
      }
    }

    /** NewDataSet: no attributes, no rows. */
    constructor ()
      ensures Valid() && Model() == Table([], [])
    {
      attributes := [];
      values := map[];
      size := 0;
    }

    /**
     * AddRow: panics (an error here) when a declared attribute is missing
     * from the row, then appends each entry of the row to its column,
     * panicking on an entry whose attribute has no column.
     */
    method AddRow(row: Row) returns (err: Option<Error>)
      requires Valid()
      modifies this
      ensures err.None? <==> AppendRow(old(Model()), row).Ok?
      ensures err.None? ==> Valid() && Model() == AppendRow(old(Model()), row).value
      ensures err.Some? ==> err.value == AppendRow(old(Model()), row).error
    {
      for i := 0 to |attributes|
        invariant forall k :: 0 <= k < i ==> attributes[k] in row
      {
        if attributes[i] !in row {
          return Some(MissingAttribute);
        }
      }
      ghost var columns := values;
      var pending := row.Keys;
      while pending != {}
        invariant pending <= row.Keys
        invariant attributes == old(attributes) && size == old(size)
        invariant values.Keys == columns.Keys
        invariant forall a :: a in row && a !in pending ==> a in columns
        invariant forall a :: a in values ==>
                    values[a] == columns[a] + (if a in row && a !in pending then [row[a]] else [])
        decreases pending
      {
        var feature :| feature in pending;
        if feature !in values {
          return Some(UnknownAttribute);
        }
        values := values[feature := values[feature] + [row[feature]]];
        pending := pending - {feature};
      }
      size := size + 1;
      RowsOfAppend(columns, size - 1, row, values);
      return None;
    }

    /** GetRow: the row at `idx`, taken from every column. */
    method GetRow(idx: int) returns (row: Row)
      requires Valid() && 0 <= idx < size
      ensures row == Rows()[idx]
      ensures row.Keys == Elements(attributes)
    {
      row := map[];
      var pending := values.Keys;
      while pending != {}
        invariant pending <= values.Keys
        invariant row.Keys == values.Keys - pending
        invariant forall a :: a in row ==> row[a] == values[a][idx]
        decreases pending
      {
        var attr :| attr in pending;
        row := row[attr := values[attr][idx]];
        pending := pending - {attr};
      }
    }

    /**
     * GetRowWithNames: the row at `idx` keyed by attribute name. When two
     * attributes share a name, which value wins depends on map iteration
     * order; with unique names it is the by-name view of the row.
     */
    method GetRowWithNames(idx: int) returns (row: NamedRow)
      requires Valid() && 0 <= idx < size
      ensures row.Keys == Names(attributes)
      ensures UniqueNames(attributes) ==> row == ByName(attributes, Rows()[idx])
    {
      row := map[];
      var pending := values.Keys;
      while pending != {}
        invariant pending <= values.Keys
        invariant forall a :: a in values && a !in pending ==> a.name in row
        invariant forall n :: n in row ==> n in Names(attributes)
        invariant UniqueNames(attributes) ==>
                    forall a :: a in values && a !in pending ==> row[a.name] == values[a][idx]
        decreases pending
      {
        var attr :| attr in pending;
        if UniqueNames(attributes) {
          forall a | a in values && a !in pending && a.name == attr.name ensures a == attr {
            UniqueNamesEq(attributes, a, attr);
          }
        }
        row := row[attr.name := values[attr][idx]];
        pending := pending - {attr};
      }
      forall n | n in Names(attributes) ensures n in row {
        var a :| a in attributes && a.name == n;
      }
      if UniqueNames(attributes) {
        forall a | a in attributes ensures row[a.name] == Lookup(Rows()[idx], a) {
          RowsOfEntry(values, size, idx, a);
        }
        ByNameEq(attributes, Rows()[idx], row);
      }
    }

    /** CopyNoValues: the same attributes, an empty column for each, no rows. */
    method CopyNoValues() returns (cp: DataSet)
      requires Valid()
      ensures fresh(cp) && cp.Valid() && cp.Model() == Table(attributes, [])
    {
      var attrs: seq<Attribute> := [];
      var columns: map<Attribute, seq<AttributeValue>> := map[];
      for i := 0 to |attributes|
        invariant attrs == attributes[..i]
        invariant columns.Keys == Elements(attrs)
        invariant forall a :: a in columns ==> columns[a] == []
      {
        attrs := attrs + [attributes[i]];
        columns := columns[attributes[i] := []];
      }
      assert attributes[..|attributes|] == attributes;
      cp := new DataSet();
      cp.attributes := attrs;
      cp.values := columns;
      cp.size := 0;
    }

    /** Copy: CopyNoValues, then every row added in order. */
    method Copy() returns (cp: DataSet)
      requires Valid()
      ensures fresh(cp) && cp.Valid() && cp.Model() == Model()
    {
      cp := CopyNoValues();
      for i := 0 to size
        invariant fresh(cp) && cp.Valid()
        invariant cp.Model() == Table(attributes, Rows()[..i])
      {
        var row := GetRow(i);
        assert Rows()[..i + 1] == Rows()[..i] + [row];
        var err := cp.AddRow(row);
        assert err.None?;
      }
      assert Rows()[..size] == Rows();
    }

    /**
     * Filter: a copy holding the rows whose by-name view satisfies `f`,
     * in their original order.
     */
    method Filter(f: NamedRow -> bool) returns (cp: DataSet)
      requires Valid()
      ensures fresh(cp) && cp.Valid() && cp.attributes == attributes
      ensures forall r :: r in cp.Rows() ==> r in Rows()
      ensures UniqueNames(attributes) ==> cp.Rows() == FilterByName(attributes, Rows(), f)
    {
      cp := CopyNoValues();
      for i := 0 to size
        invariant fresh(cp) && cp.Valid() && cp.attributes == attributes
        invariant forall r :: r in cp.Rows() ==> r in Rows()
        invariant UniqueNames(attributes) ==> cp.Rows() == FilterByName(attributes, Rows()[..i], f)
      {
        var named := GetRowWithNames(i);
        assert Rows()[..i + 1][..i] == Rows()[..i];
        if f(named) {
          var row := GetRow(i);
          var err := cp.AddRow(row);
          assert err.None?;
        }
      }
      assert Rows()[..size] == Rows();
    }

    /** Limit: a copy holding the first n rows, all of them when n exceeds the size, none when n is negative. */
    method Limit(n: int) returns (cp: DataSet)
      requires Valid()
      ensures fresh(cp) && cp.Valid() && cp.Model() == Table(attributes, Rows()[..Clamp(n, size)])
    {
      cp := CopyNoValues();
      var m := n;
      if m > size {
        m := size;
      }
      ghost var rows := Rows();
      var i := 0;
      while i < m
        invariant 0 <= i <= Clamp(n, size)
        invariant fresh(cp) && cp.Valid()
        invariant cp.Model() == Table(attributes, rows[..i])
      {
        var row := GetRow(i);
        assert rows[..i + 1] == rows[..i] + [row];
        var err := cp.AddRow(row);
        assert err.None?;
        i := i + 1;
      }
    }

    /**
     * One pass of Sample's loop: the rejection loop finds the next index not
     * yet copied, and its row is appended to the copy `cp`.
     */
    method AddDrawnRow(cp: DataSet, draws: seq<int>, next: nat, copied: set<int>, ghost picked: seq<int>)
      returns (randIdx: int, next': nat)
      requires Valid() && cp.Valid() && cp != this && cp.attributes == attributes
      requires forall k :: 0 <= k < |draws| ==> 0 <= draws[k] < size
      requires next <= |draws| && copied == Elements(draws[..next]) && picked == Dedup(draws[..next])
      requires |picked| < |Dedup(draws)|
      requires forall k :: 0 <= k < |picked| ==> 0 <= picked[k] < size
      requires cp.Rows() == Pick(Rows(), picked)
      modifies cp
      ensures next < next' <= |draws| && 0 <= randIdx < size
      ensures Elements(draws[..next']) == copied + {randIdx} && Dedup(draws[..next']) == picked + [randIdx]
      ensures cp.Valid() && cp.attributes == attributes
      ensures cp.Rows() == Pick(Rows(), picked + [randIdx])
    {
      DistinctCard(picked);
      DistinctCard(Dedup(draws));
      FreshLater(draws, next);
      randIdx, next' := DrawUnseen(draws, next, copied);
      var row := GetRow(randIdx);
      PickSnoc(Rows(), picked, randIdx);
      var err := cp.AddRow(row);
      assert err.None?;
    }

    /**
     * Sample: min(n, size) rows drawn without replacement. Each rand.Intn
     * call of the rejection loop takes the next entry of `draws`; an index
     * already copied is drawn again.
     */
    method Sample(n: int, draws: seq<int>) returns (cp: DataSet)
      requires Valid() && SampleDraws(size, n, draws)
      ensures fresh(cp) && cp.Valid() && cp.Model() == Table(attributes, SampleRows(Rows(), n, draws))
    {
      var m := n;
      if m > size {
        m := size;
      }
      cp := CopyNoValues();
      ghost var picked: seq<int> := [];
      var copied: set<int> := {};
      var next := 0;
      var i := 0;
      while i < m
        invariant 0 <= i <= Clamp(n, size)
        invariant 0 <= next <= |draws|
        invariant copied == Elements(draws[..next])
        invariant picked == Dedup(draws[..next]) && |picked| == i
        invariant forall k :: 0 <= k < |picked| ==> 0 <= picked[k] < size
        invariant fresh(cp) && cp.Valid() && cp.attributes == attributes
        invariant cp.Rows() == Pick(Rows(), picked)
      {
        var randIdx;
        randIdx, next := AddDrawnRow(cp, draws, next, copied, picked);
        copied := copied + {randIdx};
        picked := picked + [randIdx];
        i := i + 1;
      }
      DedupPrefix(draws, next);
    }

    /**
     * The swap callback of Shuffle: exchanges entries i and j of every
     * column, which exchanges rows i and j.
     */
    method SwapRows(i: int, j: int)
      requires Valid() && 0 <= i < size && 0 <= j < size
      modifies this
      ensures Valid() && attributes == old(attributes) && size == old(size)
      ensures Rows() == Swap(old(Rows()), i, j)
    {
      ghost var columns := values;
      for k := 0 to |attributes|
        invariant attributes == old(attributes) && size == old(size)
        invariant values.Keys == columns.Keys
        invariant forall a :: a in values ==>
                    values[a] == if a in attributes[..k] then Swap(columns[a], i, j) else columns[a]
      {
        var attr := attributes[k];
        assert attributes[..k + 1] == attributes[..k] + [attr];
        assert attr !in attributes[..k];
        var col := values[attr];
        values := values[attr := col[i := col[j]][j := col[i]]];
      }
      assert attributes[..|attributes|] == attributes;
      RowsOfSwap(columns, size, i, j, values);
    }

    /**
     * The Fisher-Yates pass of rand.Shuffle, in place: for i from the last
     * position down to 1, rows i and intn(i + 1) are exchanged.
     */
    method ShuffleInPlace(src: Random.Source, site: Random.Site)
      requires Valid() && Random.Valid(src)
      modifies this
      ensures Valid() && attributes == old(attributes) && size == old(size)
      ensures Rows() == FisherYates(old(Rows()), size - 1, src, site)
    {
      ghost var target := FisherYates(Rows(), size - 1, src, site);
      var i := size - 1;
      while i > 0
        invariant i < size
        invariant Valid() && attributes == old(attributes) && size == old(size)
        invariant FisherYates(Rows(), i, src, site) == target
      {
        var j := src.intn(site, i, i + 1);
        ghost var before := Rows();
        SwapRows(i, j);
        FisherYatesStep(before, i, src, site);
        i := i - 1;
      }
      assert FisherYates(Rows(), i, src, site) == Rows();
    }

    /**
     * Shuffle: a copy whose rows are permuted by rand.Shuffle's Fisher-Yates
     * pass, from the last position down to 1.
     */
    method Shuffle(src: Random.Source, site: Random.Site) returns (cp: DataSet)
      requires Valid() && Random.Valid(src)
      ensures fresh(cp) && cp.Valid() && cp.Model() == Table(attributes, FisherYates(Rows(), size - 1, src, site))
    {
      cp := Copy();
      assert cp.Rows() == Rows();
      cp.ShuffleInPlace(src, site);
    }

    /**
     * The inner loop of Merge: AddRow for every row of `other`, in order,
     * stopping at the first panic.
     */
    method AddRowsOf(other: DataSet) returns (err: Option<Error>)
      requires Valid() && other.Valid() && other != this
      modifies this
      ensures err.None? <==> AppendRows(old(Model()), other.Rows()).Ok?
      ensures err.None? ==> Valid() && Model() == AppendRows(old(Model()), other.Rows()).value
      ensures err.Some? ==> err.value == AppendRows(old(Model()), other.Rows()).error
    {
      ghost var acc := Model();
      ghost var rs := other.Rows();
      for k := 0 to other.size
        invariant Valid()
        invariant AppendRows(acc, rs[..k]) == Ok(Model())
      {
        var row := other.GetRow(k);
        assert rs[..k + 1][..k] == rs[..k];
        err := AddRow(row);
        if err.Some? {
          AppendRowsErrStays(acc, rs[..k + 1], rs[k + 1..]);
          assert rs == rs[..k + 1] + rs[k + 1..];
          return err;
        }
      }
      assert rs[..other.size] == rs;
      return None;
    }

    /** The body of Merge's loop: argument i's names checked against this dataset's, then its rows added to `cp`. */
    method MergeArgument(cp: DataSet, toMerge: DataSet, i: nat) returns (err: Option<Error>)
      requires Valid() && cp.Valid() && toMerge.Valid() && cp != toMerge && cp != this
      modifies cp
      ensures err.None? <==> DataSetSpec.MergeArgument(Model(), old(cp.Model()), toMerge.Model(), i).Ok?
      ensures err.None? ==> cp.Valid() && cp.Model() == DataSetSpec.MergeArgument(Model(), old(cp.Model()), toMerge.Model(), i).value
      ensures err.Some? ==> err.value == DataSetSpec.MergeArgument(Model(), old(cp.Model()), toMerge.Model(), i).error
    {
      var missing := AttributesEqual(toMerge);
      if |missing| > 0 {
        return Some(AttributesNotEqual(i, missing));
      }
      err := cp.AddRowsOf(toMerge);
    }

    /**
     * Merge: a copy with the rows of every argument appended in argument
     * order; fails at the first argument whose attribute names differ, and
     * panics (an error here) when AddRow does.
     */
    method Merge(others: seq<DataSet>) returns (cp: DataSet?, err: Option<Error>)
      requires Valid() && AllValid(others)
      // Nothing but the fresh copy changes; the spec is read in the initial state.
      ensures err.None? <==> MergeSpec(old(Model()), old(Models(others))).Ok?
      ensures err.None? ==> cp != null && fresh(cp) && cp.Valid() && cp.Model() == MergeSpec(old(Model()), old(Models(others))).value
      ensures err.Some? ==> cp == null && err.value == MergeSpec(old(Model()), old(Models(others))).error
    {
      ghost var t := Model();
      ghost var ms := Models(others);
      var copy := Copy();
      for i := 0 to |others|
        invariant fresh(copy) && copy.Valid()
        invariant forall k :: 0 <= k < |others| ==> others[k].Valid() && others[k].Model() == ms[k]
        invariant MergeSpec(t, ms[..i]) == Ok(copy.Model())
      {
        assert others[i].Valid() && others[i].Model() == ms[i];
        ghost var step := DataSetSpec.MergeArgument(t, copy.Model(), ms[i], i);
        MergeStep(t, ms, i, copy.Model());
        err := MergeArgument(copy, others[i], i);
        if err.Some? {
          assert step.Err? && err.value == step.error;
          MergePrefixErr(t, ms, i + 1);
          assert MergeSpec(t, ms) == step;
          return null, err;
        }
        assert step == Ok(copy.Model());
      }
      assert ms[..|others|] == ms;
      return copy, None;
    }

    /** attributeSet: each attribute name mapped to the last attribute declared with it. */
    method AttributeSet() returns (m: map<string, Attribute>)
      ensures m == DataSetSpec.AttributeSet(attributes)
    {
      m := map[];
      for i := 0 to |attributes|
        invariant m == DataSetSpec.AttributeSet(attributes[..i])
      {
        assert attributes[..i + 1][..i] == attributes[..i];
        m := m[attributes[i].name := attributes[i]];
      }
      assert attributes[..|attributes|] == attributes;
    }

    /** containsAttributes: an error naming the first name that no attribute carries. */
    method ContainsAttributes(names: seq<string>) returns (err: Option<Error>)
      ensures err.None? <==> forall k :: 0 <= k < |names| ==> names[k] in Names(attributes)
      ensures err.Some? ==> err == Some(AttributeNotFound(FirstUnknown(names, Names(attributes)).value))
    {
      var known := AttributeSet();
      for i := 0 to |names|
        invariant forall k :: 0 <= k < i ==> names[k] in known
      {
        if names[i] !in known {
          ghost var r := FirstUnknown(names, Names(attributes));
          ghost var j :| 0 <= j < |names| && names[j] == r.value && r.value !in Names(attributes)
                         && forall l :: 0 <= l < j ==> names[l] in Names(attributes);
          return Some(AttributeNotFound(names[i]));
        }
      }
      return None;
    }

    /** attributesEqual: the names declared by one of the two datasets but not by the other. */
    method AttributesEqual(other: DataSet) returns (missing: set<string>)
      ensures missing == SymmetricDifference(Names(attributes), Names(other.attributes))
    {
      var mine := AttributeSet();
      var theirs := other.AttributeSet();
      missing := {};
      var pending := mine.Keys;
      while pending != {}
        invariant pending <= mine.Keys
        invariant missing == (mine.Keys - pending) - theirs.Keys
        decreases pending
      {
        var name :| name in pending;
        if name !in theirs {
          missing := missing + {name};
        }
        pending := pending - {name};
      }
      ghost var fromMine := missing;
      pending := theirs.Keys;
      while pending != {}
        invariant pending <= theirs.Keys
        invariant missing == fromMine + ((theirs.Keys - pending) - mine.Keys)
        decreases pending
      {
        var name :| name in pending;
        if name !in mine {
          missing := missing + {name};
        }
        pending := pending - {name};
      }
    }

    /** One pass of the schema loop of Excluding: attribute `attr` appended with an empty column. */
    method AddEmptyColumn(attr: Attribute)
      modifies this
      ensures attributes == old(attributes) + [attr] && values == old(values)[attr := []] && size == old(size)
    {
      attributes := attributes + [attr];
      values := values[attr := []];
    }

    /** The schema half of Excluding: a dataset with the attributes whose names are not excluded, no rows. */
    method EmptyWithout(excludeSet: set<string>) returns (cp: DataSet)
      requires Valid()
      ensures fresh(cp) && cp.Valid() && cp.Model() == Table(Without(attributes, excludeSet), [])
    {
      cp := new DataSet();
      for i := 0 to |attributes|
        invariant fresh(cp) && cp.size == 0
        invariant cp.attributes == Without(attributes[..i], excludeSet)
        invariant cp.values.Keys == Elements(cp.attributes)
        invariant forall a :: a in cp.values ==> cp.values[a] == []
      {
        var attr := attributes[i];
        assert attributes[..i + 1][..i] == attributes[..i];
        if attr.name !in excludeSet {
          cp.AddEmptyColumn(attr);
        }
      }
      assert attributes[..|attributes|] == attributes;
    }

    /** The row half of Excluding: row i without the excluded attributes. */
    method RowWithout(i: int, excludeSet: set<string>) returns (newRow: Row)
      requires Valid() && 0 <= i < size
      ensures newRow == RestrictRow(Rows()[i], excludeSet)
    {
      var row := GetRow(i);
      newRow := map[];
      for k := 0 to |attributes|
        invariant forall a :: a in newRow <==> a in attributes[..k] && a.name !in excludeSet
        invariant forall a :: a in newRow ==> a in row && newRow[a] == row[a]
      {
        var feature := attributes[k];
        assert attributes[..k + 1] == attributes[..k] + [feature];
        if feature.name !in excludeSet {
          newRow := newRow[feature := row[feature]];
        }
      }
      assert attributes[..|attributes|] == attributes;
    }

    /** The copying half of Excluding: every row without the excluded attributes, under the reduced schema. */
    method CopyWithout(excludeSet: set<string>) returns (cp: DataSet)
      requires Valid()
      ensures fresh(cp) && cp.Valid()
      ensures cp.Model() == Table(Without(attributes, excludeSet), RestrictRows(Rows(), excludeSet))
    {
      cp := EmptyWithout(excludeSet);
      ghost var kept := cp.attributes;
      ghost var restricted := RestrictRows(Rows(), excludeSet);
      for i := 0 to size
        invariant fresh(cp) && cp.Valid() && cp.attributes == kept
        invariant cp.Rows() == restricted[..i]
      {
        var newRow := RowWithout(i, excludeSet);
        assert newRow == restricted[i];
        var e := cp.AddRow(newRow);
        assert e.None?;
        assert restricted[..i + 1] == restricted[..i] + [newRow];
      }
      assert restricted[..size] == restricted;
    }

    /**
     * Excluding: a dataset without the named attributes. Fails on a name no
     * attribute carries, and when no attribute would remain (the corrected
     * form of the count comparison at dataset.go:305).
     */
    method Excluding(names: seq<string>) returns (cp: DataSet?, err: Option<Error>)
      requires Valid()
      ensures err.None? <==> ExcludingIntended(Model(), names).Ok?
      ensures err.None? ==> cp != null && fresh(cp) && cp.Valid() && cp.Model() == ExcludingIntended(Model(), names).value
      ensures err.Some? ==> cp == null && err.value == ExcludingIntended(Model(), names).error
    {
      err := ContainsAttributes(names);
      if err.Some? {
        return null, err;
      }
      var excludeSet: set<string> := {};
      for i := 0 to |names|
        invariant excludeSet == Elements(names[..i])
      {
        assert names[..i + 1] == names[..i] + [names[i]];
        excludeSet := excludeSet + {names[i]};
      }
      assert names[..|names|] == names;
      var allExcluded := true;
      for i := 0 to |attributes|
        invariant allExcluded <==> forall k :: 0 <= k < i ==> attributes[k].name in excludeSet
      {
        if attributes[i].name !in excludeSet {
          allExcluded := false;
        }
      }
      if allExcluded {
        WithoutAll(attributes, excludeSet);
        return null, Some(CannotExcludeAll);
      }
      ghost var k :| 0 <= k < |attributes| && attributes[k].name !in excludeSet;
      assert attributes[k] in Without(attributes, excludeSet);
      var res := CopyWithout(excludeSet);
      return res, None;
    }

    /** splitOn: two copies, one with the rows that match the condition and one with the rest, in order. */
    method SplitOn(c: SplitCondition) returns (matched: DataSet, notMatched: DataSet)
      requires Valid()
      ensures fresh(matched) && fresh(notMatched) && matched != notMatched
      ensures matched.Valid() && matched.Model() == Table(attributes, MatchedRows(Rows(), c))
      ensures notMatched.Valid() && notMatched.Model() == Table(attributes, UnmatchedRows(Rows(), c))
    {
      matched := CopyNoValues();
      notMatched := CopyNoValues();
      for i := 0 to size
        invariant fresh(matched) && fresh(notMatched) && matched != notMatched
        invariant matched.Valid() && matched.Model() == Table(attributes, MatchedRows(Rows()[..i], c))
        invariant notMatched.Valid() && notMatched.Model() == Table(attributes, UnmatchedRows(Rows()[..i], c))
      {
        var row := GetRow(i);
        assert Rows()[..i + 1][..i] == Rows()[..i];
        var err: Option<Error>;
        if Check(c, Lookup(row, c.attribute)) {
          err := matched.AddRow(row);
        } else {
          err := notMatched.AddRow(row);
        }
        assert err.None?;
      }
      assert Rows()[..size] == Rows();
    }

    /**
     * The first half of Split: an attribute drawn among those not excluded,
     * then a threshold for it, an entry of its column or a point between its
     * minimum and maximum. None when every attribute is excluded.
     */
    method DrawCondition(exclude: map<Attribute, bool>, src: Random.Source, site: Random.Site)
      returns (condition: Option<SplitCondition>)
      requires Valid() && Random.Valid(src) && (size > 0 || Splittable(attributes, exclude) == [])
      ensures condition == ChooseCondition(Model(), exclude, src, site)
    {
      var splittable: seq<Attribute> := [];
      for i := 0 to |attributes|
        invariant splittable == Splittable(attributes[..i], exclude)
      {
        assert attributes[..i + 1][..i] == attributes[..i];
        if attributes[i] !in exclude {
          splittable := splittable + [attributes[i]];
        }
      }
      assert attributes[..|attributes|] == attributes;
      if |splittable| == 0 {
        return None;
      }
      ghost var t := Model();
      var splitAttr := splittable[src.intn(site, 0, |splittable|)];
      if splitAttr.kind == Categorical {
        var col := values[splitAttr];
        var k := src.intn(site, 1, |col|);
        RowsOfEntry(values, size, k, splitAttr);
        assert CategoricalThreshold(t.rows, splitAttr, k) == col[k].str;
        condition := Some(SplitCondition(splitAttr, col[k].str, 0.0));
      } else {
        NumColumnOfColumns(values, size, splitAttr);
        var lo, hi := ColumnRange(values[splitAttr]);
        var f := src.float64(site);
        ThresholdIs(t.rows, splitAttr, f, lo, hi);
        condition := Some(SplitCondition(splitAttr, "", Interpolate(lo, hi, f)));
      }
    }

    /** Split: NotSplittable when every attribute is excluded, else the drawn condition and the two sides of splitOn. */
    method Split(exclude: map<Attribute, bool>, src: Random.Source, site: Random.Site)
      returns (res: Result<SplitCondition, Error>, matched: DataSet?, notMatched: DataSet?)
      requires Valid() && Random.Valid(src) && (size > 0 || Splittable(attributes, exclude) == [])
      ensures res.Err? <==> SplitSpec(Model(), exclude, src, site).Err?
      ensures res.Err? ==> res.error == NotSplittable && matched == null && notMatched == null
      ensures res.Ok? ==>
                var spec := SplitSpec(Model(), exclude, src, site).value;
                && res.value == spec.condition
                && matched != null && notMatched != null
                && fresh(matched) && fresh(notMatched) && matched != notMatched
                && matched.Valid() && matched.Model() == spec.matched
                && notMatched.Valid() && notMatched.Model() == spec.notMatched
    {
      var condition := DrawCondition(exclude, src, site);
      if condition.None? {
        return Err(NotSplittable), null, null;
      }
      matched, notMatched := SplitOn(condition.value);
      return Ok(condition.value), matched, notMatched;
    }
  }

  /** The least and the greatest number of a non-empty column (the min/max loop of Split). */
  method ColumnRange(col: seq<AttributeValue>) returns (lo: real, hi: real)
    requires |col| > 0
    ensures lo == Lowest(Nums(col)) && hi == Highest(Nums(col))
  {
    ghost var c := Nums(col);
    lo, hi := col[0].num, col[0].num;
    for i := 1 to |col|
      invariant lo == Lowest(c[..i]) && hi == Highest(c[..i])
    {
      ExtremesStep(c, i);
      if col[i].num < lo {
        lo := col[i].num;
      }
      if col[i].num > hi {
        hi := col[i].num;
      }
    }
    assert c[..|col|] == c;
  }

  /**
   * The rejection loop of Sample: draws from position `next` on until an
   * index not yet copied comes up. The draw stream must hold such an index.
   */
  method DrawUnseen(draws: seq<int>, next: nat, copied: set<int>) returns (randIdx: int, next': nat)
    requires next <= |draws| && copied == Elements(draws[..next])
    requires exists j :: next <= j < |draws| && draws[j] !in copied
    ensures next < next' <= |draws| && randIdx == draws[next' - 1] && randIdx !in copied
    ensures Elements(draws[..next']) == copied + {randIdx}
    ensures Dedup(draws[..next']) == Dedup(draws[..next]) + [randIdx]
  {
    ghost var unseen :| next <= unseen < |draws| && draws[unseen] !in copied;
    next' := next;
    var idxValid := false;
    randIdx := 0;
    while !idxValid
      invariant next <= next' <= |draws|
      invariant !idxValid ==> next' <= unseen
      invariant !idxValid ==> forall k :: next <= k < next' ==> draws[k] in copied
      invariant idxValid ==> next < next' && randIdx == draws[next' - 1] && randIdx !in copied
      invariant idxValid ==> forall k :: next <= k < next' - 1 ==> draws[k] in copied
      decreases |draws| - next'
    {
      randIdx := draws[next'];
      next' := next' + 1;
      idxValid := randIdx !in copied;
    }
    SeenTail(draws, next, next' - 1);
    DedupTake(draws, next' - 1);
  }

  /** Every dataset of the sequence is valid. */
  ghost predicate AllValid(ds: seq<DataSet>)
    reads set d | d in ds
  {
    forall k :: 0 <= k < |ds| ==> ds[k].Valid()
  }

  /** The abstract values of a sequence of datasets. */
  ghost function Models(ds: seq<DataSet>): (ts: seq<Table>)
    reads set d | d in ds
    requires AllValid(ds)
    ensures |ts| == |ds| && forall k :: 0 <= k < |ds| ==> ts[k] == ds[k].Model()
  {
    if ds == [] then []
    else
      var front := ds[..|ds| - 1];
      assert forall k :: 0 <= k < |front| ==> front[k] == ds[k];
      Models(front) + [ds[|ds| - 1].Model()]
  }
}
