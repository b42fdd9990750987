/**
 * The row store behind every table: one array of rows, replaced as a whole
 * by each mutator, sorted by `name` when it is set or pushed to.
 */
module TableData {

  import opened Types
  import opened JsString
  import opened Utils

  /** The property the store sorts by. */
  function NameOf(r: Row): string { r.name }

  function SortByName(s: seq<Row>): seq<Row> { StableSort(s, NameOf) }

  ghost predicate SortedByName(s: seq<Row>) { SortedBy(s, NameOf) }

  // ---------------------------------------------------------------------
  // The array operations the store applies
  // ---------------------------------------------------------------------

  /** `filter(place => place._id !== id)` */
  function WithoutId(s: seq<Row>, id: string): (r: seq<Row>)
    ensures |r| <= |s|
    ensures forall i :: 0 <= i < |r| ==> r[i].id != id
    decreases |s|
  {
    if s == [] then []
    else (if s[0].id == id then [] else [s[0]]) + WithoutId(s[1..], id)
  }

  /** `map(place => (place._id === id ? data : place))` */
  function ReplaceId(s: seq<Row>, id: string, data: Row): (r: seq<Row>)
    ensures |r| == |s|
    ensures forall i :: 0 <= i < |s| ==> r[i] == if s[i].id == id then data else s[i]
    decreases |s|
  {
    if s == [] then []
    else [if s[0].id == id then data else s[0]] + ReplaceId(s[1..], id, data)
  }

  /** `find(place => place._id === id)` */
  function Find(s: seq<Row>, id: string): (r: Option<Row>)
    ensures r.None? <==> forall x :: x in s ==> x.id != id
    ensures r.Some? ==> r.value.id == id
    ensures r.Some? ==> exists k :: 0 <= k < |s| && s[k] == r.value && forall j :: 0 <= j < k ==> s[j].id != id
    decreases |s|
  {
    if s == [] then None
    else if s[0].id == id then Some(s[0])
    else
      var r := Find(s[1..], id);
      if r.Some? then
        var k :| 0 <= k < |s[1..]| && s[1..][k] == r.value && forall j :: 0 <= j < k ==> s[1..][j].id != id;
        assert s[k + 1] == r.value;
        r
      else r
  }

  /**
   * The row-click city lookup: the first listed city whose id equals the
   * `_id` of the row's `cityId`. Only an embedded city has an `_id`; for a
   * bare id string or no city the comparison is with undefined and finds nothing.
   */
  function FindCity(cityList: seq<Row>, ref: CityRef): (r: Option<Row>)
    ensures !ref.Embedded? ==> r.None?
    ensures ref.Embedded? ==> r == Find(cityList, ref.id)
    ensures r.Some? ==> r.value in cityList && ref == Embedded(r.value.id)
  {
    if ref.Embedded? then Find(cityList, ref.id) else None
  }

  // ---------------------------------------------------------------------
  // Properties of the operations
  // ---------------------------------------------------------------------

  /** Removing by id filters each part of a sequence separately, so relative order is kept. */
  lemma {:induction false} WithoutIdAppend(a: seq<Row>, b: seq<Row>, id: string)
    ensures WithoutId(a + b, id) == WithoutId(a, id) + WithoutId(b, id)
    decreases |a|
  {
    if a == [] {
      assert a + b == b;
    } else {
      var t := a[1..];
      assert a == [a[0]] + t;
      assert a + b == [a[0]] + (t + b);
      WithoutIdCons(a[0], t + b, id);
      WithoutIdCons(a[0], t, id);
      WithoutIdAppend(t, b, id);
    }
  }

  lemma WithoutIdCons(x: Row, t: seq<Row>, id: string)
    ensures WithoutId([x] + t, id) == (if x.id == id then [] else [x]) + WithoutId(t, id)
  {
    assert ([x] + t)[1..] == t;
  }

  /** The rows left are exactly the rows whose id differs. */
  lemma {:induction false} WithoutIdMembers(s: seq<Row>, id: string)
    ensures forall x :: x in WithoutId(s, id) <==> x in s && x.id != id
    decreases |s|
  {
    if s != [] {
      WithoutIdMembers(s[1..], id);
      assert s == [s[0]] + s[1..];
    }
  }

  /** Every row whose id differs keeps its multiplicity; every row with the id is gone. */
  lemma {:induction false} WithoutIdCounts(s: seq<Row>, id: string)
    ensures forall x: Row :: x.id != id ==> multiset(WithoutId(s, id))[x] == multiset(s)[x]
    ensures forall x: Row :: x.id == id ==> multiset(WithoutId(s, id))[x] == 0
    decreases |s|
  {
    if s != [] {
      WithoutIdCounts(s[1..], id);
      assert s == [s[0]] + s[1..];
    }
  }

  /** Removing an id that no row carries leaves the rows as they were. */
  lemma {:induction false} WithoutIdAbsent(s: seq<Row>, id: string)
    requires forall x :: x in s ==> x.id != id
    ensures WithoutId(s, id) == s
    decreases |s|
  {
    if s != [] {
      WithoutIdAbsent(s[1..], id);
      assert s == [s[0]] + s[1..];
    }
  }

  /** Removing rows keeps a name-sorted sequence sorted. */
  lemma {:induction false} WithoutIdSorted(s: seq<Row>, id: string)
    requires SortedByName(s)
    ensures SortedByName(WithoutId(s, id))
    decreases |s|
  {
    if s != [] {
      WithoutIdSorted(s[1..], id);
      if s[0].id != id {
        var rest := WithoutId(s[1..], id);
        WithoutIdMembers(s[1..], id);
        forall y | y in rest ensures !StrLess(y.name, s[0].name) {
          var k :| 0 <= k < |s[1..]| && s[1..][k] == y;
          assert s[k + 1] == y;
        }
        SortedCons(s[0], rest);
      }
    }
  }

  lemma SortedCons(x: Row, rest: seq<Row>)
    requires SortedByName(rest)
    requires forall y :: y in rest ==> !StrLess(y.name, x.name)
    ensures SortedByName([x] + rest)
  {
    var r := [x] + rest;
    forall i, j | 0 <= i < j < |r| ensures !StrLess(r[j].name, r[i].name) {
      if i == 0 {
        assert r[j] == rest[j - 1];
      } else {
        assert r[i] == rest[i - 1] && r[j] == rest[j - 1];
      }
    }
  }

  /** Updating an id that no row carries leaves the rows as they were: nothing is appended. */
  lemma UpdateAbsentIsNoOp(s: seq<Row>, id: string, data: Row)
    requires forall x :: x in s ==> x.id != id
    ensures ReplaceId(s, id, data) == s
  {
    assert forall i :: 0 <= i < |s| ==> s[i] in s;
  }

  /** Updating does not re-sort: a sorted store can come out of an update unsorted. */
  lemma UpdateMayUnsort()
    ensures var s := [Row("1", "Austin", true, NoCity, None), Row("2", "Boston", true, NoCity, None)];
      SortedByName(s) &&
      !SortedByName(ReplaceId(s, "1", Row("1", "Chicago", true, NoCity, None)))
  {
    var s := [Row("1", "Austin", true, NoCity, None), Row("2", "Boston", true, NoCity, None)];
    var u := ReplaceId(s, "1", Row("1", "Chicago", true, NoCity, None));
    assert StrLess("Austin", "Boston");
    assert u[0].name == "Chicago" && u[1].name == "Boston";
    assert StrLess("Boston", "Chicago");
  }

  /**
   * Pushing keeps every old row (one with the same id included) and adds
   * the new one, in name order.
   */
  lemma PushKeepsRows(s: seq<Row>, data: Row)
    ensures |SortByName(s + [data])| == |s| + 1
    ensures multiset(SortByName(s + [data])) == multiset(s) + multiset{data}
    ensures SortedByName(SortByName(s + [data]))
    ensures data in SortByName(s + [data])
    ensures forall x :: x in s ==> x in SortByName(s + [data])
  {
    StableSortCorrect(s + [data], NameOf);
    assert multiset(s + [data]) == multiset(s) + multiset{data};
    var r := SortByName(s + [data]);
    assert data in multiset(r);
    forall x | x in s ensures x in r {
      assert x in multiset(r);
    }
  }

  // ---------------------------------------------------------------------
  // The store
  // ---------------------------------------------------------------------

  class TableDataSource {
    /** The array the observable currently holds. */
    var stream: array<Row>

    function Rows(): seq<Row>
      reads this, stream
    {
      stream[..]
    }

    /** Starts from an empty stream and sets the initial data, sorting the caller's array. */
    constructor (initialData: array<Row>)
      modifies initialData
      ensures stream == initialData
      ensures Rows() == SortByName(old(initialData[..]))
    {
      stream := new Row[0];
      new;
      SetData(initialData);
    }

    /** Sorts `data` in place by name and makes that very array the current rows. */
    method SetData(data: array<Row>)
      modifies this, data
      ensures stream == data
      ensures Rows() == SortByName(old(data[..]))
    {
      var sortedData := SortObjArrByProp(data, NameOf);
      stream := sortedData;
    }

    /** Copies the rows, appends `data` and sorts the copy by name. */
    method Push(data: Row)
      modifies this
      ensures fresh(stream)
      ensures Rows() == SortByName(old(Rows()) + [data])
    {
      var current := stream[..];
      var copy := new Row[|current| + 1](i requires 0 <= i <= |current| => if i < |current| then current[i] else data);
      assert copy[..] == current + [data];
      var sortedData := SortObjArrByProp(copy, NameOf);
      stream := sortedData;
    }

    /** The first row with the id, if any. */
    function FindById(id: string): (r: Option<Row>)
      reads this, stream
      ensures r == Find(Rows(), id)
    {
      Find(stream[..], id)
    }

    /** Replaces the rows by a new array without the rows carrying `id`. */
    method RemoveById(id: string)
      modifies this
      ensures fresh(stream)
      ensures Rows() == WithoutId(old(Rows()), id)
    {
      var filteredData := WithoutId(stream[..], id);
      stream := new Row[|filteredData|](i requires 0 <= i < |filteredData| => filteredData[i]);
    }

    /** Replaces the rows by a new array where every row carrying `id` is `data`; no re-sort. */
    method UpdateById(id: string, data: Row)
      modifies this
      ensures fresh(stream)
      ensures Rows() == ReplaceId(old(Rows()), id, data)
    {
      var updatedData := ReplaceId(stream[..], id, data);
      stream := new Row[|updatedData|](i requires 0 <= i < |updatedData| => updatedData[i]);
    }
  }
}
