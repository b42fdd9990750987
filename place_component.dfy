/**
 * The place screen: like the route screen, plus an alias list edited as
 * chips. Adding an alias replaces every alias that flattens to the same
 * key; removing one deletes its first occurrence.
 */
module PlaceScreen {

  import opened Types
  import opened JsString
  import opened Utils
  import opened TableData

  // ---------------------------------------------------------------------
  // The alias list
  // ---------------------------------------------------------------------

  predicate IsAlnum(c: char) { IsAsciiLetter(c) || IsDigit(c) }

  /** `replace(/[^a-zA-Z0-9]/g, '')` */
  function Flatten(s: string): (r: string)
    ensures |r| <= |s|
    ensures forall i :: 0 <= i < |r| ==> IsAlnum(r[i])
    ensures forall c {:trigger multiset(r)[c]} :: IsAlnum(c) ==> multiset(r)[c] == multiset(s)[c]
    decreases |s|
  {
    if s == [] then []
    else
      assert s == [s[0]] + s[1..];
      (if IsAlnum(s[0]) then [s[0]] else []) + Flatten(s[1..])
  }

  /** Flattening works on each part of a text separately, so the letters and digits stay in order. */
  lemma {:induction false} FlattenAppend(a: string, b: string)
    ensures Flatten(a + b) == Flatten(a) + Flatten(b)
    decreases |a|
  {
    if a == [] {
      assert a + b == b;
    } else {
      assert (a + b)[1..] == a[1..] + b;
      FlattenAppend(a[1..], b);
    }
  }

  /** The key two aliases clash on: upper-cased, letters and digits only. */
  function AliasKey(alias: string): string {
    Flatten(Upper(alias))
  }

  /** The aliases whose key differs from `key`, in their order (the `filter` in `add`). */
  function DropKey(aliases: seq<string>, key: string): (r: seq<string>)
    ensures |r| <= |aliases|
    ensures forall x :: x in r ==> AliasKey(x) != key
    decreases |aliases|
  {
    if aliases == [] then []
    else (if AliasKey(aliases[0]) == key then [] else [aliases[0]]) + DropKey(aliases[1..], key)
  }

  /**
   * `add`: the chip text trimmed and upper-cased; when it is not empty,
   * every alias with its key is dropped and it is appended.
   */
  function AddAlias(aliases: seq<string>, input: string): (r: seq<string>)
    ensures |r| <= |aliases| + 1
    ensures forall i :: 0 <= i < |r| ==> r[i] in aliases || r[i] == Upper(Trim(input))
  {
    var value := Upper(Trim(input));
    if value == "" then aliases
    else
      DropKeyMembers(aliases, Flatten(value));
      DropKey(aliases, Flatten(value)) + [value]
  }

  /** `indexOf`: the first position holding `x`, or -1. */
  function IndexOf(s: seq<string>, x: string): (i: int)
    ensures -1 <= i < |s|
    ensures i == -1 <==> x !in s
    ensures 0 <= i ==> s[i] == x && x !in s[..i]
    decreases |s|
  {
    if s == [] then -1
    else if s[0] == x then 0
    else
      var j := IndexOf(s[1..], x);
      if j == -1 then -1
      else
        assert s[..j + 1] == [s[0]] + s[1..][..j];
        j + 1
  }

  /** `removeKeyword`: `splice(indexOf(alias), 1)` when the alias is present. */
  function RemoveFirst(s: seq<string>, x: string): (r: seq<string>)
    ensures |r| == if x in s then |s| - 1 else |s|
    ensures multiset(r) == multiset(s) - multiset{x}
  {
    var i := IndexOf(s, x);
    if i >= 0 then
      assert s == s[..i] + [x] + s[i + 1..];
      s[..i] + s[i + 1..]
    else s
  }

  /** No two aliases share a key. */
  predicate DistinctKeys(aliases: seq<string>) {
    forall i, j :: 0 <= i < j < |aliases| ==> AliasKey(aliases[i]) != AliasKey(aliases[j])
  }

  // ---------------------------------------------------------------------
  // Properties of the alias list
  // ---------------------------------------------------------------------

  /** The key of an added value is the key `add` filters with. */
  lemma ValueKey(input: string)
    ensures AliasKey(Upper(Trim(input))) == Flatten(Upper(Trim(input)))
  {
    UpperIdempotent(Trim(input));
  }

  lemma {:induction false} DropKeyAppend(a: seq<string>, b: seq<string>, key: string)
    ensures DropKey(a + b, key) == DropKey(a, key) + DropKey(b, key)
    decreases |a|
  {
    if a == [] {
      assert a + b == b;
    } else {
      assert (a + b)[1..] == a[1..] + b;
      DropKeyAppend(a[1..], b, key);
    }
  }

  /** The aliases kept are exactly those whose key differs. */
  lemma {:induction false} DropKeyMembers(aliases: seq<string>, key: string)
    ensures forall x :: x in DropKey(aliases, key) <==> x in aliases && AliasKey(x) != key
    decreases |aliases|
  {
    if aliases != [] {
      DropKeyMembers(aliases[1..], key);
      assert aliases == [aliases[0]] + aliases[1..];
    }
  }

  /** Dropping a key twice is dropping it once. */
  lemma {:induction false} DropKeyIdempotent(aliases: seq<string>, key: string)
    ensures DropKey(DropKey(aliases, key), key) == DropKey(aliases, key)
    decreases |aliases|
  {
    if aliases != [] {
      var head := if AliasKey(aliases[0]) == key then [] else [aliases[0]];
      DropKeyIdempotent(aliases[1..], key);
      DropKeyAppend(head, DropKey(aliases[1..], key), key);
      if head != [] {
        assert DropKey(head, key) == head by {
          assert head[1..] == [];
        }
      }
    }
  }

  /** The aliases kept have the order they had: a kept alias before another stays before it. */
  lemma DropKeyKeepsOrder(aliases: seq<string>, key: string, i: nat, j: nat)
    requires i < j < |aliases|
    requires AliasKey(aliases[i]) != key && AliasKey(aliases[j]) != key
    ensures exists p, q :: (0 <= p < q < |DropKey(aliases, key)| &&
      DropKey(aliases, key)[p] == aliases[i] && DropKey(aliases, key)[q] == aliases[j])
  {
    var before, after := aliases[..j], aliases[j..];
    assert aliases == before + after;
    DropKeyAppend(before, after, key);
    DropKeyMembers(before, key);
    assert before[i] == aliases[i];
    var kept := DropKey(before, key);
    var p :| 0 <= p < |kept| && kept[p] == aliases[i];
    assert after[0] == aliases[j];
    assert DropKey(after, key)[0] == aliases[j];
    var r := DropKey(aliases, key);
    assert r == kept + DropKey(after, key);
    assert p < |kept| < |r| && r[p] == aliases[i] && r[|kept|] == aliases[j];
  }

  /** Blank chip text leaves the alias list as it is. */
  lemma AddBlank(aliases: seq<string>, input: string)
    requires forall i :: 0 <= i < |input| ==> IsJsSpace(input[i])
    ensures AddAlias(aliases, input) == aliases
  {
    TrimEmpty(input);
  }

  /**
   * Non-blank chip text ends up last, trimmed and upper-cased, after
   * exactly the aliases whose key differs from its own.
   */
  lemma AddAppends(aliases: seq<string>, input: string)
    requires Trim(input) != ""
    ensures var r := AddAlias(aliases, input);
      |r| >= 1 && r[|r| - 1] == Upper(Trim(input)) &&
      r[..|r| - 1] == DropKey(aliases, AliasKey(Upper(Trim(input))))
    ensures forall x :: x in AddAlias(aliases, input) <==>
      x == Upper(Trim(input)) || (x in aliases && AliasKey(x) != AliasKey(Upper(Trim(input))))
  {
    var value := Upper(Trim(input));
    assert |value| == |Trim(input)|;
    assert value != "";
    ValueKey(input);
    DropKeyMembers(aliases, Flatten(value));
    var r := AddAlias(aliases, input);
    assert r == DropKey(aliases, Flatten(value)) + [value];
    assert r[..|r| - 1] == DropKey(aliases, Flatten(value));
  }

  /** Adding keeps the keys pairwise distinct. */
  lemma AddKeepsDistinct(aliases: seq<string>, input: string)
    requires DistinctKeys(aliases)
    ensures DistinctKeys(AddAlias(aliases, input))
  {
    var value := Upper(Trim(input));
    if value != "" {
      ValueKey(input);
      var kept := DropKey(aliases, Flatten(value));
      DropKeySubDistinct(aliases, Flatten(value));
      DropKeyMembers(aliases, Flatten(value));
      var r := kept + [value];
      forall i, j | 0 <= i < j < |r| ensures AliasKey(r[i]) != AliasKey(r[j]) {
        if j == |r| - 1 {
          assert r[i] == kept[i] && r[i] in kept;
        } else {
          assert r[i] == kept[i] && r[j] == kept[j];
        }
      }
    }
  }

  lemma {:induction false} DropKeySubDistinct(aliases: seq<string>, key: string)
    requires DistinctKeys(aliases)
    ensures DistinctKeys(DropKey(aliases, key))
    decreases |aliases|
  {
    if aliases != [] {
      var t := aliases[1..];
      DropKeySubDistinct(t, key);
      if AliasKey(aliases[0]) != key {
        DropKeyMembers(t, key);
        forall y | y in t ensures AliasKey(y) != AliasKey(aliases[0]) {
          var k :| 0 <= k < |t| && t[k] == y;
          assert aliases[k + 1] == y;
        }
        ConsDistinct(aliases[0], DropKey(t, key), t);
      }
    }
  }

  /** Putting in front an alias whose key no alias of `t` has keeps a sub-list of `t` distinct. */
  lemma ConsDistinct(x: string, rest: seq<string>, t: seq<string>)
    requires DistinctKeys(rest)
    requires forall y :: y in rest ==> y in t
    requires forall y :: y in t ==> AliasKey(y) != AliasKey(x)
    ensures DistinctKeys([x] + rest)
  {
    var r := [x] + rest;
    forall i, j | 0 <= i < j < |r| ensures AliasKey(r[i]) != AliasKey(r[j]) {
      if i == 0 {
        assert r[j] == rest[j - 1] && rest[j - 1] in rest;
      } else {
        assert r[i] == rest[i - 1] && r[j] == rest[j - 1];
      }
    }
  }

  /** Adding the same chip text twice gives what adding it once gives. */
  lemma AddTwice(aliases: seq<string>, input: string)
    ensures AddAlias(AddAlias(aliases, input), input) == AddAlias(aliases, input)
  {
    var value := Upper(Trim(input));
    if value != "" {
      var key := Flatten(value);
      ValueKey(input);
      var kept := DropKey(aliases, key);
      DropKeyAppend(kept, [value], key);
      DropKeyIdempotent(aliases, key);
      assert DropKey([value], key) == [] by {
        assert [value][1..] == [];
      }
    }
  }

  /** Removing an alias that is not there changes nothing. */
  lemma RemoveAbsent(s: seq<string>, x: string)
    requires x !in s
    ensures RemoveFirst(s, x) == s
  {
  }

  /**
   * Removing a present alias deletes exactly one copy of it, the first:
   * everything before it and after it stays in place.
   */
  lemma RemoveFirstOccurrence(s: seq<string>, x: string)
    requires x in s
    ensures var r := RemoveFirst(s, x);
      |r| == |s| - 1 &&
      multiset(r) == multiset(s) - multiset{x} &&
      exists i :: 0 <= i < |s| && s[i] == x && x !in s[..i] && r == s[..i] + s[i + 1..]
  {
    var i := IndexOf(s, x);
    assert s == s[..i] + [s[i]] + s[i + 1..];
    assert multiset(s) == multiset(s[..i]) + multiset{x} + multiset(s[i + 1..]);
  }

  // ---------------------------------------------------------------------
  // The screen
  // ---------------------------------------------------------------------

  class PlaceComponent {
    var form: Form
    /** The alias control's value; None once the form reset has set it to null. */
    var aliases: Option<seq<string>>
    const placeList: TableDataSource
    /** The `_id` of the place being edited, "" in browse mode. */
    var selectedPlace: string
    var selectedCity: CitySelection
    var isEditMode: bool

    /** Edit mode is on exactly when a place is selected. */
    ghost predicate Valid()
      reads this
    {
      isEditMode == (selectedPlace != "")
    }

    /** `initialCity` is the selection the URL's `cityId` resolved to. */
    constructor (initialCity: CitySelection)
      ensures Valid()
      ensures form == ResetForm && aliases == Some([])
      ensures selectedPlace == "" && !isEditMode && selectedCity == initialCity
      ensures fresh(placeList) && placeList.Rows() == []
    {
      var empty := new Row[0];
      placeList := new TableDataSource(empty);
      form := ResetForm;
      aliases := Some([]);
      selectedPlace := "";
      selectedCity := initialCity;
      isEditMode := false;
    }

    /** `add` on the chip text; a null alias list stays null. */
    method Add(input: string)
      modifies this
      ensures aliases == if old(aliases).None? then None else Some(AddAlias(old(aliases).value, input))
      ensures form == old(form) && selectedPlace == old(selectedPlace)
      ensures isEditMode == old(isEditMode) && selectedCity == old(selectedCity)
    {
      var value := Upper(Trim(input));
      var flattenedValue := Flatten(value);
      if aliases.Some? && value != "" {
        var filteredAlias := DropKey(aliases.value, flattenedValue);
        aliases := Some(filteredAlias + [value]);
      }
    }

    /** `removeKeyword`; a null alias list stays null. */
    method RemoveKeyword(alias: string)
      modifies this
      ensures aliases == if old(aliases).None? then None else Some(RemoveFirst(old(aliases).value, alias))
      ensures form == old(form) && selectedPlace == old(selectedPlace)
      ensures isEditMode == old(isEditMode) && selectedCity == old(selectedCity)
    {
      if aliases.Some? {
        aliases := Some(RemoveFirst(aliases.value, alias));
      }
    }

    /**
     * placeFormOnSubmit up to the request: nothing is sent for an empty
     * name or while "all" is selected; otherwise the place is sent with the
     * selected city's id, the title-cased name and the alias list.
     */
    method PlaceFormOnSubmit() returns (req: Option<Request>)
      ensures req.None? <==> form.name == "" || selectedCity == AllCities
      ensures req.Some? ==>
        req.value.body == PlaceBody(selectedCity.city.id, ToTitleCase(form.name), aliases, form.isActive)
      ensures req.Some? ==> (req.value.UpdateRequest? <==> isEditMode)
      ensures req.Some? && isEditMode ==> req.value.id == selectedPlace
    {
      if form.name == "" {
        return None;
      }
      if selectedCity == AllCities {
        return None;
      }
      var formData := PlaceBody(selectedCity.city.id, ToTitleCase(form.name), aliases, form.isActive);
      if isEditMode {
        return Some(UpdateRequest(selectedPlace, formData));
      }
      return Some(CreateRequest(formData));
    }

    /** The reply to an update request. */
    method OnUpdateResponse(res: Response)
      requires Valid()
      modifies this, placeList
      ensures Valid()
      ensures selectedCity == old(selectedCity)
      ensures res.status == StatusOk ==>
        placeList.Rows() == ReplaceId(old(placeList.Rows()), res.data.id, res.data) &&
        form == ResetForm && aliases == None && !isEditMode && selectedPlace == ""
      ensures res.status == StatusConflict ==>
        placeList.Rows() == old(placeList.Rows()) &&
        form == old(form).(nameError := Duplicate) && aliases == old(aliases) &&
        isEditMode == old(isEditMode) && selectedPlace == old(selectedPlace)
      ensures res.status != StatusOk && res.status != StatusConflict ==>
        placeList.Rows() == old(placeList.Rows()) && form == old(form) && aliases == old(aliases) &&
        isEditMode == old(isEditMode) && selectedPlace == old(selectedPlace)
    {
      if res.status == StatusNotFound {
        return;
      }
      if res.status == StatusConflict {
        form := form.(nameError := Duplicate);
        return;
      }
      if res.status == StatusOk {
        placeList.UpdateById(res.data.id, res.data);
        form := ResetForm;
        aliases := None;
        isEditMode := false;
        selectedPlace := "";
      }
    }

    /** The reply to a create request; any other status only shows a message. */
    method OnCreateResponse(res: Response)
      requires Valid()
      modifies this, placeList
      ensures Valid()
      ensures selectedCity == old(selectedCity) && selectedPlace == old(selectedPlace)
      ensures isEditMode == old(isEditMode)
      ensures res.status == StatusCreated ==>
        placeList.Rows() == SortByName(old(placeList.Rows()) + [res.data]) &&
        form == ResetForm && aliases == None
      ensures res.status == StatusConflict ==>
        placeList.Rows() == old(placeList.Rows()) &&
        form == old(form).(nameError := Duplicate) && aliases == old(aliases)
      ensures res.status != StatusCreated && res.status != StatusConflict ==>
        placeList.Rows() == old(placeList.Rows()) && form == old(form) && aliases == old(aliases)
    {
      if res.status == StatusConflict {
        form := form.(nameError := Duplicate);
        return;
      }
      if res.status == StatusCreated {
        placeList.Push(res.data);
        form := ResetForm;
        aliases := None;
        return;
      }
    }

    /** deleteOnClick with the reply's status: 200 removes the place and resets to browse mode. */
    method DeleteOnClick(placeId: string, status: int)
      requires Valid()
      modifies this, placeList
      ensures Valid()
      ensures selectedCity == old(selectedCity)
      ensures status == StatusOk ==>
        placeList.Rows() == WithoutId(old(placeList.Rows()), placeId) &&
        selectedPlace == "" && !isEditMode && form == ResetForm && aliases == None
      ensures status != StatusOk ==>
        placeList.Rows() == old(placeList.Rows()) && form == old(form) && aliases == old(aliases) &&
        selectedPlace == old(selectedPlace) && isEditMode == old(isEditMode)
    {
      if status == StatusOk {
        placeList.RemoveById(placeId);
        selectedPlace := "";
        isEditMode := false;
        form := ResetForm;
        aliases := None;
      }
    }

    /**
     * Clicking the selected place returns to browse mode; clicking a place
     * of a known city selects it and its city and loads it into the form,
     * with a missing alias list read as empty; a place whose city is not
     * in the list, or whose `cityId` is not an embedded city, is ignored.
     */
    method RowOnClick(row: Row, cityList: seq<Row>)
      requires Valid()
      modifies this
      ensures row.id != "" ==> Valid()
      ensures row.id == old(selectedPlace) ==>
        form == ResetForm && aliases == None && !isEditMode && selectedPlace == "" &&
        selectedCity == old(selectedCity)
      ensures row.id != old(selectedPlace) && !row.cityId.Embedded? ==>
        form == old(form) && aliases == old(aliases) && isEditMode == old(isEditMode) &&
        selectedPlace == old(selectedPlace) && selectedCity == old(selectedCity)
      ensures row.id != old(selectedPlace) && FindCity(cityList, row.cityId).None? ==>
        form == old(form) && aliases == old(aliases) && isEditMode == old(isEditMode) &&
        selectedPlace == old(selectedPlace) && selectedCity == old(selectedCity)
      ensures row.id != old(selectedPlace) && FindCity(cityList, row.cityId).Some? ==>
        isEditMode && selectedPlace == row.id &&
        selectedCity == OneCity(FindCity(cityList, row.cityId).value) &&
        row.cityId == Embedded(selectedCity.city.id) &&
        form == Form(row.name, row.isActive, NoError) &&
        aliases == Some(if row.aliases.Some? then row.aliases.value else [])
    {
      if row.id == selectedPlace {
        selectedPlace := "";
        isEditMode := false;
        form := ResetForm;
        aliases := None;
        return;
      }
      var placeCity := FindCity(cityList, row.cityId);
      if placeCity.None? {
        return;
      }
      isEditMode := true;
      selectedCity := OneCity(placeCity.value);
      selectedPlace := row.id;
      form := Form(row.name, row.isActive, NoError);
      aliases := Some(row.aliases.GetOr([]));
    }
  }
}
