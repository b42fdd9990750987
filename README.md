# ctm-portal core, modelled in Dafny

ctm-portal is an Angular admin portal for a city transit map. Staff use it
to maintain cities, bus routes and places, where a place is a stop with
alias names. Every screen shows a table of rows and a form beside it. The
form is in one of two modes:

- **browse mode**: submitting creates a new row;
- **edit mode**: a row has been clicked, and submitting updates that row.

This project models the sequential core of the portal:

- `table_data_source.dfy` (module `TableData`): the row store behind every
  table. It holds one array of rows, sorts by `name` on `setData` and
  `push`, and can find, remove and update rows by `_id`.
- `utils.dfy` (module `Utils`): the in-place stable sort `sortObjArrByProp`
  and `toTitleCase`.
- `lng_lat_validator.dfy` (module `LngLat`): the form validator for a
  "longitude,latitude" text.
- `city_component.dfy`, `bus_route_component.dfy`, `place_component.dfy`
  (modules `CityScreen`, `BusRouteScreen`, `PlaceScreen`): the handlers of
  the three screens as transitions on their fields. The place screen also
  maintains its alias list.
- `js_string.dfy` (module `JsString`): the JavaScript string semantics the
  code relies on. This covers lexicographic `<`, ASCII case mapping, the
  `\s` class, `trim` and `split` with a one-character separator.
- `types.dfy` (module `Types`): the row record, the responses and the
  requests.

How the model is built:

- **HTTP.** Every call to the REST backend is replaced by its inputs and
  outputs. A submit handler returns the request it would send. The reply
  is a separate handler method that takes the status and the returned row
  as parameters, because the source runs it later, on whatever state the
  screen holds then.
- **Store.** `TableDataSource` is a class whose `stream` field is the array
  the observable currently holds. `setData` sorts the caller's array in
  place and keeps that very array, as the source does. `push`,
  `removeById` and `updateById` install fresh arrays.
- **Screens.** Each screen is a class. Its invariant `Valid()` says that
  edit mode is on exactly when a row id is selected. On the bus-route
  screen the invariant also says that the city selector is disabled
  exactly in edit mode. Every handler keeps the invariant.
- **Ids.** A click on a row keeps the invariant whenever the row's id is
  not empty. Ids are assigned by the server.

Three behaviours of the code are easy to miss:

- `updateById` neither appends a missing row nor re-sorts. `UpdateAbsentIsNoOp`
  proves the first point and `UpdateMayUnsort` the second.
- The store always sorts by `name`.
- `push` keeps a row whose `_id` is already present.

## Model

| member | source | states |
|---|---|---|
| JsString.StrLessIrreflexive | src/app/shared/utils.ts:7-8 | no string is below itself, so the comparator gives 0 for equal keys |
| JsString.StrLessAsymmetric | src/app/shared/utils.ts:7-8 | `a < b` and `b < a` never both hold |
| JsString.StrLessTransitive | src/app/shared/utils.ts:7-8 | string `<` is transitive |
| JsString.StrLessTotal | src/app/shared/utils.ts:7-9 | two different strings are ordered one way or the other, so the comparator returns 0 only for equal keys |
| JsString.NotLessTransitive | src/app/shared/utils.ts:7-9 | "not below" is transitive, which the sortedness proofs need |
| JsString.UpperIdempotent | src/app/place/place.component.ts:229 | upper-casing twice is upper-casing once |
| JsString.TrimEmpty | src/app/place/place.component.ts:225 | `trim` gives "" exactly when every character is white space |
| JsString.Split | src/app/shared/lng-lat-validator.ts:11 | `split` gives at least one piece, no piece holds the separator, and joining the pieces with the separator gives back the text |
| JsString.SplitJoin | src/app/shared/lng-lat-validator.ts:11 | splitting undoes joining pieces that are free of the separator |
| Utils.InsertPermutes | src/app/shared/utils.ts:6-10 | one insertion step adds exactly the inserted element |
| Utils.StableSort | src/app/shared/utils.ts:6-10 | the reference stable sort by key keeps the length; `StableSortCorrect` gives its order, permutation and stability |
| Utils.InsertSorted | src/app/shared/utils.ts:6-10 | one insertion step keeps a key-sorted sequence sorted |
| Utils.InsertWithKey | src/app/shared/utils.ts:9 | one insertion step appends the element to its own key class and leaves every other class as it was |
| Utils.StableSortCorrect | src/app/shared/utils.ts:6-10 | the sort keeps the length and the multiset, orders by key, and keeps the input order within each key class (stability) |
| Utils.StableSortAdjacent | src/app/shared/utils.ts:6-10 | adjacent results are in order: the later key is never below the earlier one |
| Utils.SortObjArrByProp | src/app/shared/utils.ts:3-12 | sorts the given array in place and returns that same array, whose contents are the stable sort of the old contents |
| Utils.InsertStep | src/app/shared/utils.ts:6-10 | one pass of the in-place sort moves element `i` into the sorted prefix and leaves the rest of the array alone |
| Utils.InsertPosition | src/app/shared/utils.ts:6-10 | an element goes after the last key that is not greater than its own |
| Utils.ReplaceFromChars | src/app/shared/utils.ts:17 | from a position where the global replace can stand, its output agrees character by character with the title-case rule |
| Utils.ToTitleCase | src/app/shared/utils.ts:14-18 | title-casing keeps the length; `TitleCaseChars` gives every character of the result |
| Utils.TitleCaseChars | src/app/shared/utils.ts:14-18 | toTitleCase keeps the length and every non-letter; a letter comes out upper-case exactly when it is first, follows a non-word character or follows a digit, and lower-case otherwise |
| Utils.TitleCaseIdempotent | src/app/shared/utils.ts:16-17 | title-casing twice gives what title-casing once gives |
| Utils.TitleCaseExample | src/app/shared/utils.ts:16-17 | "new york" becomes "New York" |
| TableData.ReplaceId | src/app/shared/table-data-source.ts:49 | the `map` keeps the length and positions; a row with the id becomes the new row, and every other row is kept |
| TableData.WithoutId | src/app/shared/table-data-source.ts:40-42 | the `filter` never lengthens the rows and no row it keeps carries the id |
| TableData.Find | src/app/shared/table-data-source.ts:36 | `find` gives nothing exactly when no row has the id; otherwise it gives the first row with the id |
| TableData.FindCity | src/app/bus-route/bus-route.component.ts:281-283 | the click's city lookup finds nothing unless the row embeds its city; for an embedded city it is `find` on that city's id, and a found city is in the list and is the embedded one |
| TableData.WithoutIdAppend | src/app/shared/table-data-source.ts:40-42 | the `filter` works on each part of a sequence separately, so the rows kept stay in their relative order |
| TableData.WithoutIdMembers | src/app/shared/table-data-source.ts:40-42 | the rows kept are exactly the rows whose id differs |
| TableData.WithoutIdCounts | src/app/shared/table-data-source.ts:40-42 | each row whose id differs keeps its number of copies, and no row with the id is left |
| TableData.WithoutIdAbsent | src/app/shared/table-data-source.ts:39-44 | removing an id that no row carries leaves the rows unchanged |
| TableData.WithoutIdSorted | src/app/shared/table-data-source.ts:39-44 | removing keeps a name-sorted table sorted |
| TableData.UpdateAbsentIsNoOp | src/app/shared/table-data-source.ts:46-51 | updating an id that no row carries changes nothing: no row is appended |
| TableData.UpdateMayUnsort | src/app/shared/table-data-source.ts:46-51 | renaming a row can leave a sorted table unsorted, because the update does not re-sort |
| TableData.PushKeepsRows | src/app/shared/table-data-source.ts:27-33 | a push grows the table by one, keeps every old row (one with the same id too), adds the new row and leaves the table name-sorted |
| TableData.TableDataSource.constructor | src/app/shared/table-data-source.ts:9-12 | a new store holds its initial data sorted by name, in the caller's own array |
| TableData.TableDataSource.SetData | src/app/shared/table-data-source.ts:22-25 | the given array is sorted by name in place and becomes the stored array |
| TableData.TableDataSource.Push | src/app/shared/table-data-source.ts:27-33 | the stored rows become the stable name sort of the old rows followed by the new row, in a fresh array |
| TableData.TableDataSource.FindById | src/app/shared/table-data-source.ts:35-37 | gives the first stored row with the id, if any, and changes nothing |
| TableData.TableDataSource.RemoveById | src/app/shared/table-data-source.ts:39-44 | the stored rows become the old rows without those that carry the id, in a fresh array |
| TableData.TableDataSource.UpdateById | src/app/shared/table-data-source.ts:46-51 | the stored rows become the old rows with every row that carries the id replaced, in a fresh array |
| LngLat.StripBrackets | src/app/shared/lng-lat-validator.ts:9 | the text changes exactly when it opens with `[` or `(`, closes with `]` or `)` and holds no line terminator in between; then only those two outer characters are dropped |
| LngLat.RemoveWhitespace | src/app/shared/lng-lat-validator.ts:10 | removing white space leaves no white space, never lengthens the text, and keeps every other character as often as the text holds it |
| LngLat.RemoveWhitespaceAppend | src/app/shared/lng-lat-validator.ts:10 | removal works on each part of a text separately, so the characters kept stay in their order |
| LngLat.MatchesCoordinate | src/app/shared/lng-lat-validator.ts:12 | a field the grammar accepts has at least 8 characters, each a digit, `.` or `-` |
| LngLat.WithinBound | src/app/shared/lng-lat-validator.ts:17-19 | a field within the bound never has an integer part above the bound; `WithinBoundDigits` gives the exact condition |
| LngLat.LngLatValidator | src/app/shared/lng-lat-validator.ts:4-27 | a null value gives no error; an error always carries the input before normalisation |
| LngLat.FirstFieldEmpty | src/app/shared/lng-lat-validator.ts:25 | the first field is empty exactly when the normalised text is empty or starts with a comma |
| LngLat.TwoFields | src/app/shared/lng-lat-validator.ts:15 | the text splits into two fields exactly when it holds exactly one comma, and the fields are then the text on either side |
| LngLat.ValidatorAccepts | src/app/shared/lng-lat-validator.ts:8-27 | a text is accepted exactly when its normalised form is empty, starts with a comma, or is a valid longitude, one comma and a valid latitude |
| LngLat.WithinBoundDigits | src/app/shared/lng-lat-validator.ts:17-19 | the exact range check holds exactly when the integer part is below the bound, or equals it with an all-zero fraction |
| LngLat.DigitsValueBelow | src/app/shared/lng-lat-validator.ts:17-19 | a fraction of n digits is below 10^n, so it stays below one whole unit |
| LngLat.EmptyFirstFieldExamples | src/app/shared/lng-lat-validator.ts:25 | "", "()" and ",5" are all accepted |
| CityScreen.CityComponent.constructor | src/app/city/city.component.ts:116-130 | the screen starts in browse mode with nothing selected, a reset form and an empty table |
| CityScreen.CityComponent.OnCitiesLoaded | src/app/city/city.component.ts:137-141 | on success the shared city list is sorted by name in place and becomes the table; otherwise nothing changes |
| CityScreen.CityComponent.CityFormOnSubmit | src/app/city/city.component.ts:148-157 | an empty name sends nothing; otherwise the title-cased name goes out, as an update of the selected city in edit mode and as a create in browse mode |
| CityScreen.CityComponent.OnUpdateResponse | src/app/city/city.component.ts:158-178 | 200 replaces the returned row by id, resets the form and returns to browse mode; 409 marks the name as a duplicate and changes nothing else; 404 and any other status change nothing; the invariant holds |
| CityScreen.CityComponent.OnCreateResponse | src/app/city/city.component.ts:181-197 | 201 pushes the returned row and resets the form; 409 marks the name as a duplicate; the selection is never touched |
| CityScreen.CityComponent.DeleteOnClick | src/app/city/city.component.ts:200-213 | 200 removes the city by id and returns to browse mode, and the form keeps its values; any other status changes nothing |
| CityScreen.CityComponent.RowOnClick | src/app/city/city.component.ts:215-230 | clicking the selected row resets the form and returns to browse mode; clicking another row selects it and loads its name and isActive |
| BusRouteScreen.GetAllBusRoutes | src/app/bus-route/bus-route.component.ts:27-38 | a reply that is not 200 or carries no rows empties the table; otherwise the table is the replied rows, permuted and sorted by name |
| BusRouteScreen.SetFetchedRoutes | src/app/bus-route/bus-route.component.ts:31-37 | a reply that is not 200 or carries no rows empties the table; otherwise the table is the replied rows sorted by name |
| BusRouteScreen.FetchFor | src/app/bus-route/bus-route.component.ts:342-349 | a missing, empty or "all" cityId fetches every route; any other value fetches that city's routes |
| BusRouteScreen.BusRouteComponent.constructor | src/app/bus-route/bus-route.component.ts:146-169 | the screen starts on "all" in browse mode, with the selector enabled and an empty table |
| BusRouteScreen.BusRouteComponent.OnInitialCities | src/app/bus-route/bus-route.component.ts:180-201 | a cityId from the URL that names a known city selects it; otherwise the selection stays |
| BusRouteScreen.BusRouteComponent.OnRoutesLoaded | src/app/bus-route/bus-route.component.ts:349-358 | the per-city fetch follows the same rule as the all-routes fetch |
| BusRouteScreen.BusRouteComponent.BusRouteFormOnSubmit | src/app/bus-route/bus-route.component.ts:208-227 | an empty name or the "all" sentinel sends nothing; otherwise the route goes out with the selected city's id and the title-cased name |
| BusRouteScreen.BusRouteComponent.OnUpdateResponse | src/app/bus-route/bus-route.component.ts:228-247 | 200 replaces the returned row by id, resets the form, re-enables the selector and returns to browse mode; 409 marks a duplicate; 404 and others change nothing |
| BusRouteScreen.BusRouteComponent.OnCreateResponse | src/app/bus-route/bus-route.component.ts:250-266 | 201 pushes the returned row and resets the form; 409 marks a conflict, not a duplicate; others change nothing |
| BusRouteScreen.BusRouteComponent.RowOnClick | src/app/bus-route/bus-route.component.ts:270-302 | clicking the selected route returns to browse mode and re-enables the selector; a route whose `cityId` is a bare id string, or whose city is not listed, is ignored; otherwise edit mode starts, the selector is disabled, and the route's city and the route are selected |
| BusRouteScreen.BusRouteComponent.DeleteOnClick | src/app/bus-route/bus-route.component.ts:304-319 | 200 removes the route by id, resets the form and returns to browse mode with the selector enabled; any other status changes nothing |
| PlaceScreen.Flatten | src/app/place/place.component.ts:226 | the key keeps only ASCII letters and digits, never lengthens the text, and keeps every letter and digit as often as the text holds it |
| PlaceScreen.FlattenAppend | src/app/place/place.component.ts:226 | flattening works on each part of a text separately, so the letters and digits kept stay in their order |
| JsString.Trim | src/app/place/place.component.ts:225 | `trim` gives the piece of the text left after dropping only white space before it and after it; the piece neither starts nor ends with white space, so everything between the first and last non-space character is kept |
| PlaceScreen.DropKey | src/app/place/place.component.ts:227-230 | the filter never lengthens the list and keeps no alias whose key is the given key |
| PlaceScreen.AddAlias | src/app/place/place.component.ts:224-236 | `add` grows the list by at most one, and every alias in the result is an old alias or the trimmed, upper-cased text |
| PlaceScreen.IndexOf | src/app/place/place.component.ts:217 | `indexOf` gives -1 exactly when the alias is absent, and otherwise the position of its first occurrence |
| PlaceScreen.RemoveFirst | src/app/place/place.component.ts:216-222 | removing takes away exactly one copy of a present alias and changes nothing for an absent one |
| PlaceScreen.DropKeyMembers | src/app/place/place.component.ts:227-230 | the filter keeps exactly the aliases whose key differs from the new value's key |
| PlaceScreen.DropKeyKeepsOrder | src/app/place/place.component.ts:227-230 | two kept aliases stay in the same order |
| PlaceScreen.DropKeyIdempotent | src/app/place/place.component.ts:227-230 | filtering by a key twice is filtering once |
| PlaceScreen.AddBlank | src/app/place/place.component.ts:225-233 | chip text that is blank after trimming leaves the alias list unchanged |
| PlaceScreen.AddAppends | src/app/place/place.component.ts:225-235 | non-blank text, trimmed and upper-cased, becomes the last alias, after exactly the aliases whose key differs from its key |
| PlaceScreen.AddKeepsDistinct | src/app/place/place.component.ts:226-236 | aliases with pairwise-distinct keys keep distinct keys after an add |
| PlaceScreen.AddTwice | src/app/place/place.component.ts:224-240 | adding the same text twice gives what adding it once gives |
| PlaceScreen.RemoveAbsent | src/app/place/place.component.ts:216-222 | removing an absent alias changes nothing |
| PlaceScreen.RemoveFirstOccurrence | src/app/place/place.component.ts:216-222 | removing a present alias deletes exactly its first occurrence and keeps everything around it in place |
| PlaceScreen.PlaceComponent.constructor | src/app/place/place.component.ts:60-74 | the screen starts in browse mode with an empty alias list, a reset form and an empty table |
| PlaceScreen.PlaceComponent.Add | src/app/place/place.component.ts:224-240 | a present alias list becomes the add result, a null list stays null, and nothing else changes |
| PlaceScreen.PlaceComponent.RemoveKeyword | src/app/place/place.component.ts:216-222 | a present alias list loses the first occurrence of the alias, a null list stays null, and nothing else changes |
| PlaceScreen.PlaceComponent.PlaceFormOnSubmit | src/app/place/place.component.ts:117-134 | an empty name or the "all" sentinel sends nothing; otherwise the place goes out with the selected city's id, the title-cased name and the alias list |
| PlaceScreen.PlaceComponent.OnUpdateResponse | src/app/place/place.component.ts:135-155 | 200 replaces the returned row by id, resets the form (aliases to null) and returns to browse mode; 409 marks a duplicate; 404 and others change nothing |
| PlaceScreen.PlaceComponent.OnCreateResponse | src/app/place/place.component.ts:158-176 | 201 pushes the returned row and resets the form; 409 marks a duplicate; any other status only shows a message |
| PlaceScreen.PlaceComponent.DeleteOnClick | src/app/place/place.component.ts:179-192 | 200 removes the place by id, resets the form and returns to browse mode; any other status changes nothing |
| PlaceScreen.PlaceComponent.RowOnClick | src/app/place/place.component.ts:242-269 | clicking the selected place resets and returns to browse mode; a place whose city is not listed, or whose `cityId` is not an embedded city, is ignored; otherwise the place and its city are selected, and a missing alias list loads as empty |

## Left out

- The REST gateway in `src/app/data.service.ts` is left out. Every `fetch`
  and JSON decode becomes a status and a row (or rows) passed to the
  handler. The overwrite of the shared `cityList` is modelled only as the
  array handed to `OnCitiesLoaded`.
- Asynchrony is left out. The model does not enumerate the orders in which
  replies can arrive, but each reply handler works on whatever state the
  screen holds when it runs, as in the source.
- Router and URL plumbing, `navigateTo`, `selectCityOnChange`, snackbars,
  templates, Angular validators (`required`, `minLength`) and rxjs emission
  and `disconnect` are left out as UI effects.
- The query-parameter write in `rowOnClick` is left out, and so is the
  fetch it sets off. In the source, clicking a row of another city
  rewrites `cityId` in the URL (src/app/bus-route/bus-route.component.ts:296-297,
  src/app/place/place.component.ts:255-258). The `queryParamMap`
  subscription then fetches that city's rows and replaces the table. The
  model keeps the two steps apart: `RowOnClick` leaves the table alone, and
  the later reply is a separate call of `OnRoutesLoaded` that nothing links
  to the click.
- `src/app/shared/download.ts` and `src/app/shared/get-all-data.ts` are not
  part of this model. The first is DOM-only. The second is the same
  fetch-and-set rule as `GetAllBusRoutes`.
- The route-stop, places and city-detail screens are not part of this
  model, because they are unfinished in the source.
- The place screen's `getAllPlaces` and `ngOnInit` are not modelled. Their
  reply rule is the bus-route one (a reply that is not 200 or has no rows
  empties the table), but the dispatch differs: only a missing or empty
  `cityId` fetches every place, while "all" is sent on to
  `getPlacesByCityId("all")` (src/app/place/place.component.ts:273-279).
- The place screen's resolution of the URL's `cityId` is not modelled: the
  constructor takes the resolved city as a parameter. The `{}` placeholder
  the source holds before the city list arrives is therefore not modelled.
- PlaceScreen.PlaceComponent.RemoveKeyword: the alias list is a value. In
  the source, after a row click the control holds the row's own alias
  array, so `splice` also edits the row shown in the table. The model does
  not capture that aliasing.
- Unicode is restricted. Case mapping covers ASCII letters only. String `<`
  compares code points, which agrees with JavaScript's UTF-16 order except
  for characters outside the Basic Multilingual Plane.
- LngLat.WithinBoundDigits: the range check uses exact decimal
  arithmetic. The source converts to a double, so a very long fraction just
  above 180 or 90 can round to the bound and be accepted there.
- Angular's `reset` sets the name control to null. The model uses "", which
  the submit guards treat alike. The `required` error that Angular would
  recompute is not tracked. Only the error a handler sets is tracked
  (`nameError`), and `reset` and `setValue` clear it.
- CityScreen.CityComponent.RowOnClick, BusRouteScreen.BusRouteComponent.RowOnClick
  and PlaceScreen.PlaceComponent.RowOnClick: the invariant is promised only
  for rows with a non-empty id.
- PlaceScreen.PlaceComponent.RowOnClick: `row.isActive ?? true` is modelled
  as `row.isActive`, because a row always carries a boolean `isActive`. A
  place stored without that field, which the source loads as active, is
  not represented.
