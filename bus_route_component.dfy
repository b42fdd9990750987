/**
 * The bus-route screen: a route table filtered by the city in the URL, a
 * city selector whose "all" entry is a sentinel object, and a route form
 * in browse or edit mode. While a route is edited the city selector is
 * disabled.
 */
module BusRouteScreen {

  import opened Types
  import opened Utils
  import opened TableData

  /** Copies a decoded collection into a new array (the JSON decoder's fresh array). */
  method NewRowArray(data: seq<Row>) returns (a: array<Row>)
    ensures fresh(a) && a[..] == data
  {
    a := new Row[|data|](i requires 0 <= i < |data| => data[i]);
  }

  /**
   * The shared rule of both route fetches: a reply that is not 200 or
   * carries no rows empties the table; otherwise the rows become the
   * table, sorted by name.
   */
  method SetFetchedRoutes(routeList: TableDataSource, res: ListResponse)
    modifies routeList
    ensures routeList.Rows() ==
      if res.status != StatusOk || |res.data| == 0 then [] else SortByName(res.data)
  {
    if res.status != StatusOk || |res.data| == 0 {
      var empty := new Row[0];
      routeList.SetData(empty);
      assert SortByName([]) == [];
      return;
    }
    var data := NewRowArray(res.data);
    routeList.SetData(data);
  }

  /** getAllBusRoutes, with the reply of the all-routes fetch as input. */
  method GetAllBusRoutes(routeList: TableDataSource, res: ListResponse)
    modifies routeList
    ensures routeList.Rows() ==
      if res.status != StatusOk || |res.data| == 0 then [] else SortByName(res.data)
    ensures |res.data| > 0 && res.status == StatusOk ==>
      multiset(routeList.Rows()) == multiset(res.data) && SortedByName(routeList.Rows())
  {
    SetFetchedRoutes(routeList, res);
    StableSortCorrect(res.data, NameOf);
  }

  /** Which fetch a `cityId` query parameter triggers. */
  datatype Fetch = AllRoutes | RoutesOfCity(cityId: string)

  /**
   * The dispatch in ngOnInit: a missing, empty or "all" `cityId` fetches
   * every route; any other value fetches that city's routes.
   */
  function FetchFor(cityId: Option<string>): (f: Fetch)
    ensures f.AllRoutes? <==> cityId == None || cityId == Some("") || cityId == Some("all")
    ensures f.RoutesOfCity? ==> Some(f.cityId) == cityId
  {
    var id := cityId.GetOr("");
    if id == "" || id == "all" then AllRoutes else RoutesOfCity(id)
  }

  class BusRouteComponent {
    var selectedCity: CitySelection
    /** The `_id` of the route being edited, "" in browse mode. */
    var selectedBusRoute: string
    const routeList: TableDataSource
    var form: Form
    var isCitySelectDisabled: bool
    var isEditMode: bool

    /** The city selector is disabled exactly in edit mode, which is on exactly when a route is selected. */
    ghost predicate Valid()
      reads this
    {
      isCitySelectDisabled == isEditMode && isEditMode == (selectedBusRoute != "")
    }

    constructor ()
      ensures Valid()
      ensures selectedCity == AllCities && selectedBusRoute == "" && form == ResetForm
      ensures !isEditMode && !isCitySelectDisabled
      ensures fresh(routeList) && routeList.Rows() == []
    {
      var empty := new Row[0];
      routeList := new TableDataSource(empty);
      selectedCity := AllCities;
      selectedBusRoute := "";
      form := ResetForm;
      isCitySelectDisabled := false;
      isEditMode := false;
    }

    /**
     * The constructor's handling of the URL's `cityId`: with no id nothing
     * is selected; otherwise, once the cities arrive, a known id selects
     * that city and an unknown one leaves the selection as it is.
     */
    method OnInitialCities(cityId: string, cityList: seq<Row>)
      modifies this
      ensures Valid() <==> old(Valid())
      ensures selectedBusRoute == old(selectedBusRoute) && form == old(form)
      ensures isEditMode == old(isEditMode) && isCitySelectDisabled == old(isCitySelectDisabled)
      ensures cityId == "" || Find(cityList, cityId).None? ==> selectedCity == old(selectedCity)
      ensures cityId != "" && Find(cityList, cityId).Some? ==>
        selectedCity == OneCity(Find(cityList, cityId).value) && selectedCity.city.id == cityId
    {
      if cityId == "" {
        return;
      }
      var currentCity := Find(cityList, cityId);
      if currentCity.None? {
        return;
      }
      selectedCity := OneCity(currentCity.value);
    }

    /** The reply to the fetch that ngOnInit dispatched for the current `cityId`. */
    method OnRoutesLoaded(res: ListResponse)
      modifies routeList
      ensures routeList.Rows() ==
        if res.status != StatusOk || |res.data| == 0 then [] else SortByName(res.data)
    {
      SetFetchedRoutes(routeList, res);
    }

    /**
     * busRouteFormOnSubmit up to the request: nothing is sent for an empty
     * name or while "all" is selected; otherwise the route is sent with the
     * selected city's id and the title-cased name.
     */
    method BusRouteFormOnSubmit() returns (req: Option<Request>)
      ensures req.None? <==> form.name == "" || selectedCity == AllCities
      ensures req.Some? ==>
        req.value.body == RouteBody(selectedCity.city.id, ToTitleCase(form.name), form.isActive)
      ensures req.Some? ==> (req.value.UpdateRequest? <==> isEditMode)
      ensures req.Some? && isEditMode ==> req.value.id == selectedBusRoute
    {
      if form.name == "" {
        return None;
      }
      if selectedCity == AllCities {
        return None;
      }
      var formData := RouteBody(selectedCity.city.id, ToTitleCase(form.name), form.isActive);
      if isEditMode {
        return Some(UpdateRequest(selectedBusRoute, formData));
      }
      return Some(CreateRequest(formData));
    }

    /** The reply to an update request. */
    method OnUpdateResponse(res: Response)
      requires Valid()
      modifies this, routeList
      ensures Valid()
      ensures selectedCity == old(selectedCity)
      ensures res.status == StatusOk ==>
        routeList.Rows() == ReplaceId(old(routeList.Rows()), res.data.id, res.data) &&
        form == ResetForm && !isEditMode && !isCitySelectDisabled && selectedBusRoute == ""
      ensures res.status == StatusConflict ==>
        routeList.Rows() == old(routeList.Rows()) &&
        form == old(form).(nameError := Duplicate) &&
        isEditMode == old(isEditMode) && selectedBusRoute == old(selectedBusRoute)
      ensures res.status != StatusOk && res.status != StatusConflict ==>
        routeList.Rows() == old(routeList.Rows()) &&
        form == old(form) && isEditMode == old(isEditMode) && selectedBusRoute == old(selectedBusRoute)
    {
      if res.status == StatusNotFound {
        return;
      }
      if res.status == StatusConflict {
        form := form.(nameError := Duplicate);
        return;
      }
      if res.status == StatusOk {
        routeList.UpdateById(res.data.id, res.data);
        form := ResetForm;
        isCitySelectDisabled := false;
        isEditMode := false;
        selectedBusRoute := "";
      }
    }

    /** The reply to a create request: a conflict marks the name, not as a duplicate. */
    method OnCreateResponse(res: Response)
      requires Valid()
      modifies this, routeList
      ensures Valid()
      ensures selectedCity == old(selectedCity) && selectedBusRoute == old(selectedBusRoute)
      ensures isEditMode == old(isEditMode)
      ensures res.status == StatusCreated ==>
        routeList.Rows() == SortByName(old(routeList.Rows()) + [res.data]) && form == ResetForm
      ensures res.status == StatusConflict ==>
        routeList.Rows() == old(routeList.Rows()) && form == old(form).(nameError := NameConflict)
      ensures res.status != StatusCreated && res.status != StatusConflict ==>
        routeList.Rows() == old(routeList.Rows()) && form == old(form)
    {
      if res.status == StatusConflict {
        form := form.(nameError := NameConflict);
        return;
      }
      if res.status == StatusCreated {
        routeList.Push(res.data);
        form := ResetForm;
      }
    }

    /**
     * Clicking the selected route returns to browse mode; clicking a route
     * of a known city selects it, its city and disables the selector; a
     * route whose city is not in the list, or whose `cityId` is a bare id
     * string rather than an embedded city, is ignored.
     */
    method RowOnClick(row: Row, cityList: seq<Row>)
      requires Valid()
      modifies this
      ensures row.id != "" ==> Valid()
      ensures row.id == old(selectedBusRoute) ==>
        form == ResetForm && !isEditMode && !isCitySelectDisabled && selectedBusRoute == "" &&
        selectedCity == old(selectedCity)
      ensures row.id != old(selectedBusRoute) && !row.cityId.Embedded? ==>
        form == old(form) && isEditMode == old(isEditMode) &&
        selectedBusRoute == old(selectedBusRoute) && selectedCity == old(selectedCity)
      ensures row.id != old(selectedBusRoute) && FindCity(cityList, row.cityId).None? ==>
        form == old(form) && isEditMode == old(isEditMode) &&
        isCitySelectDisabled == old(isCitySelectDisabled) &&
        selectedBusRoute == old(selectedBusRoute) && selectedCity == old(selectedCity)
      ensures row.id != old(selectedBusRoute) && FindCity(cityList, row.cityId).Some? ==>
        isEditMode && isCitySelectDisabled && selectedBusRoute == row.id &&
        selectedCity == OneCity(FindCity(cityList, row.cityId).value) &&
        row.cityId == Embedded(selectedCity.city.id) &&
        form == Form(row.name, row.isActive, NoError)
    {
      if row.id == selectedBusRoute {
        form := ResetForm;
        isCitySelectDisabled := false;
        isEditMode := false;
        selectedBusRoute := "";
        return;
      }
      var routeCity := FindCity(cityList, row.cityId);
      if routeCity.None? {
        return;
      }
      isEditMode := true;
      isCitySelectDisabled := true;
      selectedCity := OneCity(routeCity.value);
      selectedBusRoute := row.id;
      form := Form(row.name, row.isActive, NoError);
    }

    /** deleteOnClick with the reply's status: 200 removes the route and resets to browse mode. */
    method DeleteOnClick(busRouteId: string, status: int)
      requires Valid()
      modifies this, routeList
      ensures Valid()
      ensures selectedCity == old(selectedCity)
      ensures status == StatusOk ==>
        routeList.Rows() == WithoutId(old(routeList.Rows()), busRouteId) &&
        selectedBusRoute == "" && !isEditMode && !isCitySelectDisabled && form == ResetForm
      ensures status != StatusOk ==>
        routeList.Rows() == old(routeList.Rows()) && form == old(form) &&
        selectedBusRoute == old(selectedBusRoute) && isEditMode == old(isEditMode)
    {
      if status == StatusOk {
        routeList.RemoveById(busRouteId);
        selectedBusRoute := "";
        isCitySelectDisabled := false;
        isEditMode := false;
        form := ResetForm;
      }
    }
  }
}
