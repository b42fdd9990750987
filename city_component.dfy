/**
 * The city screen: a table of cities and one form that either creates a
 * city (browse mode) or edits the selected one (edit mode). Each HTTP
 * reply is an input to the handler that the source runs when it arrives.
 */
module CityScreen {

  import opened Types
  import opened Utils
  import opened TableData

  class CityComponent {
    /** The `_id` of the row being edited, "" in browse mode. */
    var selectedCity: string
    const cityListTd: TableDataSource
    var form: Form
    var isEditMode: bool

    /** Edit mode is on exactly when a row is selected. */
    ghost predicate Valid()
      reads this
    {
      isEditMode == (selectedCity != "")
    }

    constructor ()
      ensures Valid()
      ensures selectedCity == "" && !isEditMode && form == ResetForm
      ensures fresh(cityListTd) && cityListTd.Rows() == []
    {
      var empty := new Row[0];
      cityListTd := new TableDataSource(empty);
      selectedCity := "";
      form := ResetForm;
      isEditMode := false;
    }

    /**
     * The reply to the constructor's city fetch: on success the shared city
     * list is sorted in place and becomes the table's rows.
     */
    method OnCitiesLoaded(ok: bool, cityList: array<Row>)
      modifies cityListTd, cityList
      ensures ok ==> cityListTd.stream == cityList && cityListTd.Rows() == SortByName(old(cityList[..]))
      ensures !ok ==> cityListTd.Rows() == old(cityListTd.Rows()) && cityList[..] == old(cityList[..])
    {
      if ok {
        cityListTd.SetData(cityList);
      }
    }

    /**
     * cityFormOnSubmit up to the request: nothing is sent for an empty name;
     * otherwise the title-cased name is sent, as an update of the selected
     * city in edit mode and as a creation in browse mode.
     */
    method CityFormOnSubmit() returns (req: Option<Request>)
      ensures req.None? <==> form.name == ""
      ensures req.Some? ==> req.value.body == CityBody(ToTitleCase(form.name), form.isActive)
      ensures req.Some? ==> (req.value.UpdateRequest? <==> isEditMode)
      ensures req.Some? && isEditMode ==> req.value.id == selectedCity
    {
      if form.name == "" {
        return None;
      }
      var formData := CityBody(ToTitleCase(form.name), form.isActive);
      if isEditMode {
        return Some(UpdateRequest(selectedCity, formData));
      }
      return Some(CreateRequest(formData));
    }

    /** The reply to an update request. */
    method OnUpdateResponse(res: Response)
      requires Valid()
      modifies this, cityListTd
      ensures Valid()
      ensures res.status == StatusOk ==>
        cityListTd.Rows() == ReplaceId(old(cityListTd.Rows()), res.data.id, res.data) &&
        form == ResetForm && !isEditMode && selectedCity == ""
      ensures res.status == StatusConflict ==>
        cityListTd.Rows() == old(cityListTd.Rows()) &&
        form == old(form).(nameError := Duplicate) &&
        isEditMode == old(isEditMode) && selectedCity == old(selectedCity)
      ensures res.status != StatusOk && res.status != StatusConflict ==>
        cityListTd.Rows() == old(cityListTd.Rows()) &&
        form == old(form) && isEditMode == old(isEditMode) && selectedCity == old(selectedCity)
    {
      if res.status == StatusNotFound {
        return;
      }
      if res.status == StatusConflict {
        form := form.(nameError := Duplicate);
        return;
      }
      if res.status == StatusOk {
        cityListTd.UpdateById(res.data.id, res.data);
        form := ResetForm;
        isEditMode := false;
        selectedCity := "";
      }
    }

    /** The reply to a create request; the selection is never touched. */
    method OnCreateResponse(res: Response)
      requires Valid()
      modifies this, cityListTd
      ensures Valid()
      ensures isEditMode == old(isEditMode) && selectedCity == old(selectedCity)
      ensures res.status == StatusCreated ==>
        cityListTd.Rows() == SortByName(old(cityListTd.Rows()) + [res.data]) && form == ResetForm
      ensures res.status == StatusConflict ==>
        cityListTd.Rows() == old(cityListTd.Rows()) && form == old(form).(nameError := Duplicate)
      ensures res.status != StatusCreated && res.status != StatusConflict ==>
        cityListTd.Rows() == old(cityListTd.Rows()) && form == old(form)
    {
      if res.status == StatusConflict {
        form := form.(nameError := Duplicate);
        return;
      }
      if res.status == StatusCreated {
        cityListTd.Push(res.data);
        form := ResetForm;
      }
    }

    /**
     * deleteOnClick with the reply's status: 200 removes the city and
     * returns to browse mode; the form keeps its values.
     */
    method DeleteOnClick(cityId: string, status: int)
      requires Valid()
      modifies this, cityListTd
      ensures Valid()
      ensures form == old(form)
      ensures status == StatusOk ==>
        cityListTd.Rows() == WithoutId(old(cityListTd.Rows()), cityId) &&
        selectedCity == "" && !isEditMode
      ensures status != StatusOk ==>
        cityListTd.Rows() == old(cityListTd.Rows()) &&
        selectedCity == old(selectedCity) && isEditMode == old(isEditMode)
    {
      if status == StatusOk {
        cityListTd.RemoveById(cityId);
        selectedCity := "";
        isEditMode := false;
      }
    }

    /**
     * Clicking the selected row leaves edit mode; clicking any other row
     * selects it and loads it into the form. The invariant survives as long
     * as the clicked row has an id.
     */
    method RowOnClick(row: Row)
      modifies this
      ensures row.id != "" ==> Valid()
      ensures row.id == old(selectedCity) ==> form == ResetForm && !isEditMode && selectedCity == ""
      ensures row.id != old(selectedCity) ==>
        isEditMode && selectedCity == row.id && form == Form(row.name, row.isActive, NoError)
    {
      if row.id == selectedCity {
        form := ResetForm;
        isEditMode := false;
        selectedCity := "";
        return;
      }
      isEditMode := true;
      selectedCity := row.id;
      form := Form(row.name, row.isActive, NoError);
    }
  }
}
