/** Records shared by the row store and the three form controllers. */
module Types {

  datatype Option<T> = None | Some(value: T) {
    function GetOr(default: T): T {
      match this
      case Some(v) => v
      case None => default
    }
  }

  /**
   * A row's `cityId` field, typed `string | City`: absent on a city row, the
   * embedded city (of which only `_id` is read), or the bare id string, whose
   * `_id` property is undefined.
   */
  datatype CityRef = NoCity | Embedded(id: string) | PlainId(id: string)

  /**
   * One table row as the REST backend returns it. `aliases` is None when the
   * record carries no alias list (city and route rows).
   */
  datatype Row = Row(
    id: string,
    name: string,
    isActive: bool,
    cityId: CityRef,
    aliases: Option<seq<string>>)

  /** HTTP status codes the controllers branch on. */
  const StatusOk: int := 200
  const StatusCreated: int := 201
  const StatusNotFound: int := 404
  const StatusConflict: int := 409

  /** A normalised gateway response carrying one record. */
  datatype Response = Response(status: int, data: Row)

  /** A normalised gateway response carrying a collection. */
  datatype ListResponse = ListResponse(status: int, data: seq<Row>)

  /** The error a controller attaches to its name field. */
  datatype NameError = NoError | Duplicate | NameConflict

  /**
   * The name and isActive controls of a screen's form, with the error the
   * screen attaches to the name control. A control reset to null holds ""
   * here: the submit guard treats null and "" alike.
   */
  datatype Form = Form(name: string, isActive: bool, nameError: NameError)

  /** The form as `reset({isActive: true})` leaves it, which is also how it starts. */
  const ResetForm: Form := Form("", true, NoError)

  /** The city selector's value: the "all" sentinel object or a real city. */
  datatype CitySelection = AllCities | OneCity(city: Row) {
    function Id(): string {
      match this
      case AllCities => "all"
      case OneCity(c) => c.id
    }
  }

  /** The body a controller sends on create or update. */
  datatype Body =
    | CityBody(name: string, isActive: bool)
    | RouteBody(cityId: string, name: string, isActive: bool)
    | PlaceBody(cityId: string, name: string, aliases: Option<seq<string>>, isActive: bool)

  /** The request a submit handler issues. */
  datatype Request = CreateRequest(body: Body) | UpdateRequest(id: string, body: Body)
}
