/**
  Entities, transfer objects, the generic response envelope and the result
  of a controller action, as the villa API exchanges them.
 */
module Models {
  import opened Wrappers
  import Repository

  // ---------------------------------------------------------------- entities

  /**
    The descriptive fields of a villa, shared by the entity and its transfer
    objects. The model never computes with them, it only copies them;
    `rate` stands for the source's floating-point nightly rate.
   */
  datatype VillaInfo = VillaInfo(
    name: string,
    details: string,
    rate: real,
    occupancy: int,
    sqft: int,
    imageUrl: string,
    amenity: string)

  /** A stored villa; `id` is its primary key, generated by the store. */
  datatype Villa = Villa(id: int, info: VillaInfo)

  /** A stored villa number; `villaNo` is its primary key, `villaId` names a villa. */
  datatype VillaNumber = VillaNumber(villaNo: int, villaId: int, specialDetails: string)

  /** The primary key of a villa. */
  function VillaKey(v: Villa): int { v.id }

  /** The primary key of a villa number. */
  function VillaNumberKey(n: VillaNumber): int { n.villaNo }

  // ---------------------------------------------------------------- transfer objects

  datatype VillaDto = VillaDto(id: int, info: VillaInfo)
  datatype VillaCreateDto = VillaCreateDto(info: VillaInfo)
  datatype VillaUpdateDto = VillaUpdateDto(id: int, info: VillaInfo)

  datatype VillaNumberDto = VillaNumberDto(villaNo: int, villaId: int, specialDetails: string)
  datatype VillaNumberCreateDto = VillaNumberCreateDto(villaNo: int, villaId: int, specialDetails: string)
  datatype VillaNumberUpdateDto = VillaNumberUpdateDto(villaNo: int, villaId: int, specialDetails: string)

  // The object mapper copies fields of the same name from one shape to another.

  /** A new villa from its creation request; `id` is the key the store generates on insert. */
  function VillaFromCreate(dto: VillaCreateDto, id: int): Villa { Villa(id, dto.info) }

  function VillaFromUpdate(dto: VillaUpdateDto): Villa { Villa(dto.id, dto.info) }

  function ToVillaDto(v: Villa): VillaDto { VillaDto(v.id, v.info) }

  function ToVillaUpdateDto(v: Villa): VillaUpdateDto { VillaUpdateDto(v.id, v.info) }

  function VillaNumberFromCreate(dto: VillaNumberCreateDto): VillaNumber {
    VillaNumber(dto.villaNo, dto.villaId, dto.specialDetails)
  }

  function VillaNumberFromUpdate(dto: VillaNumberUpdateDto): VillaNumber {
    VillaNumber(dto.villaNo, dto.villaId, dto.specialDetails)
  }

  function ToVillaNumberDto(n: VillaNumber): VillaNumberDto {
    VillaNumberDto(n.villaNo, n.villaId, n.specialDetails)
  }

  /** A list of villas mapped element by element. */
  function VillaDtos(vs: seq<Villa>): (r: seq<VillaDto>)
    ensures |r| == |vs|
    ensures forall i :: 0 <= i < |vs| ==> r[i] == ToVillaDto(vs[i])
  {
    seq(|vs|, i requires 0 <= i < |vs| => ToVillaDto(vs[i]))
  }

  /** A list of villa numbers mapped element by element. */
  function VillaNumberDtos(ns: seq<VillaNumber>): (r: seq<VillaNumberDto>)
    ensures |r| == |ns|
    ensures forall i :: 0 <= i < |ns| ==> r[i] == ToVillaNumberDto(ns[i])
  {
    seq(|ns|, i requires 0 <= i < |ns| => ToVillaNumberDto(ns[i]))
  }

  // ---------------------------------------------------------------- names

  /** Lower-cases one character (ASCII letters only). */
  function LowerChar(c: char): (r: char)
    ensures !('A' <= r <= 'Z')
    ensures 'a' <= c <= 'z' || !('A' <= c <= 'Z') ==> r == c
  {
    if 'A' <= c <= 'Z' then (c as int - 'A' as int + 'a' as int) as char else c
  }

  /** `ToLower`, as the name comparison of a villa creation applies it to both sides. */
  function Lower(s: string): (r: string)
    ensures |r| == |s|
    ensures forall i :: 0 <= i < |s| ==> r[i] == LowerChar(s[i])
  {
    seq(|s|, i requires 0 <= i < |s| => LowerChar(s[i]))
  }

  // ---------------------------------------------------------------- the envelope

  /** The status an envelope reports; `Unset` is the enum's default value 0. */
  datatype HttpStatusCode = Unset | OK | Created | NoContent {
    function Value(): nat {
      match this
      case Unset => 0
      case OK => 200
      case Created => 201
      case NoContent => 204
    }
  }

  /** What the untyped `Result` field of an envelope holds. */
  datatype Payload =
    | NoResult
    | VillaResult(villa: VillaDto)
    | VillaListResult(villas: seq<VillaDto>)
    | NumberResult(number: VillaNumberDto)
    | NumberListResult(numbers: seq<VillaNumberDto>)

  /** The generic response envelope; `errorMessages` is `None` while the list is null. */
  datatype ApiResponse = ApiResponse(
    statusCode: HttpStatusCode,
    isSuccess: bool,
    errorMessages: Option<seq<string>>,
    result: Payload)

  /** The envelope every controller builds afresh for a request. */
  const Fresh: ApiResponse := ApiResponse(Unset, true, None, NoResult)

  /** A successful envelope carrying `status` and `result`. */
  function Answer(status: HttpStatusCode, result: Payload): (r: ApiResponse)
    ensures r.isSuccess && r.errorMessages.None?
    ensures r.statusCode == status && r.result == result
  {
    Fresh.(statusCode := status, result := result)
  }

  /** The envelope a controller's catch block returns for an exception with `message`. */
  function Failed(message: string): (r: ApiResponse)
    ensures !r.isSuccess && r.errorMessages == Some([message])
    ensures r.statusCode == Unset && r.result == NoResult
  {
    Fresh.(isSuccess := false, errorMessages := Some([message]))
  }

  /**
    The envelope's own invariant: a success carries no error list; a failure
    carries exactly one message, no result and no status.
   */
  predicate WellFormed(r: ApiResponse) {
    && (r.isSuccess <==> r.errorMessages.None?)
    && (!r.isSuccess ==> |r.errorMessages.value| == 1 && r.result == NoResult && r.statusCode == Unset)
  }

  // ---------------------------------------------------------------- action results

  /** An entry of the controller's model state. */
  datatype ModelError = ModelError(key: string, message: string)

  /**
    What an action hands back to the web framework. `Ok` covers both
    `Ok(_response)` and a bare `return _response;`, which both answer 200
    with the envelope as body.
   */
  datatype ActionResult =
    | Ok(body: ApiResponse)
    | CreatedAtRoute(routeName: string, routeId: int, body: ApiResponse)
    | BadRequest
    | BadRequestWithErrors(errors: seq<ModelError>)
    | NotFound
    | NoContentResult
    | Unhandled(message: string)
  {
    /** The HTTP status the framework answers with. */
    function HttpStatus(): nat {
      match this
      case Ok(_) => 200
      case CreatedAtRoute(_, _, _) => 201
      case BadRequest => 400
      case BadRequestWithErrors(_) => 400
      case NotFound => 404
      case NoContentResult => 204
      case Unhandled(_) => 500
    }

    predicate HasBody() { Ok? || CreatedAtRoute? }
  }

  /** The action accepted the request: it answered with a successful envelope. */
  predicate Succeeded(a: ActionResult) {
    a.HasBody() && a.body.isSuccess
  }

  // ---------------------------------------------------------------- the store

  /** Both tables of the database. */
  datatype Store = Store(villas: seq<Villa>, villaNumbers: seq<VillaNumber>)

  /**
    Whether the database answers. While it is `Unavailable`, every round trip
    to it throws an exception carrying `message`.
   */
  datatype StoreHealth = Available | Unavailable(message: string)

  /** The store after an action and the action's result. */
  datatype Step = Step(store: Store, action: ActionResult)

  /** The message of a null dereference. */
  const NullReferenceMessage := "Object reference not set to an instance of an object."

  /** The message of the exception the store throws when it refuses a commit. */
  function PersistenceMessage(e: Repository.PersistenceError): string {
    match e
    case DuplicateKey => "An error occurred while saving the entity changes. See the inner exception for details."
    case RowMissing => "The database operation was expected to affect 1 row(s), but actually affected 0 row(s)."
  }

  /** Some villa has id `id`. */
  predicate VillaExists(villas: seq<Villa>, id: int) {
    exists i :: 0 <= i < |villas| && villas[i].id == id
  }

  /** Some villa's name equals `name` once both are lower-cased. */
  predicate NameTaken(villas: seq<Villa>, name: string) {
    exists i :: 0 <= i < |villas| && Lower(villas[i].info.name) == Lower(name)
  }

  /** Some villa number has number `no`. */
  predicate NumberExists(numbers: seq<VillaNumber>, no: int) {
    exists i :: 0 <= i < |numbers| && numbers[i].villaNo == no
  }

}
