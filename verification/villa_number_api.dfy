/**
  The villa-number controller, over both tables: a villa number is keyed by
  its `villaNo` and names a villa through `villaId`. Every action builds a
  fresh envelope and turns an exception into a failed envelope answered with
  HTTP 200.
 */
module VillaNumberApi {
  import opened Wrappers
  import opened Models
  import Repository
  import VillaApi

  /** The model-state entry a taken villa number is rejected with. */
  const DuplicateNumber := ModelError("CustomError", "Villa Number already exist!")

  /** The model-state entry an unknown villa id is rejected with. */
  const InvalidVillaId := ModelError("CustomError", "Villa Id is invlaid!")

  /** The filter that selects villa numbers by number. */
  function NumberIs(no: int): VillaNumber -> bool {
    Repository.KeyIs(VillaNumberKey, no)
  }

  /** `NumberIs(no)` passes exactly the villa numbers whose number is `no`. */
  lemma NumberIsSelects(no: int)
    ensures forall n: VillaNumber :: Repository.Matches(Some(NumberIs(no)), n) <==> n.villaNo == no
  {
    Repository.KeyIsSelects(VillaNumberKey, no);
  }

  /** `GET api/VillaNumberApi`: every stored villa number. */
  function GetVillaNumbers(db: Store, health: StoreHealth): (r: Step)
    ensures r.store == db
    ensures health.Unavailable? ==> r.action == Ok(Failed(health.message))
    ensures health.Available? ==> r.action.Ok? && r.action.body.isSuccess && r.action.body.statusCode == OK
    ensures health.Available? ==> r.action.body.result == NumberListResult(VillaNumberDtos(db.villaNumbers))
  {
    match health
    case Unavailable(m) => Step(db, Ok(Failed(m)))
    case Available =>
      var numbers := Repository.GetAll(db.villaNumbers, None);
      Step(db, Ok(Answer(OK, NumberListResult(VillaNumberDtos(numbers)))))
  }

  /** `GET api/VillaNumberApi/{id}`: the villa number whose `villaNo` is `id`. */
  function GetVillaNumber(db: Store, health: StoreHealth, id: int): (r: Step)
    ensures r.store == db
    ensures id == 0 ==> r.action == BadRequest
    ensures id != 0 && health.Unavailable? ==> r.action == Ok(Failed(health.message))
    ensures id != 0 && health.Available? && !NumberExists(db.villaNumbers, id) ==> r.action == NotFound
    ensures Succeeded(r.action) <==> id != 0 && health.Available? && NumberExists(db.villaNumbers, id)
    ensures Succeeded(r.action) ==>
      exists i :: 0 <= i < |db.villaNumbers| && db.villaNumbers[i].villaNo == id
        && r.action == Ok(Answer(OK, NumberResult(ToVillaNumberDto(db.villaNumbers[i]))))
  {
    if id == 0 then Step(db, BadRequest)
    else
      match health
      case Unavailable(m) => Step(db, Ok(Failed(m)))
      case Available =>
        NumberIsSelects(id);
        match Repository.Get(db.villaNumbers, Some(NumberIs(id)), true)
        case None => Step(db, NotFound)
        case Some(n) => Step(db, Ok(Answer(OK, NumberResult(ToVillaNumberDto(n)))))
  }

  /**
    `POST api/VillaNumberApi`: creates a villa number. A taken number is
    rejected first, an unknown villa id second. The request body is
    dereferenced before its null check, so a missing body ends in the catch
    block.
   */
  function CreateVillaNumber(db: Store, health: StoreHealth, dto: Option<VillaNumberCreateDto>): (r: Step)
    ensures r.store.villas == db.villas
    ensures Repository.UniqueKeys(db.villaNumbers, VillaNumberKey) ==>
      Repository.UniqueKeys(r.store.villaNumbers, VillaNumberKey)
    ensures !Succeeded(r.action) ==> r.store == db
    ensures dto.None? ==> r.action == Ok(Failed(NullReferenceMessage))
    ensures dto.Some? && health.Unavailable? ==> r.action == Ok(Failed(health.message))
    ensures dto.Some? && health.Available? && NumberExists(db.villaNumbers, dto.value.villaNo) ==>
      r.action == BadRequestWithErrors([DuplicateNumber])
    ensures dto.Some? && health.Available? && !NumberExists(db.villaNumbers, dto.value.villaNo)
            && !VillaExists(db.villas, dto.value.villaId)
      ==> r.action == BadRequestWithErrors([InvalidVillaId])
    ensures Succeeded(r.action) <==>
      dto.Some? && health.Available? && !NumberExists(db.villaNumbers, dto.value.villaNo)
      && VillaExists(db.villas, dto.value.villaId)
    ensures Succeeded(r.action) ==>
      var n := VillaNumberFromCreate(dto.value);
      && r.store.villaNumbers == db.villaNumbers + [n]
      && r.action == CreatedAtRoute("GetVillaNumber", n.villaNo, Answer(Created, NumberResult(ToVillaNumberDto(n))))
      && VillaExists(r.store.villas, n.villaId)
      && forall i :: 0 <= i < |db.villaNumbers| ==> db.villaNumbers[i].villaNo != n.villaNo
  {
    match dto
    case None => Step(db, Ok(Failed(NullReferenceMessage)))
    case Some(d) =>
      match health
      case Unavailable(m) => Step(db, Ok(Failed(m)))
      case Available =>
        NumberIsSelects(d.villaNo);
        VillaApi.IdIsSelects(d.villaId);
        if Repository.Get(db.villaNumbers, Some(NumberIs(d.villaNo)), true).Some? then
          Step(db, BadRequestWithErrors([DuplicateNumber]))
        else if Repository.Get(db.villas, Some(VillaApi.IdIs(d.villaId)), true).None? then
          Step(db, BadRequestWithErrors([InvalidVillaId]))
        else
          InsertNumber(db, VillaNumberFromCreate(d))
  }

  /** A number is taken exactly when the table holds a row with that key. */
  lemma NumberExistsIsKey(numbers: seq<VillaNumber>, no: int)
    ensures NumberExists(numbers, no) <==> Repository.HasKey(numbers, VillaNumberKey, no)
  {
    if NumberExists(numbers, no) {
      var i :| 0 <= i < |numbers| && numbers[i].villaNo == no;
      assert VillaNumberKey(numbers[i]) == no;
    }
  }

  /** The last step of a creation: insert `n` and answer through the `GetVillaNumber` route. */
  function InsertNumber(db: Store, n: VillaNumber): (r: Step)
    ensures r.store.villas == db.villas
    ensures Repository.UniqueKeys(db.villaNumbers, VillaNumberKey) ==>
      Repository.UniqueKeys(r.store.villaNumbers, VillaNumberKey)
    ensures NumberExists(db.villaNumbers, n.villaNo) ==>
      r == Step(db, Ok(Failed(PersistenceMessage(Repository.DuplicateKey))))
    ensures !NumberExists(db.villaNumbers, n.villaNo) ==>
      && r.store.villaNumbers == db.villaNumbers + [n]
      && r.action == CreatedAtRoute("GetVillaNumber", n.villaNo, Answer(Created, NumberResult(ToVillaNumberDto(n))))
  {
    NumberExistsIsKey(db.villaNumbers, n.villaNo);
    match Repository.Create(db.villaNumbers, VillaNumberKey, n)
    case Failure(e) => Step(db, Ok(Failed(PersistenceMessage(e))))
    case Success(numbers) =>
      assert numbers == numbers[..|db.villaNumbers|] + [numbers[|db.villaNumbers|]];
      Step(db.(villaNumbers := numbers),
           CreatedAtRoute("GetVillaNumber", n.villaNo, Answer(Created, NumberResult(ToVillaNumberDto(n)))))
  }

  /**
    `DELETE api/VillaNumberApi/{id}`: deletes the villa number whose
    `villaNo` is `id`; a missing one is answered with 400, not 404.
   */
  function DeleteVillaNumber(db: Store, health: StoreHealth, id: int): (r: Step)
    ensures r.store.villas == db.villas
    ensures Repository.UniqueKeys(db.villaNumbers, VillaNumberKey) ==>
      Repository.UniqueKeys(r.store.villaNumbers, VillaNumberKey)
    ensures !Succeeded(r.action) ==> r.store == db
    ensures id == 0 ==> r.action == BadRequest
    ensures id != 0 && health.Unavailable? ==> r.action == Ok(Failed(health.message))
    ensures id != 0 && health.Available? && !NumberExists(db.villaNumbers, id) ==> r.action == BadRequest
    ensures Succeeded(r.action) <==> id != 0 && health.Available? && NumberExists(db.villaNumbers, id)
    ensures Succeeded(r.action) ==> r.action == Ok(Answer(NoContent, NoResult))
    ensures Succeeded(r.action) ==>
      forall i :: 0 <= i < |r.store.villaNumbers| ==>
        r.store.villaNumbers[i] in db.villaNumbers && r.store.villaNumbers[i].villaNo != id
    ensures Succeeded(r.action) ==>
      forall i :: 0 <= i < |db.villaNumbers| && db.villaNumbers[i].villaNo != id ==>
        db.villaNumbers[i] in r.store.villaNumbers
  {
    if id == 0 then Step(db, BadRequest)
    else
      match health
      case Unavailable(m) => Step(db, Ok(Failed(m)))
      case Available =>
        NumberIsSelects(id);
        match Repository.Get(db.villaNumbers, Some(NumberIs(id)), true)
        case None => Step(db, BadRequest)
        case Some(n) =>
          match Repository.Remove(db.villaNumbers, VillaNumberKey, n)
          case Failure(e) => Step(db, Ok(Failed(PersistenceMessage(e))))
          case Success(numbers) => Step(db.(villaNumbers := numbers), Ok(Answer(NoContent, NoResult)))
  }

  /**
    `PUT api/VillaNumberApi/{id}`: replaces the villa number with the one
    built from the request body. The route id must equal the body's
    `villaNo` and the body's villa id must name a villa; a missing villa
    number makes the store's commit throw.
   */
  function UpdateVillaNumber(db: Store, health: StoreHealth, id: int, dto: Option<VillaNumberUpdateDto>): (r: Step)
    ensures r.store.villas == db.villas
    ensures Repository.UniqueKeys(db.villaNumbers, VillaNumberKey) ==>
      Repository.UniqueKeys(r.store.villaNumbers, VillaNumberKey)
    ensures !Succeeded(r.action) ==> r.store == db
    ensures dto.None? || id != dto.value.villaNo ==> r.action == BadRequest
    ensures dto.Some? && id == dto.value.villaNo && health.Unavailable? ==> r.action == Ok(Failed(health.message))
    ensures dto.Some? && id == dto.value.villaNo && health.Available? && !VillaExists(db.villas, dto.value.villaId) ==>
      r.action == BadRequestWithErrors([InvalidVillaId])
    ensures dto.Some? && id == dto.value.villaNo && health.Available? && VillaExists(db.villas, dto.value.villaId)
            && !NumberExists(db.villaNumbers, id)
      ==> r.action == Ok(Failed(PersistenceMessage(Repository.RowMissing)))
    ensures Succeeded(r.action) <==>
      dto.Some? && id == dto.value.villaNo && health.Available? && VillaExists(db.villas, dto.value.villaId)
      && NumberExists(db.villaNumbers, id)
    ensures Succeeded(r.action) ==> r.action == Ok(Answer(NoContent, NoResult))
    ensures Succeeded(r.action) ==>
      && |r.store.villaNumbers| == |db.villaNumbers|
      && (forall i :: 0 <= i < |db.villaNumbers| && db.villaNumbers[i].villaNo == id ==>
            r.store.villaNumbers[i] == VillaNumberFromUpdate(dto.value))
      && (forall i :: 0 <= i < |db.villaNumbers| && db.villaNumbers[i].villaNo != id ==>
            r.store.villaNumbers[i] == db.villaNumbers[i])
  {
    if dto.None? || id != dto.value.villaNo then Step(db, BadRequest)
    else
      match health
      case Unavailable(m) => Step(db, Ok(Failed(m)))
      case Available =>
        var d := dto.value;
        VillaApi.IdIsSelects(d.villaId);
        if Repository.Get(db.villas, Some(VillaApi.IdIs(d.villaId)), true).None? then
          Step(db, BadRequestWithErrors([InvalidVillaId]))
        else
          var model := VillaNumberFromUpdate(d);
          match Repository.Update(db.villaNumbers, VillaNumberKey, model)
          case Failure(e) => Step(db, Ok(Failed(PersistenceMessage(e))))
          case Success(numbers) => Step(db.(villaNumbers := numbers), Ok(Answer(NoContent, NoResult)))
  }

  // ---------------------------------------------------------------- properties

  /** Every villa number names a stored villa. */
  ghost predicate ReferencesResolve(db: Store) {
    forall i :: 0 <= i < |db.villaNumbers| ==> VillaExists(db.villas, db.villaNumbers[i].villaId)
  }

  /** Creating a villa number keeps every villa number's villa resolvable. */
  lemma CreateVillaNumberKeepsReferences(db: Store, health: StoreHealth, dto: Option<VillaNumberCreateDto>)
    requires ReferencesResolve(db)
    ensures ReferencesResolve(CreateVillaNumber(db, health, dto).store)
  {
  }

  /** Updating a villa number keeps every villa number's villa resolvable. */
  lemma UpdateVillaNumberKeepsReferences(db: Store, health: StoreHealth, id: int, dto: Option<VillaNumberUpdateDto>)
    requires ReferencesResolve(db)
    ensures ReferencesResolve(UpdateVillaNumber(db, health, id, dto).store)
  {
  }

  /** Deleting a villa number keeps every remaining villa number's villa resolvable. */
  lemma DeleteVillaNumberKeepsReferences(db: Store, health: StoreHealth, id: int)
    requires ReferencesResolve(db)
    ensures ReferencesResolve(DeleteVillaNumber(db, health, id).store)
  {
  }

  /**
    Deleting a villa does not look at villa numbers: in this model, which has
    no foreign key between the two tables, it can leave a villa number naming
    a villa that is gone.
   */
  lemma DeleteVillaCanOrphanNumbers()
    ensures exists db: Store, id: int ::
      ReferencesResolve(db) && Succeeded(VillaApi.DeleteVilla(db, Available, id).action)
      && !ReferencesResolve(VillaApi.DeleteVilla(db, Available, id).store)
  {
    var info := VillaInfo("A", "", 0.0, 1, 1, "", "");
    var db := Store([Villa(1, info)], [VillaNumber(101, 1, "")]);
    assert VillaExists(db.villas, 1) by { assert db.villas[0].id == 1; }
    assert ReferencesResolve(db);
    var r := VillaApi.DeleteVilla(db, Available, 1);
    assert Succeeded(r.action);
    assert r.store.villaNumbers[0].villaId == 1;
    assert !ReferencesResolve(r.store);
  }

  /** A successful villa-number deletion removes only the matched entry. */
  lemma DeleteVillaNumberRemovesExactlyOne(db: Store, health: StoreHealth, id: int)
    requires Repository.UniqueKeys(db.villaNumbers, VillaNumberKey)
    requires Succeeded(DeleteVillaNumber(db, health, id).action)
    ensures exists n :: n in db.villaNumbers && n.villaNo == id &&
      multiset(DeleteVillaNumber(db, health, id).store.villaNumbers) == multiset(db.villaNumbers) - multiset{n}
  {
    NumberIsSelects(id);
    var n := Repository.Get(db.villaNumbers, Some(NumberIs(id)), true).value;
    Repository.RemoveExactlyOne(db.villaNumbers, VillaNumberKey, n);
  }

  /**
    The two creations answer differently: a villa creation answers HTTP 200
    with an envelope that says 201, a villa-number creation answers HTTP 201
    through the `GetVillaNumber` route.
   */
  lemma CreationStatuses(db: Store, health: StoreHealth, villa: Option<VillaCreateDto>, identity: int,
                         number: Option<VillaNumberCreateDto>)
    ensures
      var r := VillaApi.CreateVilla(db, health, villa, identity).action;
      Succeeded(r) ==> r.HttpStatus() == 200 && r.body.statusCode.Value() == 201
    ensures
      var r := CreateVillaNumber(db, health, number).action;
      Succeeded(r) ==> r.HttpStatus() == 201 && r.body.statusCode.Value() == 201
  {
  }
}
