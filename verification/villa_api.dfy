/**
  The villa controller. Each action is a transition from the store before the
  request to the store after it, together with the action's result. Every
  action builds a fresh envelope, and every action but `UpdatePartialVilla`
  turns an exception into a failed envelope answered with HTTP 200.
 */
module VillaApi {
  import opened Wrappers
  import opened Models
  import Repository

  /** The model-state entry a duplicate villa name is rejected with. */
  const DuplicateName := ModelError("CustomError", "Villa already exist!")

  /** The filter that selects villas by id. */
  function IdIs(id: int): Villa -> bool {
    Repository.KeyIs(VillaKey, id)
  }

  /** `IdIs(id)` passes exactly the villas whose id is `id`. */
  lemma IdIsSelects(id: int)
    ensures forall v: Villa :: Repository.Matches(Some(IdIs(id)), v) <==> v.id == id
  {
    Repository.KeyIsSelects(VillaKey, id);
  }

  /** The filter that selects villas whose name equals `name`, ignoring case. */
  function NameLike(name: string): Villa -> bool {
    (v: Villa) => Lower(v.info.name) == Lower(name)
  }

  /** `GET api/VillaApi`: every stored villa. */
  function GetVillas(db: Store, health: StoreHealth): (r: Step)
    ensures r.store == db
    ensures health.Unavailable? ==> r.action == Ok(Failed(health.message))
    ensures health.Available? ==> r.action.Ok? && r.action.body.isSuccess && r.action.body.statusCode == OK
    ensures health.Available? ==> r.action.body.result == VillaListResult(VillaDtos(db.villas))
  {
    match health
    case Unavailable(m) => Step(db, Ok(Failed(m)))
    case Available =>
      var villas := Repository.GetAll(db.villas, None);
      Step(db, Ok(Answer(OK, VillaListResult(VillaDtos(villas)))))
  }

  /** `GET api/VillaApi/{id}`: the villa with that id. */
  function GetVilla(db: Store, health: StoreHealth, id: int): (r: Step)
    ensures r.store == db
    ensures id == 0 ==> r.action == BadRequest
    ensures id != 0 && health.Unavailable? ==> r.action == Ok(Failed(health.message))
    ensures id != 0 && health.Available? && !VillaExists(db.villas, id) ==> r.action == NotFound
    ensures Succeeded(r.action) <==> id != 0 && health.Available? && VillaExists(db.villas, id)
    ensures Succeeded(r.action) ==>
      exists i :: 0 <= i < |db.villas| && db.villas[i].id == id
        && r.action == Ok(Answer(OK, VillaResult(ToVillaDto(db.villas[i]))))
  {
    if id == 0 then Step(db, BadRequest)
    else
      match health
      case Unavailable(m) => Step(db, Ok(Failed(m)))
      case Available =>
        IdIsSelects(id);
        match Repository.Get(db.villas, Some(IdIs(id)), true)
        case None => Step(db, NotFound)
        case Some(villa) => Step(db, Ok(Answer(OK, VillaResult(ToVillaDto(villa)))))
  }

  /**
    `POST api/VillaApi`: creates a villa unless one already has its name,
    compared case-insensitively. `identity` is the key the store generates
    for the inserted row. The request body is dereferenced before its null
    check, so a missing body ends in the catch block.
   */
  function CreateVilla(db: Store, health: StoreHealth, dto: Option<VillaCreateDto>, identity: int): (r: Step)
    ensures r.store.villaNumbers == db.villaNumbers
    ensures Repository.UniqueKeys(db.villas, VillaKey) ==> Repository.UniqueKeys(r.store.villas, VillaKey)
    ensures !Succeeded(r.action) ==> r.store == db
    ensures dto.None? ==> r.action == Ok(Failed(NullReferenceMessage))
    ensures dto.Some? && health.Unavailable? ==> r.action == Ok(Failed(health.message))
    ensures dto.Some? && health.Available? && NameTaken(db.villas, dto.value.info.name) ==>
      r.action == BadRequestWithErrors([DuplicateName])
    ensures dto.Some? && health.Available? && !NameTaken(db.villas, dto.value.info.name) && VillaExists(db.villas, identity)
      ==> r.action == Ok(Failed(PersistenceMessage(Repository.DuplicateKey)))
    ensures Succeeded(r.action) <==>
      dto.Some? && health.Available? && !NameTaken(db.villas, dto.value.info.name)
      && !VillaExists(db.villas, identity)
    ensures Succeeded(r.action) ==>
      var v := VillaFromCreate(dto.value, identity);
      && r.store.villas == db.villas + [v]
      && r.action == Ok(Answer(Created, VillaResult(ToVillaDto(v))))
      && forall i :: 0 <= i < |db.villas| ==> Lower(db.villas[i].info.name) != Lower(v.info.name)
  {
    match dto
    case None => Step(db, Ok(Failed(NullReferenceMessage)))
    case Some(d) =>
      match health
      case Unavailable(m) => Step(db, Ok(Failed(m)))
      case Available =>
        if Repository.Get(db.villas, Some(NameLike(d.info.name)), true).Some? then
          Step(db, BadRequestWithErrors([DuplicateName]))
        else
          var model := VillaFromCreate(d, identity);
          match Repository.Create(db.villas, VillaKey, model)
          case Failure(e) => Step(db, Ok(Failed(PersistenceMessage(e))))
          case Success(villas) =>
            Step(db.(villas := villas), Ok(Answer(Created, VillaResult(ToVillaDto(model)))))
  }

  /**
    `DELETE api/VillaApi`: deletes the villa with that id. A missing villa is
    answered with 400, not 404, and villa numbers that name the villa are
    left in place.
   */
  function DeleteVilla(db: Store, health: StoreHealth, id: int): (r: Step)
    ensures r.store.villaNumbers == db.villaNumbers
    ensures Repository.UniqueKeys(db.villas, VillaKey) ==> Repository.UniqueKeys(r.store.villas, VillaKey)
    ensures !Succeeded(r.action) ==> r.store == db
    ensures id == 0 ==> r.action == BadRequest
    ensures id != 0 && health.Unavailable? ==> r.action == Ok(Failed(health.message))
    ensures id != 0 && health.Available? && !VillaExists(db.villas, id) ==> r.action == BadRequest
    ensures Succeeded(r.action) <==> id != 0 && health.Available? && VillaExists(db.villas, id)
    ensures Succeeded(r.action) ==> r.action == Ok(Answer(NoContent, NoResult))
    ensures Succeeded(r.action) ==>
      forall i :: 0 <= i < |r.store.villas| ==> r.store.villas[i] in db.villas && r.store.villas[i].id != id
    ensures Succeeded(r.action) ==>
      forall i :: 0 <= i < |db.villas| && db.villas[i].id != id ==> db.villas[i] in r.store.villas
  {
    if id == 0 then Step(db, BadRequest)
    else
      match health
      case Unavailable(m) => Step(db, Ok(Failed(m)))
      case Available =>
        IdIsSelects(id);
        match Repository.Get(db.villas, Some(IdIs(id)), true)
        case None => Step(db, BadRequest)
        case Some(villa) =>
          match Repository.Remove(db.villas, VillaKey, villa)
          case Failure(e) => Step(db, Ok(Failed(PersistenceMessage(e))))
          case Success(villas) => Step(db.(villas := villas), Ok(Answer(NoContent, NoResult)))
  }

  /**
    `PUT api/VillaApi/{id}`: replaces the villa with the one built from the
    request body. The route id must equal the body's id; the name is not
    checked again, and a missing villa makes the store's commit throw.
   */
  function UpdateVilla(db: Store, health: StoreHealth, id: int, dto: Option<VillaUpdateDto>): (r: Step)
    ensures r.store.villaNumbers == db.villaNumbers
    ensures Repository.UniqueKeys(db.villas, VillaKey) ==> Repository.UniqueKeys(r.store.villas, VillaKey)
    ensures !Succeeded(r.action) ==> r.store == db
    ensures dto.None? || id != dto.value.id ==> r.action == BadRequest
    ensures dto.Some? && id == dto.value.id && health.Unavailable? ==> r.action == Ok(Failed(health.message))
    ensures dto.Some? && id == dto.value.id && health.Available? && !VillaExists(db.villas, id) ==>
      r.action == Ok(Failed(PersistenceMessage(Repository.RowMissing)))
    ensures Succeeded(r.action) <==>
      dto.Some? && id == dto.value.id && health.Available? && VillaExists(db.villas, id)
    ensures Succeeded(r.action) ==> r.action == Ok(Answer(NoContent, NoResult))
    ensures Succeeded(r.action) ==>
      && |r.store.villas| == |db.villas|
      && (forall i :: 0 <= i < |db.villas| && db.villas[i].id == id ==> r.store.villas[i] == VillaFromUpdate(dto.value))
      && (forall i :: 0 <= i < |db.villas| && db.villas[i].id != id ==> r.store.villas[i] == db.villas[i])
  {
    if dto.None? || id != dto.value.id then Step(db, BadRequest)
    else
      match health
      case Unavailable(m) => Step(db, Ok(Failed(m)))
      case Available =>
        // The untracked read that precedes the update; its answer is not used.
        var _ := Repository.Get(db.villas, Some(IdIs(id)), false);
        var model := VillaFromUpdate(dto.value);
        match Repository.Update(db.villas, VillaKey, model)
        case Failure(e) => Step(db, Ok(Failed(PersistenceMessage(e))))
        case Success(villas) => Step(db.(villas := villas), Ok(Answer(NoContent, NoResult)))
  }

  /**
    What applying a JSON patch document to a villa's update form yields: the
    patched form and the model-state errors the patch reported.
   */
  datatype PatchOutcome = PatchOutcome(patched: VillaUpdateDto, errors: seq<ModelError>)

  /**
    The second half of a partial update: map the patched form back to a
    villa, write it, then look at the model state.
   */
  function WritePatched(db: Store, villa: Villa, patch: VillaUpdateDto -> PatchOutcome): (r: Step)
    ensures r.store.villaNumbers == db.villaNumbers
    ensures Repository.UniqueKeys(db.villas, VillaKey) ==> Repository.UniqueKeys(r.store.villas, VillaKey)
    ensures !r.action.HasBody()
    ensures
      var outcome := patch(ToVillaUpdateDto(villa));
      var model := VillaFromUpdate(outcome.patched);
      if !VillaExists(db.villas, model.id) then r == Step(db, Unhandled(PersistenceMessage(Repository.RowMissing)))
      else
        && |r.store.villas| == |db.villas|
        && (forall i :: 0 <= i < |db.villas| && db.villas[i].id == model.id ==> r.store.villas[i] == model)
        && (forall i :: 0 <= i < |db.villas| && db.villas[i].id != model.id ==> r.store.villas[i] == db.villas[i])
        && r.action == (if |outcome.errors| == 0 then NoContentResult else BadRequestWithErrors(outcome.errors))
  {
    var outcome := patch(ToVillaUpdateDto(villa));
    var model := VillaFromUpdate(outcome.patched);
    match Repository.Update(db.villas, VillaKey, model)
    case Failure(e) => Step(db, Unhandled(PersistenceMessage(e)))
    case Success(villas) =>
      var db' := db.(villas := villas);
      if |outcome.errors| == 0 then Step(db', NoContentResult)
      else Step(db', BadRequestWithErrors(outcome.errors))
  }

  /**
    `PATCH api/VillaApi/{id}`: applies `patch` to the stored villa's update
    form and writes the result back. The write happens before the model
    state is checked, so a patch with errors is stored and then answered
    with 400. This action has no catch block: an exception is unhandled.
   */
  function UpdatePartialVilla(db: Store, health: StoreHealth, id: int,
                              patch: Option<VillaUpdateDto -> PatchOutcome>): (r: Step)
    ensures r.store.villaNumbers == db.villaNumbers
    ensures Repository.UniqueKeys(db.villas, VillaKey) ==> Repository.UniqueKeys(r.store.villas, VillaKey)
    ensures !r.action.HasBody()
    ensures patch.None? || id == 0 ==> r == Step(db, BadRequest)
    ensures patch.Some? && id != 0 && health.Unavailable? ==> r == Step(db, Unhandled(health.message))
    ensures patch.Some? && id != 0 && health.Available? && !VillaExists(db.villas, id) ==> r == Step(db, BadRequest)
    ensures patch.Some? && id != 0 && health.Available? && VillaExists(db.villas, id) ==>
      exists i :: 0 <= i < |db.villas| && db.villas[i].id == id &&
        var outcome := patch.value(ToVillaUpdateDto(db.villas[i]));
        var model := VillaFromUpdate(outcome.patched);
        if !VillaExists(db.villas, model.id) then r == Step(db, Unhandled(PersistenceMessage(Repository.RowMissing)))
        else
          && |r.store.villas| == |db.villas|
          && (forall j :: 0 <= j < |db.villas| && db.villas[j].id == model.id ==> r.store.villas[j] == model)
          && (forall j :: 0 <= j < |db.villas| && db.villas[j].id != model.id ==> r.store.villas[j] == db.villas[j])
          && r.action == (if |outcome.errors| == 0 then NoContentResult else BadRequestWithErrors(outcome.errors))
  {
    if patch.None? || id == 0 then Step(db, BadRequest)
    else
      match health
      case Unavailable(m) => Step(db, Unhandled(m))
      case Available =>
        IdIsSelects(id);
        match Repository.Get(db.villas, Some(IdIs(id)), false)
        case None => Step(db, BadRequest)
        case Some(villa) => WritePatched(db, villa, patch.value)
  }

  // ---------------------------------------------------------------- properties

  /** All names of the table are distinct once lower-cased. */
  ghost predicate NamesUnique(villas: seq<Villa>) {
    forall i, j :: 0 <= i < j < |villas| ==> Lower(villas[i].info.name) != Lower(villas[j].info.name)
  }

  /** A villa creation keeps case-insensitive name uniqueness. */
  lemma CreateVillaKeepsNamesUnique(db: Store, health: StoreHealth, dto: Option<VillaCreateDto>, identity: int)
    requires NamesUnique(db.villas)
    ensures NamesUnique(CreateVilla(db, health, dto, identity).store.villas)
  {
  }

  /**
    A villa deletion on a table with a unique key removes exactly the villa
    with that id and keeps every other villa.
   */
  lemma DeleteVillaRemovesExactlyOne(db: Store, health: StoreHealth, id: int)
    requires Repository.UniqueKeys(db.villas, VillaKey)
    requires Succeeded(DeleteVilla(db, health, id).action)
    ensures exists v :: v in db.villas && v.id == id &&
      multiset(DeleteVilla(db, health, id).store.villas) == multiset(db.villas) - multiset{v}
  {
    var v := Repository.Get(db.villas, Some(IdIs(id)), true).value;
    Repository.RemoveExactlyOne(db.villas, VillaKey, v);
  }

  /** An update never checks names: it can give two villas the same name. */
  lemma UpdateVillaCanDuplicateNames()
    ensures exists db: Store, id: int, dto: Option<VillaUpdateDto> ::
      NamesUnique(db.villas) && Succeeded(UpdateVilla(db, Available, id, dto).action)
      && !NamesUnique(UpdateVilla(db, Available, id, dto).store.villas)
  {
    var a := VillaInfo("A", "", 0.0, 1, 1, "", "");
    var b := VillaInfo("B", "", 0.0, 1, 1, "", "");
    var db := Store([Villa(1, a), Villa(2, b)], []);
    var dto := Some(VillaUpdateDto(2, a));
    var after := UpdateVilla(db, Available, 2, dto).store.villas;
    assert VillaExists(db.villas, 2) by { assert db.villas[1].id == 2; }
    assert after[0] == Villa(1, a) && after[1] == Villa(2, a);
    assert Lower(db.villas[0].info.name)[0] != Lower(db.villas[1].info.name)[0];
  }

  /** A patch whose model state has errors is written to the store all the same. */
  lemma PartialUpdateStoresRejectedPatch()
    ensures exists db: Store, patch: VillaUpdateDto -> PatchOutcome ::
      var r := UpdatePartialVilla(db, Available, 1, Some(patch));
      r.action.BadRequestWithErrors? && r.store != db
  {
    var a := VillaInfo("A", "", 0.0, 1, 1, "", "");
    var b := VillaInfo("B", "", 0.0, 1, 1, "", "");
    var db := Store([Villa(1, a)], []);
    var patch := (f: VillaUpdateDto) => PatchOutcome(VillaUpdateDto(f.id, b), [ModelError("Name", "invalid")]);
    assert VillaExists(db.villas, 1) by { assert db.villas[0].id == 1; }
    var r := UpdatePartialVilla(db, Available, 1, Some(patch));
    assert r.store.villas[0] == Villa(1, b);
  }
}
