/**
  The API tier as one state machine: a request is dispatched to its
  controller action, which moves the store and answers. The guarantees
  stated here hold across every action.
 */
module Api {
  import opened Wrappers
  import opened Models
  import Repository
  import VillaApi
  import VillaNumberApi

  /** A request to one of the controller actions. */
  datatype Request =
    | GetVillas
    | GetVilla(id: int)
    | CreateVilla(villaCreate: Option<VillaCreateDto>)
    | DeleteVilla(id: int)
    | UpdateVilla(id: int, villaUpdate: Option<VillaUpdateDto>)
    | UpdatePartialVilla(id: int, patch: Option<VillaUpdateDto -> VillaApi.PatchOutcome>)
    | GetVillaNumbers
    | GetVillaNumber(id: int)
    | CreateVillaNumber(numberCreate: Option<VillaNumberCreateDto>)
    | DeleteVillaNumber(id: int)
    | UpdateVillaNumber(id: int, numberUpdate: Option<VillaNumberUpdateDto>)
  {
    /** The request only reads the store. */
    predicate IsRead() {
      GetVillas? || GetVilla? || GetVillaNumbers? || GetVillaNumber?
    }
  }

  /** Both primary keys of the store hold. */
  ghost predicate KeysUnique(db: Store) {
    && Repository.UniqueKeys(db.villas, VillaKey)
    && Repository.UniqueKeys(db.villaNumbers, VillaNumberKey)
  }

  /** The request goes to the villa controller. */
  predicate ForVillas(req: Request) {
    req.GetVillas? || req.GetVilla? || req.CreateVilla? || req.DeleteVilla? || req.UpdateVilla? || req.UpdatePartialVilla?
  }

  /** Every villa id of `before` is still the id of some villa in `after`. */
  ghost predicate KeepsVillaIds(before: seq<Villa>, after: seq<Villa>) {
    forall i :: 0 <= i < |before| ==> VillaExists(after, before[i].id)
  }

  /** Runs a request of the villa controller. Villa numbers are never touched. */
  function HandleVilla(db: Store, health: StoreHealth, identity: int, req: Request): (r: Step)
    requires ForVillas(req)
    ensures r.store.villaNumbers == db.villaNumbers
    ensures req.IsRead() ==> r.store == db
    ensures !req.UpdatePartialVilla? && !Succeeded(r.action) ==> r.store == db
    ensures r.action.HasBody() ==> WellFormed(r.action.body)
    ensures Repository.UniqueKeys(db.villas, VillaKey) ==> Repository.UniqueKeys(r.store.villas, VillaKey)
  {
    match req
    case GetVillas => VillaApi.GetVillas(db, health)
    case GetVilla(id) => VillaApi.GetVilla(db, health, id)
    case CreateVilla(dto) => VillaApi.CreateVilla(db, health, dto, identity)
    case DeleteVilla(id) => VillaApi.DeleteVilla(db, health, id)
    case UpdateVilla(id, dto) => VillaApi.UpdateVilla(db, health, id, dto)
    case UpdatePartialVilla(id, patch) => VillaApi.UpdatePartialVilla(db, health, id, patch)
  }

  /** Only a deletion takes a villa id away: creations append, updates rewrite rows by key. */
  lemma HandleVillaKeepsIds(db: Store, health: StoreHealth, identity: int, req: Request)
    requires ForVillas(req) && !req.DeleteVilla?
    ensures KeepsVillaIds(db.villas, HandleVilla(db, health, identity, req).store.villas)
  {
    var after := HandleVilla(db, health, identity, req).store.villas;
    forall i | 0 <= i < |db.villas|
      ensures VillaExists(after, db.villas[i].id)
    {
      match req
      case CreateVilla(_) => assert after[i] == db.villas[i];
      case UpdateVilla(_, _) => assert after[i].id == db.villas[i].id;
      case UpdatePartialVilla(_, _) => assert after[i].id == db.villas[i].id;
      case GetVillas | GetVilla(_) => assert after[i] == db.villas[i];
    }
  }

  /** Runs a request of the villa-number controller. Villas are never touched. */
  function HandleNumber(db: Store, health: StoreHealth, req: Request): (r: Step)
    requires !ForVillas(req)
    ensures r.store.villas == db.villas
    ensures req.IsRead() ==> r.store == db
    ensures !Succeeded(r.action) ==> r.store == db
    ensures r.action.HasBody() ==> WellFormed(r.action.body)
    ensures Repository.UniqueKeys(db.villaNumbers, VillaNumberKey) ==>
      Repository.UniqueKeys(r.store.villaNumbers, VillaNumberKey)
  {
    match req
    case GetVillaNumbers => VillaNumberApi.GetVillaNumbers(db, health)
    case GetVillaNumber(id) => VillaNumberApi.GetVillaNumber(db, health, id)
    case CreateVillaNumber(dto) => VillaNumberApi.CreateVillaNumber(db, health, dto)
    case DeleteVillaNumber(id) => VillaNumberApi.DeleteVillaNumber(db, health, id)
    case UpdateVillaNumber(id, dto) => VillaNumberApi.UpdateVillaNumber(db, health, id, dto)
  }

  /**
    Runs one request against the store. `identity` is the key the store
    generates if the request inserts a villa.
   */
  function Handle(db: Store, health: StoreHealth, identity: int, req: Request): (r: Step)
    ensures req.IsRead() ==> r.store == db
    ensures !req.UpdatePartialVilla? && !Succeeded(r.action) ==> r.store == db
    ensures r.action.HasBody() ==> WellFormed(r.action.body)
    ensures KeysUnique(db) ==> KeysUnique(r.store)
  {
    if ForVillas(req) then HandleVilla(db, health, identity, req) else HandleNumber(db, health, req)
  }

  /** One request together with the conditions the store meets it under. */
  datatype Call = Call(health: StoreHealth, identity: int, request: Request)

  /** The store after a run of requests, and every request's result in order. */
  datatype Trace = Trace(store: Store, results: seq<ActionResult>)

  /** Runs requests one after another, each against the store the previous one left. */
  function Run(db: Store, calls: seq<Call>): (t: Trace)
    ensures |t.results| == |calls|
    ensures KeysUnique(db) ==> KeysUnique(t.store)
    ensures (forall k :: 0 <= k < |calls| ==> calls[k].request.IsRead()) ==> t.store == db
    ensures forall k :: 0 <= k < |calls| && t.results[k].HasBody() ==> WellFormed(t.results[k].body)
    decreases |calls|
  {
    if |calls| == 0 then Trace(db, [])
    else
      var c := calls[0];
      var step := Handle(db, c.health, c.identity, c.request);
      var rest := Run(step.store, calls[1..]);
      Trace(rest.store, [step.action] + rest.results)
  }

  // ---------------------------------------------------------------- invariants across requests

  /**
    Every request but a villa deletion keeps every villa number's villa
    resolvable: only `DeleteVilla` removes a villa id, and it never looks at
    the villa numbers that name it.
   */
  lemma HandleKeepsReferences(db: Store, health: StoreHealth, identity: int, req: Request)
    requires VillaNumberApi.ReferencesResolve(db)
    requires !req.DeleteVilla?
    ensures VillaNumberApi.ReferencesResolve(Handle(db, health, identity, req).store)
  {
    if ForVillas(req) {
      HandleVillaKeepsIds(db, health, identity, req);
      var after := HandleVilla(db, health, identity, req).store;
      forall i | 0 <= i < |after.villaNumbers|
        ensures VillaExists(after.villas, after.villaNumbers[i].villaId)
      {
        var j :| 0 <= j < |db.villas| && db.villas[j].id == db.villaNumbers[i].villaId;
      }
    } else {
      match req
      case CreateVillaNumber(dto) => VillaNumberApi.CreateVillaNumberKeepsReferences(db, health, dto);
      case UpdateVillaNumber(id, dto) => VillaNumberApi.UpdateVillaNumberKeepsReferences(db, health, id, dto);
      case DeleteVillaNumber(id) => VillaNumberApi.DeleteVillaNumberKeepsReferences(db, health, id);
      case GetVillaNumbers | GetVillaNumber(_) =>
    }
  }

  /** A run without villa deletions keeps every villa number's villa resolvable. */
  lemma {:induction false} RunKeepsReferences(db: Store, calls: seq<Call>)
    requires VillaNumberApi.ReferencesResolve(db)
    requires forall k :: 0 <= k < |calls| ==> !calls[k].request.DeleteVilla?
    ensures VillaNumberApi.ReferencesResolve(Run(db, calls).store)
    decreases |calls|
  {
    if |calls| > 0 {
      var c := calls[0];
      HandleKeepsReferences(db, c.health, c.identity, c.request);
      RunKeepsReferences(Handle(db, c.health, c.identity, c.request).store, calls[1..]);
    }
  }

  /**
    Every request but the two villa updates keeps villa names distinct once
    lower-cased: creation checks the name, deletion only drops villas, and
    the updates are the actions that never look at names.
   */
  lemma HandleKeepsNamesUnique(db: Store, health: StoreHealth, identity: int, req: Request)
    requires KeysUnique(db) && VillaApi.NamesUnique(db.villas)
    requires !req.UpdateVilla? && !req.UpdatePartialVilla?
    ensures VillaApi.NamesUnique(Handle(db, health, identity, req).store.villas)
  {
  }

  /** A run without villa updates keeps villa names distinct once lower-cased. */
  lemma {:induction false} RunKeepsNamesUnique(db: Store, calls: seq<Call>)
    requires KeysUnique(db) && VillaApi.NamesUnique(db.villas)
    requires forall k :: 0 <= k < |calls| ==> !calls[k].request.UpdateVilla? && !calls[k].request.UpdatePartialVilla?
    ensures VillaApi.NamesUnique(Run(db, calls).store.villas)
    decreases |calls|
  {
    if |calls| > 0 {
      var c := calls[0];
      HandleKeepsNamesUnique(db, c.health, c.identity, c.request);
      RunKeepsNamesUnique(Handle(db, c.health, c.identity, c.request).store, calls[1..]);
    }
  }

  // ---------------------------------------------------------------- a scenario

  /** On an empty store, creating a villa with details `a` stores it under id 1 and answers `Created`. */
  lemma CreateStep(a: VillaInfo)
    ensures Handle(Store([], []), Available, 1, CreateVilla(Some(VillaCreateDto(a))))
         == Step(Store([Villa(1, a)], []), Ok(Answer(Created, VillaResult(VillaDto(1, a)))))
  {
  }

  /** Listing a store that holds only that villa answers it alone. */
  lemma ListStep(a: VillaInfo)
    ensures Handle(Store([Villa(1, a)], []), Available, 2, GetVillas)
         == Step(Store([Villa(1, a)], []), Ok(Answer(OK, VillaListResult([VillaDto(1, a)]))))
  {
  }

  /** Replacing villa 1 with details `b` stores `b` and answers `NoContent`. */
  lemma ReplaceStep(a: VillaInfo, b: VillaInfo)
    ensures Handle(Store([Villa(1, a)], []), Available, 2, UpdateVilla(1, Some(VillaUpdateDto(1, b))))
         == Step(Store([Villa(1, b)], []), Ok(Answer(NoContent, NoResult)))
  {
    var db := Store([Villa(1, a)], []);
    assert VillaExists(db.villas, 1) by { assert db.villas[0].id == 1; }
    var r := VillaApi.UpdateVilla(db, Available, 1, Some(VillaUpdateDto(1, b)));
    assert r.store.villas[0] == Villa(1, b);
  }

  /** Reading villa 1 answers its details `b`. */
  lemma ReadStep(b: VillaInfo)
    ensures Handle(Store([Villa(1, b)], []), Available, 2, GetVilla(1))
         == Step(Store([Villa(1, b)], []), Ok(Answer(OK, VillaResult(VillaDto(1, b)))))
  {
  }

  /** Deleting villa 1 empties the store and answers `NoContent`. */
  lemma DeleteStep(b: VillaInfo)
    ensures Handle(Store([Villa(1, b)], []), Available, 2, DeleteVilla(1))
         == Step(Store([], []), Ok(Answer(NoContent, NoResult)))
  {
  }

  /**
    A villa's life, whatever its details: created with `a` under the
    generated id 1, listed once, replaced by `b`, read back as `b`,
    deleted, and then not found, leaving the store empty. Each request
    runs against the store the previous one left.
   */
  lemma VillaLifecycle(a: VillaInfo, b: VillaInfo)
    ensures
      var created := Handle(Store([], []), Available, 1, CreateVilla(Some(VillaCreateDto(a))));
      var listed := Handle(created.store, Available, 2, GetVillas);
      var replaced := Handle(listed.store, Available, 2, UpdateVilla(1, Some(VillaUpdateDto(1, b))));
      var read := Handle(replaced.store, Available, 2, GetVilla(1));
      var deleted := Handle(read.store, Available, 2, DeleteVilla(1));
      var missing := Handle(deleted.store, Available, 2, GetVilla(1));
      && created.action == Ok(Answer(Created, VillaResult(VillaDto(1, a))))
      && listed.action == Ok(Answer(OK, VillaListResult([VillaDto(1, a)])))
      && replaced.action == Ok(Answer(NoContent, NoResult))
      && read.action == Ok(Answer(OK, VillaResult(VillaDto(1, b))))
      && deleted.action == Ok(Answer(NoContent, NoResult))
      && missing == Step(Store([], []), NotFound)
  {
    CreateStep(a);
    ListStep(a);
    ReplaceStep(a, b);
    ReadStep(b);
    DeleteStep(b);
  }
}
