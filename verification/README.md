# MagicVilla API tier in Dafny

This project models the data-access core of the MagicVilla API, along with the request handling its two API controllers run over it.

- **Repository.** The generic `Repository<T>` becomes functions over a table. A table is a `seq<T>` of committed rows, and the store identifies rows through a key function:
  - `GetAllAsync` is `GetAll`: filter and materialise.
  - `GetAsync` is `Get`: the first match, or `None`.
  - `CreateAsync`, `UpdateAsync` and `RemoveAsync` are `Create`, `Update` and `Remove`. Each stages one change and commits it in the same call through `Save`, which models `SaveAsync`.
  - The store enforces the key as a primary key. Inserting a taken key fails with `DuplicateKey`. Updating or deleting a key that no row has fails with `RowMissing`.
- **Controllers.** `VillaApiController` and `VillaNumberApiController` become pure transitions. Each takes the `Store` (both tables) and the request, and returns a `Step`: the new store plus the `ActionResult` the framework answers with.
  - `ActionResult` is one of: `Ok` with an `ApiResponse` envelope, `CreatedAtRoute`, `BadRequest`, `BadRequest` with model-state errors, `NotFound`, `NoContent`, or an unhandled exception.
  - The envelope has the source's four fields. `StatusCode` starts at the enum default (`Unset`, value 0). `IsSuccess` starts true. `ErrorMessages` is a nullable list. `Result` is a tagged payload.
- **Environment parameters.** Things the code cannot see become inputs:
  - `StoreHealth` says whether the database answers. While it is `Unavailable(message)`, every round trip throws `message`. Every action but `UpdatePartialVilla`, which has no catch block, turns that into a failed envelope.
  - `identity` is the key the database's identity column generates for an inserted villa.
  - Request bodies are `Option`s, so a null body is a case of its own.
- **Dispatch.** `Api.Handle` sends a request to its action. `Api.Run` replays a sequence of requests.

Behaviours of the code that the model keeps as written:

- `CreateVilla` and `CreateVillaNumber` read the request body (the name lookup, the number lookup) before their null check. A null body therefore ends in the catch block, not in the `BadRequest` below it.
- `CreateVilla` answers `Ok(_response)`, which is HTTP 200, with envelope status `Created`. The `CreatedAtRoute` after that return can never run. `CreateVillaNumber` does answer `CreatedAtRoute`, HTTP 201 (`VillaNumberApi.CreationStatuses`).
- When no villa or villa number has the requested id, `DeleteVilla` and `DeleteVillaNumber` answer `BadRequest`, not `NotFound`.
- `UpdateVilla` and `UpdateVillaNumber` never check that the row they replace exists. `UpdateVilla` reads it but ignores the answer. When no row has that key, the commit throws and the catch block answers.
- A failed envelope keeps the status `Unset`, and both `Ok(_response)` and a bare `return _response;` answer it with HTTP 200.
- `UpdatePartialVilla` writes the patched villa before it checks the model state, and it has no catch block.
- Two rules hold only as postconditions of particular actions, not across the whole API. Only the requests named below break them:
  - Villa numbers name stored villas. `DeleteVilla` never looks at villa numbers, so in the model, which has no foreign key (see Left out), it can orphan them (`VillaNumberApi.DeleteVillaCanOrphanNumbers`). Every other request keeps the rule (`Api.RunKeepsReferences`).
  - Names are unique once lower-cased. `UpdateVilla` never re-checks names, so it can create a duplicate (`VillaApi.UpdateVillaCanDuplicateNames`), and so can a partial update. Every other request keeps the rule (`Api.RunKeepsNamesUnique`).

## Model

| member | source | states |
|---|---|---|
| `Repository.Where` | MagicVilla_VillaApi/Repository/Repository.cs:31-34 | Every row it returns is stored and passes the predicate; every stored row that passes is returned. |
| `Repository.WhereCounts` | MagicVilla_VillaApi/Repository/Repository.cs:31-34 | A passing row comes back exactly as often as it is stored; a failing row never comes back. |
| `Repository.GetAll` | MagicVilla_VillaApi/Repository/Repository.cs:28-36 | With no filter it returns every stored row unchanged. With a filter it returns exactly the stored rows that pass. |
| `Repository.GetAllExact` | MagicVilla_VillaApi/Repository/Repository.cs:28-36 | For every value, its count in the result is its stored count if it passes the filter, and 0 otherwise: no omissions, no extras, no duplicates. |
| `Repository.Get` | MagicVilla_VillaApi/Repository/Repository.cs:38-50 | `None` exactly when no row passes the filter. Otherwise it returns the row at the first passing index. The contract does not mention `tracked`, so the flag never changes which row comes back. With no filter, the first row is returned. |
| `Repository.HeadIsFirstMatch` | MagicVilla_VillaApi/Repository/Repository.cs:45-49 | `FirstOrDefault` over `Where` returns the first passing row of the table, and is empty exactly when no row passes. |
| `Repository.Apply` | MagicVilla_VillaApi/Repository/Repository.cs:58-61 | The store accepts an insert exactly when its key is free. It accepts an update or delete exactly when its key is present. An accepted change keeps keys unique. |
| `Repository.Save` | MagicVilla_VillaApi/Repository/Repository.cs:58-61 | Commits the staged changes all-or-nothing. With nothing staged it changes nothing. A successful commit keeps the primary key unique. |
| `Repository.Create` | MagicVilla_VillaApi/Repository/Repository.cs:20-25 | Succeeds exactly when the key is free. The committed table is the old table with `e` appended: every old row is kept, `e` is present, and the multiset grows by exactly `e`. A refusal is `DuplicateKey`. |
| `Repository.Update` | MagicVilla_VillaApi/Controllers/VillaApiController.cs:176-178 | Succeeds exactly when some row has `e`'s key. Each row with that key becomes `e` as a whole, every other row stays, and the length is unchanged. A refusal is `RowMissing`. |
| `Repository.Remove` | MagicVilla_VillaApi/Repository/Repository.cs:52-56 | Succeeds exactly when some row has `e`'s key. Afterwards no row has that key, and every row with another key is still present. |
| `Repository.CreateThenGet` | MagicVilla_VillaApi/Repository/Repository.cs:20-25 | After a successful create, a read by the new row's key returns that row itself. |
| `Repository.UpdateThenGet` | MagicVilla_VillaApi/Controllers/VillaApiController.cs:173-178 | After a successful update, a read by the key returns the new entity. It is a full replacement, never a merge with the old fields. |
| `Repository.UpdateKeepsOtherKeys` | MagicVilla_VillaApi/Controllers/VillaNumberApiController.cs:169-171 | An update leaves every read by another key as it was. |
| `Repository.RemoveThenGet` | MagicVilla_VillaApi/Repository/Repository.cs:52-56 | After a successful remove, a read by the removed key finds nothing. |
| `Repository.RemoveExactlyOne` | MagicVilla_VillaApi/Repository/Repository.cs:52-56 | In a table with a unique key, removing a stored row succeeds and shrinks the multiset by exactly that row. |
| `Models.Answer` | MagicVilla_VillaApi/Models/ApiResponse.cs:7-10 | A success envelope keeps `IsSuccess` at its default true and `ErrorMessages` at null, and carries the given status and result. |
| `Models.Failed` | MagicVilla_VillaApi/Controllers/VillaApiController.cs:39-43 | The catch block's envelope has `IsSuccess` false, exactly the one exception message, no result, and the default status. |
| `VillaApi.GetVillas` | MagicVilla_VillaApi/Controllers/VillaApiController.cs:30-45 | Leaves the store unchanged. When the store answers: 200, status `OK`, and every stored villa in order. Otherwise: the failed envelope. |
| `VillaApi.GetVilla` | MagicVilla_VillaApi/Controllers/VillaApiController.cs:51-76 | Id 0 gives `BadRequest`. An unknown id gives `NotFound`. A known id gives status `OK` with a villa that has that id. Succeeds exactly when the id is non-zero, the store answers and a villa has that id. Never changes the store. |
| `VillaApi.CreateVilla` | MagicVilla_VillaApi/Controllers/VillaApiController.cs:83-129 | A null body gives the null-reference failure. A name equal to a stored one after lower-casing gives `BadRequest` with "Villa already exist!". Succeeds exactly when the name is free and the generated id is free. On success it appends exactly the new villa, answers with status `Created` and the new villa, and no older villa shares its lower-cased name. Any rejection leaves both tables unchanged. |
| `VillaApi.DeleteVilla` | MagicVilla_VillaApi/Controllers/VillaApiController.cs:135-160 | Id 0 or an unknown id gives `BadRequest`, with the store unchanged. Succeeds exactly when a villa has the id. On success: status `NoContent`, `IsSuccess` true, only villas with other ids remain, and all of them remain. Villa numbers are never touched. |
| `VillaApi.UpdateVilla` | MagicVilla_VillaApi/Controllers/VillaApiController.cs:164-189 | A null body or a route id that differs from the body's id gives `BadRequest`, with the store unchanged. An unknown id makes the commit fail. Succeeds exactly when a villa has the id. The villa with that id is then replaced as a whole by the one built from the body, every other villa stays, and the status is `NoContent`. |
| `VillaApi.UpdatePartialVilla` | MagicVilla_VillaApi/Controllers/VillaApiController.cs:194-218 | A null patch or id 0 gives `BadRequest`. An unreachable store gives an unhandled exception. An unknown id gives `BadRequest`. Otherwise the patched form is written first. Then it answers `NoContent`, or `BadRequest` with the patch's errors, which are already stored. It never answers with an envelope. |
| `VillaApi.CreateVillaKeepsNamesUnique` | MagicVilla_VillaApi/Controllers/VillaApiController.cs:88-92 | If stored names are distinct after lower-casing, they stay distinct after any villa creation. |
| `VillaApi.DeleteVillaRemovesExactlyOne` | MagicVilla_VillaApi/Controllers/VillaApiController.cs:144-152 | In a table with unique ids, a successful deletion removes exactly the one villa with that id. |
| `VillaApi.UpdateVillaCanDuplicateNames` | MagicVilla_VillaApi/Controllers/VillaApiController.cs:169-178 | There is a store with distinct names where a successful update leaves two villas with the same name. |
| `VillaApi.PartialUpdateStoresRejectedPatch` | MagicVilla_VillaApi/Controllers/VillaApiController.cs:209-216 | There is a patch that is answered with `BadRequest` but still changes the store. |
| `VillaNumberApi.GetVillaNumbers` | MagicVilla_VillaApi/Controllers/VillaNumberApiController.cs:28-43 | Leaves the store unchanged. When the store answers: status `OK` and every stored villa number in order. Otherwise: the failed envelope. |
| `VillaNumberApi.GetVillaNumber` | MagicVilla_VillaApi/Controllers/VillaNumberApiController.cs:49-74 | Id 0 gives `BadRequest`. No entry with that `VillaNo` gives `NotFound`. Otherwise the answer is status `OK` with an entry whose `VillaNo` is the id. Never changes the store. |
| `VillaNumberApi.CreateVillaNumber` | MagicVilla_VillaApi/Controllers/VillaNumberApiController.cs:81-119 | A taken `VillaNo` is rejected before anything else, with "Villa Number already exist!". A `VillaID` that names no villa is rejected next, with "Villa Id is invlaid!". Both rejections leave the store unchanged. Succeeds exactly when both checks pass. On success it appends exactly the new entry and answers `CreatedAtRoute` with status `Created`. The new `VillaNo` is then unique and its `VillaID` names a stored villa. The villa table is never touched. |
| `VillaNumberApi.DeleteVillaNumber` | MagicVilla_VillaApi/Controllers/VillaNumberApiController.cs:126-151 | Id 0 or an unknown `VillaNo` gives `BadRequest`, with the store unchanged. On success: status `NoContent`, and only the matched entry is gone. The villa table is never touched. |
| `VillaNumberApi.UpdateVillaNumber` | MagicVilla_VillaApi/Controllers/VillaNumberApiController.cs:155-182 | A null body, or a route id that differs from the body's `VillaNo`, gives `BadRequest`. A `VillaID` that names no villa gives `BadRequest` with "Villa Id is invlaid!". Both leave the store unchanged. Succeeds exactly when the checks pass and the entry exists. On success the entry with that key is replaced by the body's fields, every other entry stays, and the status is `NoContent`. |
| `VillaNumberApi.CreateVillaNumberKeepsReferences` | MagicVilla_VillaApi/Controllers/VillaNumberApiController.cs:91-107 | If every villa number names a stored villa, that still holds after any villa-number creation. |
| `VillaNumberApi.UpdateVillaNumberKeepsReferences` | MagicVilla_VillaApi/Controllers/VillaNumberApiController.cs:164-171 | If every villa number names a stored villa, that still holds after any villa-number update. |
| `VillaNumberApi.DeleteVillaNumberKeepsReferences` | MagicVilla_VillaApi/Controllers/VillaNumberApiController.cs:135-140 | If every villa number names a stored villa, that still holds after any villa-number deletion. |
| `VillaNumberApi.DeleteVillaNumberRemovesExactlyOne` | MagicVilla_VillaApi/Controllers/VillaNumberApiController.cs:135-143 | In a table with unique numbers, a successful deletion removes exactly the one entry with that `VillaNo`. |
| `VillaNumberApi.CreationStatuses` | MagicVilla_VillaApi/Controllers/VillaApiController.cs:118-121 | A successful villa creation answers HTTP 200 with an envelope whose status is 201. A successful villa-number creation answers HTTP 201 with an envelope whose status is also 201. |
| `VillaNumberApi.DeleteVillaCanOrphanNumbers` | MagicVilla_VillaApi/Controllers/VillaApiController.cs:144-149 | There is a store where every villa number names a villa, yet after a successful villa deletion some villa number names a villa that is gone. |
| `Api.Handle` | MagicVilla_VillaApi/Controllers/VillaApiController.cs:28-218 | Read requests never change the store. Every rejected request except the partial update leaves the store unchanged. Every envelope is well formed: on success, no error list; on failure, exactly one message, no result and no status. Both primary keys stay unique. |
| `Api.Run` | MagicVilla_VillaApi/Controllers/VillaNumberApiController.cs:26-182 | Over any sequence of requests: one result per request, unique keys are preserved, a run of reads leaves the store unchanged, and every envelope is well formed. |
| `Api.HandleVillaKeepsIds` | MagicVilla_VillaApi/Controllers/VillaApiController.cs:164-178 | Every villa request but a deletion keeps every stored villa id. Creation appends, and both updates rewrite rows by key. |
| `Api.HandleKeepsReferences` | MagicVilla_VillaApi/Controllers/VillaNumberApiController.cs:91-95 | If every villa number names a stored villa, every request but `DeleteVilla` keeps it so. The number-side writes check the villa id, and no other villa request removes one. |
| `Api.RunKeepsReferences` | MagicVilla_VillaApi/Controllers/VillaNumberApiController.cs:164-168 | Over any sequence of requests that contains no villa deletion, every villa number keeps naming a stored villa. |
| `Api.HandleKeepsNamesUnique` | MagicVilla_VillaApi/Controllers/VillaApiController.cs:88-92 | In a store with unique keys and names distinct once lower-cased, every request but the two villa updates keeps the names distinct. Creation checks the name, and deletion only drops villas. |
| `Api.RunKeepsNamesUnique` | MagicVilla_VillaApi/Controllers/VillaApiController.cs:88-92 | Over any sequence of requests without a full or partial villa update, villa names stay distinct once lower-cased. |
| `Api.VillaLifecycle` | MagicVilla_VillaApi/Controllers/VillaApiController.cs:83-189 | For any details `a` and `b`, starting from an empty store: creating with `a` under generated id 1 answers `Created`; listing shows only that villa; replacing with `b` answers `NoContent`; reading returns `b`; deleting answers `NoContent`; the next read is `NotFound`, on an empty store. |

## Left out

- Repository.GetAll: states membership and multiplicity, not the store order the rows come back in, since the repository promises no order.
- Change tracking (`AsNoTracking`, the `tracked` flag) has no observable effect on results, so the model does not represent the tracker.
- `DbContext` internals are not modelled.
- Async execution and concurrency are not modelled: each request runs alone and in sequence.
- Mapping between entities and transfer objects is modelled as field copying.
- The field lists of `Villa`, `VillaNumber` and their DTOs come from the mapping comment and `VillaNumberUpdateDto`. The model classes themselves are not part of this model, so audit dates are omitted. So is any foreign key or cascade between villa numbers and villas.
- `UpdateAsync`'s body is not part of this model. It is modelled as a full replacement by key, following how the controllers call it. Entity Framework's insertion of an entity whose generated key is 0 is therefore not modelled.
- Applying a JSON patch document and model-state validation are library behaviour. `UpdatePartialVilla` receives their outcome as a parameter: the patched form plus the errors.
- The automatic 400 answer that the `[ApiController]` attribute gives for a missing or invalid body is not modelled. Every action body runs on any input.
- Culture-sensitive `ToLower`, and the database's `LOWER` it is translated to, are approximated by ASCII case folding.
- Routing, response-type attributes and `CreatedAtRoute` URL generation are not modelled. `CreatedAtRoute` keeps only the route name and id.
- Store faults are one `StoreHealth` per request, so every round trip of an unreachable store throws.
- A fault that hits only a later round trip (a commit after successful reads) is represented only by the store's key refusals.
- Exception messages are representative texts.
- The web tier (`VillaService`, `VillaController`, `IVillaService`, `IBaseService`) is not modelled. It is an HTTP client and view rendering whose `SendAsync` is not part of this model.
