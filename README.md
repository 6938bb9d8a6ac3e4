# User service and user controller of a geofencing API

This project models the user side of a small Express/Mongoose API that keeps
users, each located by a free-text address or by coordinates. It covers two
pieces of code:

- `UserService`. `createUser` enforces that exactly one of `address` and
  `coordinates` is supplied. It then fills in the other field by geocoding,
  mutating the caller's record in place, and persists the record.
  `getAllUsers`, `getUserById`, `updateUser` and `deleteUser` each make one
  store call and turn a store error into a sentinel value (`[]`, `null`,
  `null`, `false`).
- `UserController`. Each handler maps the service's result to an HTTP status
  and a JSON body.

Collaborators are abstract:

- The geocoder (`Geocoding.Geocoder`) is a pair of uninterpreted lookups.
  `reverse` maps coordinates to an address, which may be missing or empty.
  `forward` maps an address to `{lat, lon}`. Either lookup may throw.
- The user collection (`UserStore.Db`) is a sequence of documents in
  insertion order, plus the next identifier to hand out. It also has a
  `fault`: while `fault` holds a message, every store call throws that
  message and changes nothing.

`UserService.CreateUser` is an imperative method that mutates a `UserData`
object exactly as the source mutates `userData`. It returns the settled
result, the new store and the list of external calls it made. It is proved
equal to `UserService.CreateSpec`, a case-by-case definition, and the
properties are proved about that definition. `Endpoints` wires each handler
to its service call and proves end-to-end properties: input to status, and
invariants kept over any sequence of requests.

Where the code and its test suite disagree, the model follows the code:

- `updateUser` does no exclusivity check (src/services/UserService.ts:60-73),
  although src/tests/user.spec.ts:260-276 expects the error "Only one of
  address or coordinates should be updated!". It also does no geocoding; the
  same test file agrees with that (src/tests/user.spec.ts:253-257 expects the
  body to reach the store unchanged).
- `deleteUser` answers `true` for an identifier that does not exist
  (src/services/UserService.ts:76-84), although src/tests/user.spec.ts:294-307
  expects errors.

Two further points of the code's behaviour are easy to miss:

- A coordinates-only input always starts with a reverse lookup. When that
  lookup resolves to a non-empty address, a forward lookup follows and the
  caller's coordinates are replaced (src/tests/user.spec.ts:168-173 asserts
  both calls). When it throws, nothing else happens. When it resolves to a
  missing or empty address, the forward lookup is skipped and the caller's
  coordinates are kept (src/services/UserService.ts:24).
- Coordinates are stored as `[lat, lon]`, latitude first.

## Model

| member | source | states |
|---|---|---|
| `UserService.CreateSpec` | src/services/UserService.ts:6-35 | Whatever the input and the lookups answer, the final record keeps the caller's name, email and password, at most three calls are made, a thrown error leaves the store unchanged, and a success appends exactly the returned document, which holds the final record, after a store write that is the last call |
| `UserService.CreateUser` | src/services/UserService.ts:6-35 | Mutating the record step by step (address from the reverse lookup, then coordinates from the forward lookup, then one store write) gives exactly the result, store, call list and final record of `CreateSpec` on the original record |
| `UserService.ValidationPrecedesEffects` | src/services/UserService.ts:9-14 | With both fields or neither (address truthiness: `""` is absent; any coordinates value is present), create throws "Only one of address or coordinates should be passed!", makes no call and leaves store and record alone; exactly such inputs make no call |
| `UserService.CoordinatesOnlyReversesFirst` | src/services/UserService.ts:17-21 | Coordinates only, whatever the lookups answer: the first call is the reverse lookup of the caller's coordinates; when it throws, its message is re-thrown, it is the only call, and the record and store are untouched |
| `UserService.CoordinatesOnlyLooksUpBothWays` | src/services/UserService.ts:17-29 | Coordinates only, with a reverse lookup that resolves to a non-empty address: the first call is the reverse lookup of the caller's coordinates and the second is the forward lookup of the address it yields; that address is stored and the coordinates become `[lat, lon]` of the forward lookup, not the caller's |
| `UserService.BlankReverseAddressKeepsCoordinates` | src/services/UserService.ts:17-30 | Coordinates only, with a reverse lookup that resolves to a missing or empty address: the forward lookup is skipped and the record is persisted with the caller's coordinates and that falsy address |
| `UserService.AddressOnlyLooksUpForward` | src/services/UserService.ts:23-30 | Address only: no reverse lookup and exactly one forward lookup, of the caller's address; on success coordinates are `[lat, lon]` in that order, followed by one store write |
| `UserService.SuccessPersistsRecord` | src/services/UserService.ts:30-31 | On success the store gains exactly one document holding the mutated record, the result is what the store returned, the coordinates are set, and name, email and password are as given |
| `UserService.SuccessIsConsistent` | src/services/UserService.ts:17-30 | If the reverse lookup never yields a falsy address, a persisted record has an address and coordinates equal to `[lat, lon]` of its forward lookup |
| `UserService.FailFast` | src/services/UserService.ts:7-34 | Every call before the last one settled normally. A geocoder or store error stops the run, is re-thrown with the same message, and leaves the store unchanged. A success means that no call threw |
| `UserService.GetAllUsers` | src/services/UserService.ts:38-46 | All stored documents in store order, or `[]` when the store throws |
| `UserService.GetUserById` | src/services/UserService.ts:49-57 | A document with that identifier exactly when the store does not throw and holds one; otherwise null |
| `UserService.UpdateUser` | src/services/UserService.ts:60-73 | The body is applied as given to the documents with that identifier and nothing else changes: no exclusivity check and no geocoding. The result is an updated document exactly when the store does not throw and holds the identifier; otherwise null with the store unchanged |
| `UserService.UpdateReturnsMerged` | src/services/UserService.ts:65-68 | With unique identifiers, the returned document is the stored one with the body's keys applied |
| `UserService.DeleteUser` | src/services/UserService.ts:76-84 | Returns true exactly when the store call does not throw, and then the new store is the old one with the documents of that identifier removed (order, next identifier and fault kept). Otherwise returns false with the store unchanged |
| `UserService.DeleteAbsent` | src/services/UserService.ts:76-80 | Deleting an identifier that is not stored still returns true and changes nothing |
| `UserService.WithoutAbsent` | src/services/UserService.ts:78 | Removing an identifier that is not stored leaves the document sequence unchanged |
| `UserController.CreateUser` | src/controllers/UserController.ts:14-24 | A created user gets 201 with the user as body; a service error propagates and no response is sent |
| `UserController.GetAllUsers` | src/controllers/UserController.ts:26-30 | Always 200 with the service's list |
| `UserController.GetUserById` | src/controllers/UserController.ts:32-42 | 404 with `{error: "Usuário não encontrado"}` exactly when the service returns null, otherwise 200 with the user |
| `UserController.UpdateUser` | src/controllers/UserController.ts:44-55 | 400 with `{error: "Erro ao atualizar usuário"}` exactly when the service returns null, otherwise 200 with the user |
| `UserController.DeleteUser` | src/controllers/UserController.ts:57-67 | 400 with `{error: "Erro ao excluir usuário"}` exactly when the service returns false, otherwise 204 with no body |
| `Endpoints.RejectedCreatePropagates` | src/controllers/UserController.ts:14-17 | A create body with both fields or neither gets no response: the exclusivity error propagates and the store is unchanged |
| `Endpoints.CreateResponds201` | src/controllers/UserController.ts:14-24 | A create that is answered gets 201 with the document just appended to the store; a create that raises leaves the store unchanged |
| `Endpoints.Handle` | src/controllers/UserController.ts:14-67 | Each request goes to its handler, which makes its one service call with the body or path identifier unchanged and maps that call's result; only a create can leave a request unanswered, and a list or a read leaves the store unchanged |
| `Endpoints.GetResponds404` | src/controllers/UserController.ts:32-42 | Reading one user changes nothing and gets 404 exactly when the store throws or holds no such identifier |
| `Endpoints.PutResponds` | src/controllers/UserController.ts:44-55 | An update is always answered: 400 exactly when the store throws or holds no such identifier, otherwise 200 with a stored document of that identifier; a store error leaves the store unchanged |
| `Endpoints.DeleteResponds` | src/controllers/UserController.ts:57-67 | A store error on delete gets 400 with the store unchanged; otherwise 204, also for an identifier that does not exist, which leaves the store unchanged |
| `Endpoints.DeleteIsTerminal` | src/services/UserService.ts:76-84 | After a delete answered 204, reading the same identifier gets 404 |
| `Endpoints.CreateThenGet` | src/services/UserService.ts:30-31 | After a create answered 201, reading the new document's identifier gets 200 with that document |
| `Endpoints.HandleKeepsValid` | src/services/UserService.ts:30 | Any single request keeps identifiers unique and below the next one |
| `Endpoints.ServeAppend` | src/controllers/UserController.ts:14-67 | Handling requests in sequence, each seeing the store the previous one left, is a left fold: serving two batches one after the other gives the same outcomes and final store as serving their concatenation. This is a property of the sequencing, not of any one handler |
| `Endpoints.ServeKeepsValid` | src/services/UserService.ts:30 | Any sequence of requests keeps identifiers unique and below the next one |
| `Endpoints.HandleKeepsConsistent` | src/services/UserService.ts:17-30 | A single create, list, read or delete keeps every stored user's coordinates equal to the forward lookup of its address, given a reverse lookup that never yields a falsy address |
| `Endpoints.ServeKeepsConsistent` | src/services/UserService.ts:17-30 | The same holds for any sequence of requests that contains no update |
| `Endpoints.UpdateBreaksConsistency` | src/services/UserService.ts:60-73 | An update that sets only the address is answered 200, keeps the old coordinates, and so breaks that agreement for a concrete store and geocoder |
| `Values.Merge` | src/services/UserService.ts:65-67 | Each key given in an update body replaces the stored field, including with null; each absent key keeps the stored field |
| `UserStore.Lookup` | src/services/UserService.ts:51 | Finding by identifier returns a stored document with that identifier, and returns none exactly when no stored document has it |
| `UserStore.Without` | src/services/UserService.ts:78 | After delete, the stored documents are exactly the old ones without that identifier |
| `UserStore.WithoutAppend` | src/services/UserService.ts:78 | Removal distributes over concatenation, so the remaining documents keep their order |
| `UserStore.Patched` | src/services/UserService.ts:65-67 | After update, the documents with that identifier have the body applied and all other documents are unchanged, with positions kept |
| `UserStore.LookupUnique` | src/services/UserService.ts:51 | With unique identifiers, finding by identifier returns the one document that has it |
| `UserStore.LookupAppended` | src/services/UserService.ts:30 | A document created with a fresh identifier is the one later found by that identifier |
| `UserStore.WithoutKeepsUnique` | src/services/UserService.ts:78 | Deleting keeps identifiers unique |
| `UserStore.CreateKeepsValid` | src/services/UserService.ts:30 | Creating keeps identifiers unique and below the next one |
| `UserStore.UpdateKeepsValid` | src/services/UserService.ts:65-67 | Updating keeps identifiers unique and below the next one |
| `UserStore.DeleteKeepsValid` | src/services/UserService.ts:78 | Deleting keeps identifiers unique and below the next one |

## Left out

- The geocoder's HTTP requests, URL building and `parseFloat` (src/utils/lib.ts) are not modelled. Each lookup is an uninterpreted function that resolves or throws. Its answer for a given input is assumed to stay the same for the whole run.
- Identifiers are natural numbers handed out in order. An identifier that Mongoose cannot cast, which makes the call throw, is covered only through the store's `fault`.
- The store's `fault` is a single state for all calls. A rejection of one particular document (schema validation, a duplicate key) is not told apart from an unavailable store. Either way the call throws a message.
- Request bodies are typed. A non-string `address`, or a coordinates value other than a pair or a `{lat, lon}` object, is not modelled. Numbers are `real`, so floating-point behaviour is not modelled.
- The fields of the user schema beyond address and coordinates are taken to be name, email and password. The schema file src/models/models.ts is not part of this model.
- How a raised error becomes a response is not modelled. That work belongs to `express-async-errors` and src/middleware/errorHandler.ts.
- `console.error` logging, and the `async`/`await` scheduling of concurrent requests, are not modelled.
- Routing (src/routes.ts) is not modelled: `Endpoints` takes all five handlers as reachable. The source routes only create, list and read. The constructor binds only `createUser` and `getAllUsers` to the controller (src/controllers/UserController.ts:8-12). So in the app built in src/app.ts, which loads express-async-errors (src/app.ts:3) and mounts src/middleware/errorHandler.ts (src/app.ts:26), `GET /user/:userId` reaches `getUserById` unbound, `this.userService` throws a TypeError before any store call, and the error handler answers 400. src/server.ts mounts the router without either, so there the rejected handler goes unanswered. `GetResponds404`, `DeleteIsTerminal`, `CreateThenGet` and the other `Endpoints` lemmas describe a controller whose handlers are bound, not the app as routed.
- The region service, region controller, sessions and authentication middleware are not part of this model.
