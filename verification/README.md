# Catalog service: in-memory item store and request handlers

This project models the core of a small catalog web service. The service keeps
catalog items and answers five HTTP requests about them: list, get one, create,
update and delete. The model covers four pieces:

- the item entity and its transfer objects, with the request validation that
  the `[Required]` and `[Range(1, 1000)]` annotations ask of the framework
  (`entities.dfy`, `dtos.dfy`). `[Range(1, 1000)]` has integer bounds, so the
  framework rounds the decimal price half-to-even before comparing it, and the
  prices accepted are those in (0.5, 1000.5];
- the in-memory repository: an ordered list of items seeded with three
  entries, plus list, get-by-id, append, replace-by-id and remove-by-id
  (`repository.dfy`). An operation that throws in the service returns a
  `Failure` with the exception it raises. `SingleOrDefault` throws on a
  duplicated id. `FindIndex` yields -1 for a missing id, and the indexer or
  `RemoveAt` then throws;
- the request handlers of the later service variant (`controller.dfy`). Each
  is a pure step from a store to a `Response`: the status, an optional
  `ItemDto` body, and the store afterwards. An exception that escapes the
  repository becomes `ServerError`, the hosting layer's 500. `PostItem` and
  `PutItem` put the framework's validation in front of the handlers: an
  invalid body is answered `BadRequest` before the handler runs;
- the read-only handlers of the earlier variant (`legacy_controller.dfy`).
  They run over an abstract repository whose state is a type parameter and
  whose reads may throw; a thrown read becomes `ServerError`.

Identifiers are a 128-bit newtype. Timestamps are integer ticks, and an
unassigned `DateTimeOffset` is tick 0. Prices are reals, because `decimal` is
exact. Names are strings and descriptions are nullable strings
(`Option<string>`). `Guid.NewGuid()` and `DateTimeOffset.UtcNow` are
parameters. The create handler requires the new id to be fresh, which stands
in for the generator's uniqueness.

Three behaviours of the code are worth stating plainly:
- Update keeps the stored description. The handler copies only name, price
  and update time, and ignores the request's description.
- Create reads the clock twice. Creation and update time are therefore two
  parameters, and they are equal only when the two readings are.
- The in-memory update and delete of an absent id throw. They do not
  silently do nothing.

The later entity (`Catalog.Api/Entities/Item.cs`) is declared as a class.
The update handler nevertheless uses `existingItem with { … }` on it. The model
reads that as "copy the item and override the named fields".

## Model

| member | source | states |
|---|---|---|
| Dtos.AsDtoRoundTrip | Catalog.Api/Dtos.cs:6-13 | The projection loses nothing: the entity is recovered from its `ItemDto`, the projection from that entity, and two entities have the same projection only if they are equal |
| Dtos.AsDto | Catalog.Api/Dtos.cs:6-13 | Each of the six `ItemDto` fields equals the same field of the item |
| Dtos.TrimEmptyIffBlank | Catalog.Api/Dtos.cs:16 | Trimming white space at both ends leaves nothing exactly when every character is white space |
| Dtos.Required | Catalog.Api/Dtos.cs:16 | `[Required]` accepts a name exactly when it is non-null and contains a non-white-space character |
| Dtos.RoundHalfEven | Catalog.Api/Dtos.cs:18 | The price conversion `Range` applies: the result is within 0.5 of the price, and a tie goes to the even integer |
| Dtos.RoundHalfEvenExamples | Catalog.Api/Dtos.cs:18 | 0.5 rounds to 0, 1.5 and 2.5 to 2, 0.75 to 1, 1000.5 to 1000 and 1000.75 to 1001 |
| Dtos.InPriceRange | Catalog.Api/Dtos.cs:18 | `[Range(1, 1000)]` accepts a price exactly when 0.5 < price ≤ 1000.5, because the rounded price is what is compared with 1 and 1000 |
| Dtos.ValidCreate | Catalog.Api/Dtos.cs:15-19 | A create request is valid exactly when the name is present and not blank and 0.5 < price ≤ 1000.5 |
| Dtos.ValidUpdate | Catalog.Api/Dtos.cs:22-26 | An update request is valid exactly when the name is present and not blank and 0.5 < price ≤ 1000.5 |
| Dtos.SameConstraints | Catalog.Api/Dtos.cs:15-26 | Update and create requests with the same fields are valid together or invalid together |
| Dtos.DescriptionUnconstrained | Catalog.Api/Dtos.cs:17 | Changing only the description never changes whether a request is valid |
| Dtos.PriceAcceptedWindow | Catalog.Api/Dtos.cs:18 | With a usable name, both request shapes accept a price exactly when 0.5 < price ≤ 1000.5. So 0.75 and 1000.5 pass, and 0.5 and 1000.75 are rejected |
| Dtos.BlankNameRejected | Catalog.Api/Dtos.cs:16 | A null or blank name makes both request shapes invalid, whatever the price |
| InMemItemsRepository.Seed | Catalog.Api/Repositories/InMemItemsRepository.cs:11-16 | The initial list holds exactly Potion/9, Iron Sword/20 and Bronze Shield/18, in that order, with three distinct ids, null descriptions, their own creation readings and default update times |
| InMemItemsRepository.FindIndex | Catalog.Api/Repositories/InMemItemsRepository.cs:44 | The result is the first position carrying the id, or -1 exactly when no position does |
| InMemItemsRepository.GetItem | Catalog.Api/Repositories/InMemItemsRepository.cs:27-31 | A lookup throws exactly when the id is duplicated, and yields null exactly when the id is absent; otherwise it yields the one item carrying the id |
| InMemItemsRepository.UniqueIdsIffNoDuplicate | Catalog.Api/Repositories/InMemItemsRepository.cs:29 | The list has unique ids exactly when no id makes `SingleOrDefault` throw |
| InMemItemsRepository.GetItems | Catalog.Api/Repositories/InMemItemsRepository.cs:18-25 | Listing returns every stored item at its own position: same length, same order, same items |
| InMemItemsRepository.ListingKeepsInsertionOrder | Catalog.Api/Repositories/InMemItemsRepository.cs:18-25 | Listing after an append shows the earlier listing followed by the new item |
| InMemItemsRepository.CreateItem | Catalog.Api/Repositories/InMemItemsRepository.cs:33-40 | Append grows the list by one, puts the item last, leaves earlier positions unchanged and adds its id to the id set |
| InMemItemsRepository.CreateFreshPreservesUniqueness | Catalog.Api/Repositories/InMemItemsRepository.cs:33-40 | Appending an item with a fresh id keeps ids unique, and a lookup then finds that item |
| InMemItemsRepository.CreateDuplicateBreaksLookup | Catalog.Api/Repositories/InMemItemsRepository.cs:29-35 | Appending an item whose id is already present is accepted without a check; ids are then no longer unique and every lookup of that id throws |
| InMemItemsRepository.UpdateItem | Catalog.Api/Repositories/InMemItemsRepository.cs:42-47 | Replace throws exactly when the id is absent. Otherwise it overwrites the first position with the id, keeps the length, every other position and the id set |
| InMemItemsRepository.UpdatePreservesUniqueness | Catalog.Api/Repositories/InMemItemsRepository.cs:42-47 | A successful replace keeps ids unique |
| InMemItemsRepository.DeleteItem | Catalog.Api/Repositories/InMemItemsRepository.cs:49-54 | Remove throws exactly when the id is absent. Otherwise it drops the first position with the id; the list shrinks by one and the rest keep their relative order |
| InMemItemsRepository.RemoveAt | Catalog.Api/Repositories/InMemItemsRepository.cs:52 | Removing a position shortens the list by one: earlier items stay, later ones shift down one place |
| InMemItemsRepository.RemoveAtPreservesUniqueness | Catalog.Api/Repositories/InMemItemsRepository.cs:52 | Removing a position from a list with unique ids keeps them unique |
| InMemItemsRepository.RemoveAtIds | Catalog.Api/Repositories/InMemItemsRepository.cs:52 | Removing the only position carrying an id removes exactly that id from the id set |
| InMemItemsRepository.DeleteRemovesId | Catalog.Api/Repositories/InMemItemsRepository.cs:49-54 | A successful remove keeps ids unique and removes exactly that id; a later lookup yields null |
| InMemItemsRepository.GetItemOnUniqueStore | Catalog.Api/Repositories/InMemItemsRepository.cs:27-31 | With unique ids a lookup never throws, and it finds an item with that id exactly when the id is present |
| InMemItemsRepository.FindIndexOnUniqueStore | Catalog.Api/Repositories/InMemItemsRepository.cs:44 | With unique ids the search for a position's id answers that position |
| InMemItemsRepository.LookupOnUniqueStore | Catalog.Api/Repositories/InMemItemsRepository.cs:29 | With unique ids a lookup answers exactly the item at the id's position |
| InMemItemsRepository.UpdateOnUniqueStore | Catalog.Api/Repositories/InMemItemsRepository.cs:44-45 | With unique ids a replace writes exactly the id's position, and ids stay unique |
| InMemItemsRepository.DeleteOnUniqueStore | Catalog.Api/Repositories/InMemItemsRepository.cs:51-52 | With unique ids a remove deletes exactly the id's position |
| ItemsController.GetItems | Catalog.Api/Controllers/ItemsController.cs:29-43 | Listing returns one projection per stored item, in store order, each mapping back to its item |
| ItemsController.ListingRecoversStore | Catalog.Api/Controllers/ItemsController.cs:35-38 | Mapping the listed projections back to entities yields the store itself |
| ItemsController.GetItem | Catalog.Api/Controllers/ItemsController.cs:47-57 | Get returns NotFound exactly when the id is absent, and ServerError exactly when it is duplicated. Otherwise it returns Ok with the projection of an item carrying the id. The store is unchanged |
| ItemsController.CreateItem | Catalog.Api/Controllers/ItemsController.cs:61-81 | Create answers CreatedAt and appends one item. The item has the new id, the request's name and price, a null description and the two clock readings. The body is that item's projection and earlier items are unchanged |
| ItemsController.UpdateItem | Catalog.Api/Controllers/ItemsController.cs:85-107 | Update answers NotFound for an absent id and ServerError for a duplicated one, leaving the store unchanged. Otherwise it answers NoContent with no body and rewrites one item with that id. That item keeps its id, creation time and description, takes the request's name and price and updates to now; all other items stay as they were |
| ItemsController.DeleteItem | Catalog.Api/Controllers/ItemsController.cs:111-123 | Delete answers NotFound for an absent id and ServerError for a duplicated one, leaving the store unchanged. Otherwise it answers NoContent and removes the item at that id's position; the store shrinks by one and loses exactly that id |
| ItemsController.PostItem | Catalog.Api/Controllers/ItemsController.cs:15 | A POST with an invalid body is answered BadRequest with the store unchanged. A valid POST gets exactly the answer and store of `CreateItem`, with all of that handler's promises |
| ItemsController.PutItem | Catalog.Api/Controllers/ItemsController.cs:15 | A PUT with an invalid body is answered BadRequest with the store unchanged, before any lookup. A valid PUT gets exactly the answer and store of `UpdateItem`, with all of that handler's promises |
| ItemsController.ListAfterCreate | Catalog.Api/Controllers/ItemsController.cs:61-80 | Listing after a create shows the earlier listing followed by the projection that CreatedAt returned |
| ItemsController.GetAfterCreate | Catalog.Api/Controllers/ItemsController.cs:72-80 | After a create with a fresh id, ids stay unique and a get on that id answers Ok with the same body CreatedAt carried |
| ItemsController.CreateIgnoresDescription | Catalog.Api/Controllers/ItemsController.cs:63-70 | Two create requests that differ only in description produce the same response and store |
| ItemsController.UpdateIgnoresDescription | Catalog.Api/Controllers/ItemsController.cs:97-102 | Two update requests that differ only in description produce the same response and store |
| ItemsController.UpdateOnUniqueStore | Catalog.Api/Controllers/ItemsController.cs:97-104 | With unique ids, an update of a present id answers NoContent. It replaces exactly that position with the old item carrying the new name, price and update time, and ids stay unique |
| ItemsController.GetAfterUpdate | Catalog.Api/Controllers/ItemsController.cs:87-106 | After an update of a present id, a get answers Ok. It shows the request's name and price, the new update time, and the old id, creation time and description |
| ItemsController.GetAfterDelete | Catalog.Api/Controllers/ItemsController.cs:113-122 | After a delete of a present id, the answer was NoContent, ids stay unique and a get on that id answers NotFound |
| ItemsController.HandlersKeepUniqueIds | Catalog.Api/Controllers/ItemsController.cs:47-122 | On a store with unique ids, no handler answers ServerError and every handler leaves ids unique |
| ItemsController.CreateUpdateDeleteScenario | Catalog.Api/Controllers/ItemsController.cs:61-122 | A typical session runs as follows: create Potion/9, get it, update to Elixir/15 and get the new fields with the old id and creation time. Delete then answers NoContent, a later get answers NotFound, and the store is back to what it was |
| LegacyItemsController.GetItems | Controllers/ItemsController.cs:26-30 | Listing answers ServerError with no items exactly when the repository's listing throws. Otherwise it answers Ok with one projection per repository item, in the repository's order, each mapping back to its item. The repository state is unchanged |
| LegacyItemsController.GetItem | Controllers/ItemsController.cs:34-44 | Get answers NotFound exactly when the repository answers null, and ServerError exactly when the lookup throws (for instance `SingleOrDefault` on a duplicated id). Otherwise it answers Ok with the projection of exactly the item returned. The repository state is unchanged |
| LegacyItemsController.HandlersAreReadOnly | Controllers/ItemsController.cs:26-44 | Calling one handler never changes what the other then answers |

## Left out

- `Task`, `async` and `await`: the in-memory backend returns completed tasks, so every operation is modelled synchronously.
- The logging line in the list handler: it is observability only.
- `Guid.NewGuid()` and `DateTimeOffset.UtcNow` are parameters of the functions that use them, because they are nondeterministic sources.
- ItemsController.CreateItem: requires the generated id to be absent from the store. This stands in for the generator's uniqueness. The repository-level append has no such requirement, and `CreateDuplicateBreaksLookup` shows what a duplicate does.
- Concurrent requests sharing the in-memory list, and the races between them: each handler is modelled as one atomic step.
- The in-memory list is returned by reference, so a caller sees later changes through it. The model returns a value snapshot.
- HTTP routing, `{id:guid}` parsing, model binding, and the location header built by `CreatedAtAction`: only the status and body are modelled.
- The MongoDB repository and both `Startup.cs` files are not part of this model. The first is driver calls; the second covers dependency injection, serializers, Swagger and health checks.
- A case-insensitive name filter on listing: the handlers modelled here have no such parameter.
- Dtos.InPriceRange: a price so large that rounding it overflows a 32-bit integer makes the framework's conversion throw. The model simply rejects such a price. The precision limits of `decimal` are not modelled either.
- The entity's name is modelled as non-null. A null name cannot reach the entity through these handlers, because validation rejects it first.
- LegacyItemsController.AsDto: the earlier `ItemDto` and its `AsDto` extension are not part of this model. They are assumed to copy the four fields of `Entities/Item.cs` one for one. The same assumption is made for the later `AsDto`, whose extension method is also not part of this model.
- The promise that the update time never decreases holds only when the clock does not go backwards. The model stores whatever reading it is given, and states no ordering between readings.
