/** The request handlers of the later service variant, over the in-memory
    repository. Each handler is one step from a store to a response carrying
    the status, the optional body and the store after the call. Identifier
    generation and clock readings are parameters. */
module ItemsController {
  import opened Wrappers
  import opened Entities
  import opened Dtos
  import Repo = InMemItemsRepository

  type Store = Repo.Store

  /** The action results the handlers produce. `BadRequest` is the framework's
      answer to a body that fails validation; `ServerError` is the answer to an
      exception the repository throws and nobody catches. */
  datatype Status = Ok | CreatedAt | NoContent | BadRequest | NotFound | ServerError

  /** The HTTP status code of each result. */
  function Code(status: Status): int {
    match status
    case Ok => 200
    case CreatedAt => 201
    case NoContent => 204
    case BadRequest => 400
    case NotFound => 404
    case ServerError => 500
  }

  datatype Response = Response(status: Status, body: Option<ItemDto>, store: Store)

  /** `GetItemsAsync`: the projection of every stored item, in store order. */
  function GetItems(s: Store): (dtos: seq<ItemDto>)
    ensures |dtos| == |s|
    ensures forall i :: 0 <= i < |s| ==> AsItem(dtos[i]) == s[i]
  {
    seq(|s|, i requires 0 <= i < |s| => AsDto(s[i]))
  }

  /** `GetItemAsync`: the projection of the item with the identifier, or
      NotFound when the repository yields null. */
  function GetItem(s: Store, id: Guid): (r: Response)
    ensures r.store == s
    ensures r.status in {Ok, NotFound, ServerError}
    ensures r.status == NotFound <==> id !in Repo.Ids(s)
    ensures r.status == ServerError <==> Repo.Duplicated(s, id)
    ensures r.status == Ok <==> r.body.Some?
    ensures r.status == Ok ==>
      exists i :: 0 <= i < |s| && s[i].id == id && AsItem(r.body.value) == s[i]
  {
    Repo.HasIffInIds(s, id);
    match Repo.GetItem(s, id)
    case Failure(_) => Response(ServerError, None, s)
    case Success(None) => Response(NotFound, None, s)
    case Success(Some(item)) => Response(Ok, Some(AsDto(item)), s)
  }

  /** `CreateItemAsync`: build an item from the request with the generated
      identifier and two clock readings, store it, and answer CreatedAt with
      its projection. The request's description is not copied. */
  function CreateItem(s: Store, id: Guid, createdAt: Timestamp, updatedAt: Timestamp, dto: CreateItemDto): (r: Response)
    requires ValidCreate(dto)
    requires id !in Repo.Ids(s)
    ensures r.status == CreatedAt
    ensures |r.store| == |s| + 1
    ensures forall i :: 0 <= i < |s| ==> r.store[i] == s[i]
    ensures var x := r.store[|s|];
      && x.id == id && x.name == dto.name.value && x.description.None? && x.price == dto.price
      && x.createdDate == createdAt && x.updatedDate == updatedAt
    ensures r.body == Some(AsDto(r.store[|s|]))
  {
    var item := Item(id, dto.name.value, None, dto.price, createdAt, updatedAt);
    Response(CreatedAt, Some(AsDto(item)), Repo.CreateItem(s, item))
  }

  /** `UpdateItem`: look the item up; NotFound when absent; otherwise copy it
      with the request's name and price and the current time as update time,
      replace it, and answer NoContent. */
  function UpdateItem(s: Store, id: Guid, now: Timestamp, dto: UpdateItemDto): (r: Response)
    requires ValidUpdate(dto)
    ensures r.body.None?
    ensures r.status in {NoContent, NotFound, ServerError}
    ensures r.status == NotFound <==> id !in Repo.Ids(s)
    ensures r.status == ServerError <==> Repo.Duplicated(s, id)
    ensures r.status != NoContent ==> r.store == s
    ensures r.status == NoContent ==>
      && |r.store| == |s|
      && exists k :: 0 <= k < |s| && s[k].id == id
           && r.store[k].id == s[k].id
           && r.store[k].createdDate == s[k].createdDate
           && r.store[k].description == s[k].description
           && r.store[k].name == dto.name.value
           && r.store[k].price == dto.price
           && r.store[k].updatedDate == now
           && (forall j :: 0 <= j < |s| && j != k ==> r.store[j] == s[j])
  {
    Repo.HasIffInIds(s, id);
    match Repo.GetItem(s, id)
    case Failure(_) => Response(ServerError, None, s)
    case Success(None) => Response(NotFound, None, s)
    case Success(Some(existing)) =>
      var updated := existing.(name := dto.name.value, price := dto.price, updatedDate := now);
      match Repo.UpdateItem(s, updated)
      case Failure(_) => Response(ServerError, None, s)
      case Success(s') => Response(NoContent, None, s')
  }

  /** `DeleteItem`: look the item up; NotFound when absent; otherwise remove it
      and answer NoContent. */
  function DeleteItem(s: Store, id: Guid): (r: Response)
    ensures r.body.None?
    ensures r.status in {NoContent, NotFound, ServerError}
    ensures r.status == NotFound <==> id !in Repo.Ids(s)
    ensures r.status == ServerError <==> Repo.Duplicated(s, id)
    ensures r.status != NoContent ==> r.store == s
    ensures r.status == NoContent ==>
      && |r.store| == |s| - 1
      && Repo.Ids(r.store) == Repo.Ids(s) - {id}
      && exists k :: 0 <= k < |s| && s[k].id == id && r.store == Repo.RemoveAt(s, k)
  {
    Repo.HasIffInIds(s, id);
    match Repo.GetItem(s, id)
    case Failure(_) => Response(ServerError, None, s)
    case Success(None) => Response(NotFound, None, s)
    case Success(Some(_)) =>
      match Repo.DeleteItem(s, id)
      case Failure(_) => Response(ServerError, None, s)
      case Success(s') =>
        var k := Repo.FindIndex(s, id);
        Repo.RemoveAtIds(s, k);
        Response(NoContent, None, s')
  }

  // ---------------------------------------------------------------------------
  // Validation in front of the handlers
  // ---------------------------------------------------------------------------

  /** A POST as the framework serves it: a body that fails validation is
      answered BadRequest before the handler runs; a valid one reaches
      `CreateItem`. */
  function PostItem(s: Store, id: Guid, createdAt: Timestamp, updatedAt: Timestamp, dto: CreateItemDto): (r: Response)
    requires id !in Repo.Ids(s)
    ensures r.status == BadRequest <==> !ValidCreate(dto)
    ensures r.status == BadRequest ==> r.store == s && r.body.None?
    ensures ValidCreate(dto) ==> r == CreateItem(s, id, createdAt, updatedAt, dto)
  {
    if !ValidCreate(dto) then Response(BadRequest, None, s)
    else CreateItem(s, id, createdAt, updatedAt, dto)
  }

  /** A PUT as the framework serves it: a body that fails validation is
      answered BadRequest, before any lookup, even for an absent identifier. */
  function PutItem(s: Store, id: Guid, now: Timestamp, dto: UpdateItemDto): (r: Response)
    ensures r.status == BadRequest <==> !ValidUpdate(dto)
    ensures r.status == BadRequest ==> r.store == s && r.body.None?
    ensures ValidUpdate(dto) ==> r == UpdateItem(s, id, now, dto)
  {
    if !ValidUpdate(dto) then Response(BadRequest, None, s)
    else UpdateItem(s, id, now, dto)
  }

  // ---------------------------------------------------------------------------
  // Properties relating several handlers
  // ---------------------------------------------------------------------------

  /** Listing shows one projection per stored item, field-equal and in order:
      mapping the projections back yields the store itself. */
  lemma ListingRecoversStore(s: Store)
    ensures seq(|s|, i requires 0 <= i < |s| => AsItem(GetItems(s)[i])) == s
  {
  }

  /** Listing after a create shows the earlier listing followed by the
      created item's projection. */
  lemma ListAfterCreate(s: Store, id: Guid, createdAt: Timestamp, updatedAt: Timestamp, dto: CreateItemDto)
    requires ValidCreate(dto) && id !in Repo.Ids(s)
    ensures GetItems(CreateItem(s, id, createdAt, updatedAt, dto).store) == GetItems(s) + [CreateItem(s, id, createdAt, updatedAt, dto).body.value]
  {
  }

  /** A create with a newId identifier keeps identifiers unique, and a get of
      that identifier answers Ok with the same projection CreatedAt carried. */
  lemma GetAfterCreate(s: Store, id: Guid, createdAt: Timestamp, updatedAt: Timestamp, dto: CreateItemDto)
    requires ValidCreate(dto) && id !in Repo.Ids(s) && Repo.UniqueIds(s)
    ensures Repo.UniqueIds(CreateItem(s, id, createdAt, updatedAt, dto).store)
    ensures GetItem(CreateItem(s, id, createdAt, updatedAt, dto).store, id).status == Ok
    ensures GetItem(CreateItem(s, id, createdAt, updatedAt, dto).store, id).body == CreateItem(s, id, createdAt, updatedAt, dto).body
  {
    var r := CreateItem(s, id, createdAt, updatedAt, dto);
    var item := r.store[|s|];
    assert r.store == Repo.CreateItem(s, item);
    Repo.CreateFreshPreservesUniqueness(s, item);
  }

  /** The request's description never reaches the created item. */
  lemma CreateIgnoresDescription(s: Store, id: Guid, createdAt: Timestamp, updatedAt: Timestamp,
                                 name: Option<string>, d1: Option<string>, d2: Option<string>, price: real)
    requires ValidCreate(CreateItemDto(name, d1, price)) && id !in Repo.Ids(s)
    ensures ValidCreate(CreateItemDto(name, d2, price))
    ensures CreateItem(s, id, createdAt, updatedAt, CreateItemDto(name, d1, price))
         == CreateItem(s, id, createdAt, updatedAt, CreateItemDto(name, d2, price))
  {
  }

  /** The request's description never reaches the stored item on update: the
      stored description survives. */
  lemma UpdateIgnoresDescription(s: Store, id: Guid, now: Timestamp,
                                 name: Option<string>, d1: Option<string>, d2: Option<string>, price: real)
    requires ValidUpdate(UpdateItemDto(name, d1, price))
    ensures ValidUpdate(UpdateItemDto(name, d2, price))
    ensures UpdateItem(s, id, now, UpdateItemDto(name, d1, price)) == UpdateItem(s, id, now, UpdateItemDto(name, d2, price))
  {
  }

  /** On a store without duplicates, an update of a present identifier
      replaces the item at its position by the item with the request's name
      and price and the new update time, and answers NoContent. */
  lemma UpdateOnUniqueStore(s: Store, k: nat, now: Timestamp, dto: UpdateItemDto)
    requires ValidUpdate(dto) && Repo.UniqueIds(s) && k < |s|
    ensures var r := UpdateItem(s, s[k].id, now, dto);
      && r.status == NoContent
      && r.store == s[k := s[k].(name := dto.name.value, price := dto.price, updatedDate := now)]
      && Repo.UniqueIds(r.store)
  {
    Repo.LookupOnUniqueStore(s, k);
    Repo.UpdateOnUniqueStore(s, k, s[k].(name := dto.name.value, price := dto.price, updatedDate := now));
  }

  /** An update of a present identifier keeps identifiers unique, and a get of
      it then shows the request's name and price, the new update time, and the
      old identifier, description and creation time. */
  lemma GetAfterUpdate(s: Store, id: Guid, now: Timestamp, dto: UpdateItemDto)
    requires ValidUpdate(dto) && Repo.UniqueIds(s) && id in Repo.Ids(s)
    ensures UpdateItem(s, id, now, dto).status == NoContent
    ensures Repo.UniqueIds(UpdateItem(s, id, now, dto).store)
    ensures var g := GetItem(UpdateItem(s, id, now, dto).store, id);
      && g.status == Ok
      && exists i :: 0 <= i < |s| && s[i].id == id
           && g.body.value == AsDto(s[i].(name := dto.name.value, price := dto.price, updatedDate := now))
  {
    var k :| 0 <= k < |s| && s[k].id == id;
    UpdateOnUniqueStore(s, k, now, dto);
    var s' := UpdateItem(s, id, now, dto).store;
    Repo.LookupOnUniqueStore(s', k);
  }

  /** A delete of a present identifier keeps identifiers unique, and a get of
      it then answers NotFound. */
  lemma GetAfterDelete(s: Store, id: Guid)
    requires Repo.UniqueIds(s) && id in Repo.Ids(s)
    ensures DeleteItem(s, id).status == NoContent
    ensures Repo.UniqueIds(DeleteItem(s, id).store)
    ensures GetItem(DeleteItem(s, id).store, id).status == NotFound
  {
    var r := DeleteItem(s, id);
    assert !Repo.Duplicated(s, id);
    var k :| 0 <= k < |s| && s[k].id == id && r.store == Repo.RemoveAt(s, k);
    Repo.RemoveAtPreservesUniqueness(s, k);
  }

  /** On a store without duplicate identifiers no handler throws, and every
      handler leaves the identifiers unique. */
  lemma HandlersKeepUniqueIds(s: Store, id: Guid, newId: Guid, t1: Timestamp, t2: Timestamp,
                              c: CreateItemDto, u: UpdateItemDto)
    requires Repo.UniqueIds(s)
    requires ValidCreate(c) && ValidUpdate(u) && newId !in Repo.Ids(s)
    ensures GetItem(s, id).status != ServerError
    ensures UpdateItem(s, id, t1, u).status != ServerError
    ensures DeleteItem(s, id).status != ServerError
    ensures Repo.UniqueIds(CreateItem(s, newId, t1, t2, c).store)
    ensures Repo.UniqueIds(UpdateItem(s, id, t1, u).store)
    ensures Repo.UniqueIds(DeleteItem(s, id).store)
  {
    assert !Repo.Duplicated(s, id);
    GetAfterCreate(s, newId, t1, t2, c);
    if id in Repo.Ids(s) {
      GetAfterUpdate(s, id, t1, u);
      GetAfterDelete(s, id);
    }
  }

  /** A typical session: create "Potion" at 9, read it back, rename
      it to "Elixir" at 15, read it back, delete it, and find it gone. */
  lemma CreateUpdateDeleteScenario(s: Store, id: Guid, t1: Timestamp, t2: Timestamp, t3: Timestamp)
    requires Repo.UniqueIds(s) && id !in Repo.Ids(s)
    ensures var c := PostItem(s, id, t1, t2, CreateItemDto(Some("Potion"), None, 9.0));
      && c.status == CreatedAt
      && c.body == Some(ItemDto(id, "Potion", None, 9.0, t1, t2))
      && GetItem(c.store, id).body == c.body
      && var u := PutItem(c.store, id, t3, UpdateItemDto(Some("Elixir"), None, 15.0));
      && u.status == NoContent
      && GetItem(u.store, id).body == Some(ItemDto(id, "Elixir", None, 15.0, t1, t3))
      && var d := DeleteItem(u.store, id);
      && d.status == NoContent
      && GetItem(d.store, id).status == NotFound
      && d.store == s
  {
    var potion := CreateItemDto(Some("Potion"), None, 9.0);
    var elixir := UpdateItemDto(Some("Elixir"), None, 15.0);
    assert !Dtos.IsWhiteSpace("Potion"[0]) && !Dtos.IsWhiteSpace("Elixir"[0]);
    var c := PostItem(s, id, t1, t2, potion);
    GetAfterCreate(s, id, t1, t2, potion);
    var n := |s|;
    assert c.store == s + [Item(id, "Potion", None, 9.0, t1, t2)];
    var u := PutItem(c.store, id, t3, elixir);
    UpdateOnUniqueStore(c.store, n, t3, elixir);
    assert u.store == s + [Item(id, "Elixir", None, 15.0, t1, t3)];
    Repo.LookupOnUniqueStore(u.store, n);
    var d := DeleteItem(u.store, id);
    Repo.LookupOnUniqueStore(u.store, n);
    Repo.DeleteOnUniqueStore(u.store, n);
    assert Repo.RemoveAt(u.store, n) == s;
    GetAfterDelete(u.store, id);
    assert d.store == s;
  }
}
