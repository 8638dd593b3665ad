/** The earlier, synchronous service variant: an entity without description
    or update time, and two read-only handlers over any repository. The
    repository is abstract: its state is a type parameter and its two read
    operations are functions of that state. */
module LegacyItemsController {
  import opened Wrappers
  import opened Entities

  /** The earlier entity: identifier, name, price and creation time. */
  datatype LegacyItem = LegacyItem(id: Guid, name: string, price: real, createdDate: Timestamp)

  /** The earlier read projection, one field per entity field. */
  datatype LegacyItemDto = LegacyItemDto(id: Guid, name: string, price: real, createdDate: Timestamp)

  function AsDto(item: LegacyItem): LegacyItemDto {
    LegacyItemDto(item.id, item.name, item.price, item.createdDate)
  }

  function AsItem(dto: LegacyItemDto): LegacyItem {
    LegacyItem(dto.id, dto.name, dto.price, dto.createdDate)
  }

  /** What a repository read can throw: `SingleOrDefault` meeting a second
      document with the id, or any fault of the storage itself. */
  datatype RepositoryFault = MoreThanOneMatch | StorageFault

  /** The read half of the repository interface, over repository state `S`.
      Each read returns its answer or the exception it throws. */
  datatype ReadRepository<!S> = ReadRepository(
    getItems: S -> Result<seq<LegacyItem>, RepositoryFault>,
    getItem: (S, Guid) -> Result<Option<LegacyItem>, RepositoryFault>
  )

  /** `ServerError` is the answer to a repository exception nobody catches. */
  datatype Status = Ok | NotFound | ServerError

  /** What a handler answers, together with the repository state after it. */
  datatype ListReply<S> = ListReply(status: Status, body: seq<LegacyItemDto>, state: S)
  datatype ItemReply<S> = ItemReply(status: Status, body: Option<LegacyItemDto>, state: S)

  /** `GetItems`: the projection of every item the repository lists, in its
      order, or ServerError when the listing throws; the repository state is
      left as it was. */
  function GetItems<S>(repo: ReadRepository<S>, state: S): (r: ListReply<S>)
    ensures r.state == state
    ensures r.status in {Ok, ServerError}
    ensures r.status == ServerError <==> repo.getItems(state).Failure?
    ensures r.status == ServerError ==> r.body == []
    ensures r.status == Ok ==>
      && |r.body| == |repo.getItems(state).value|
      && forall i :: 0 <= i < |r.body| ==> AsItem(r.body[i]) == repo.getItems(state).value[i]
  {
    match repo.getItems(state)
    case Failure(_) => ListReply(ServerError, [], state)
    case Success(items) =>
      ListReply(Ok, seq(|items|, i requires 0 <= i < |items| => AsDto(items[i])), state)
  }

  /** `GetItem`: NotFound when the repository answers null, ServerError when
      it throws, otherwise the projection of exactly the item it answered; the
      repository state is left as it was. */
  function GetItem<S>(repo: ReadRepository<S>, state: S, id: Guid): (r: ItemReply<S>)
    ensures r.state == state
    ensures r.status == NotFound <==> repo.getItem(state, id) == Success(None)
    ensures r.status == ServerError <==> repo.getItem(state, id).Failure?
    ensures r.status == Ok <==> r.body.Some?
    ensures r.status == Ok ==> AsItem(r.body.value) == repo.getItem(state, id).value.value
  {
    match repo.getItem(state, id)
    case Failure(_) => ItemReply(ServerError, None, state)
    case Success(None) => ItemReply(NotFound, None, state)
    case Success(Some(item)) => ItemReply(Ok, Some(AsDto(item)), state)
  }

  /** Reading through the handlers twice answers the same both times: neither
      handler changes what the repository holds. */
  lemma HandlersAreReadOnly<S>(repo: ReadRepository<S>, state: S, id: Guid)
    ensures GetItems(repo, GetItem(repo, state, id).state) == GetItems(repo, state)
    ensures GetItem(repo, GetItems(repo, state).state, id) == GetItem(repo, state, id)
  {
  }
}
