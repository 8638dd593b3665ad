/** The in-memory item repository: one ordered list of items, seeded with three
    entries, and the five operations of the repository interface. Each
    mutating operation returns the new list; an operation that throws in the
    source returns the exception instead. */
module InMemItemsRepository {
  import opened Wrappers
  import opened Entities

  /** The repository's `_items` list, in insertion order. */
  type Store = seq<Item>

  /** The exceptions the list operations can raise. */
  datatype RepoError =
    | MoreThanOneMatch   // SingleOrDefault found a second element with the id
    | IndexOutOfRange    // FindIndex answered -1 and the index was then used

  /** The identifiers present in the store. */
  function Ids(s: Store): set<Guid> {
    set i | 0 <= i < |s| :: s[i].id
  }

  /** Some item of the store carries the identifier. */
  predicate Has(s: Store, id: Guid) {
    exists i :: 0 <= i < |s| && s[i].id == id
  }

  /** Two different positions of the store carry the identifier. */
  predicate Duplicated(s: Store, id: Guid) {
    exists i, j :: 0 <= i < j < |s| && s[i].id == id && s[j].id == id
  }

  /** No identifier occurs twice: the invariant the service relies on. */
  predicate UniqueIds(s: Store) {
    forall i, j :: 0 <= i < j < |s| ==> s[i].id != s[j].id
  }

  lemma HasIffInIds(s: Store, id: Guid)
    ensures Has(s, id) <==> id in Ids(s)
  {
    if Has(s, id) {
      var i :| 0 <= i < |s| && s[i].id == id;
      assert s[i].id in Ids(s);
    }
  }

  lemma UniqueIdsIffNoDuplicate(s: Store)
    ensures UniqueIds(s) <==> forall id :: !Duplicated(s, id)
  {
    if !UniqueIds(s) {
      var i, j :| 0 <= i < j < |s| && s[i].id == s[j].id;
      assert Duplicated(s, s[i].id);
    }
  }

  /** `List.FindIndex` with the predicate `x.Id == id`: the first position
      carrying the identifier, or -1 when there is none. */
  function FindIndex(s: Store, id: Guid): (k: int)
    ensures -1 <= k < |s|
    ensures k == -1 <==> !Has(s, id)
    ensures k >= 0 ==> s[k].id == id && forall j :: 0 <= j < k ==> s[j].id != id
  {
    if |s| == 0 then -1
    else if s[0].id == id then 0
    else
      var k := FindIndex(s[1..], id);
      assert forall j :: 0 < j < |s| ==> s[j] == s[1..][j - 1];
      if k == -1 then -1 else k + 1
  }

  /** The seeded list: three items, each with its own identifier and a
      creation time from its own clock reading; descriptions are null and the
      update times keep their default value. */
  function Seed(id1: Guid, id2: Guid, id3: Guid, t1: Timestamp, t2: Timestamp, t3: Timestamp): (s: Store)
    requires id1 != id2 && id1 != id3 && id2 != id3
    ensures |s| == 3 && UniqueIds(s) && Ids(s) == {id1, id2, id3}
    ensures s[0].name == "Potion" && s[0].price == 9.0
    ensures s[1].name == "Iron Sword" && s[1].price == 20.0
    ensures s[2].name == "Bronze Shield" && s[2].price == 18.0
    ensures forall i :: 0 <= i < |s| ==> s[i].description.None? && s[i].updatedDate == DefaultTimestamp
    ensures s[0].createdDate == t1 && s[1].createdDate == t2 && s[2].createdDate == t3
  {
    var s := [ Item(id1, "Potion", None, 9.0, t1, DefaultTimestamp),
               Item(id2, "Iron Sword", None, 20.0, t2, DefaultTimestamp),
               Item(id3, "Bronze Shield", None, 18.0, t3, DefaultTimestamp) ];
    assert s[0].id in Ids(s) && s[1].id in Ids(s) && s[2].id in Ids(s);
    s
  }

  /** `GetItemsAsync`: the list itself, every item in insertion order. */
  function GetItems(s: Store): (r: Store)
    ensures |r| == |s| && forall i :: 0 <= i < |s| ==> r[i] == s[i]
  {
    s
  }

  /** `GetItemAsync`, i.e. `SingleOrDefault(i => i.Id == id)`: find the first
      match, then scan the rest; a second match throws, no match yields null. */
  function GetItem(s: Store, id: Guid): (r: Result<Option<Item>, RepoError>)
    ensures r.Failure? <==> Duplicated(s, id)
    ensures r == Success(None) <==> !Has(s, id)
    ensures r.Success? && r.value.Some? ==>
      exists i :: 0 <= i < |s| && s[i] == r.value.value && s[i].id == id
        && forall j :: 0 <= j < |s| && j != i ==> s[j].id != id
    ensures r.Failure? ==> r.error == MoreThanOneMatch
  {
    var k := FindIndex(s, id);
    if k < 0 then Success(None)
    else
      var rest := s[k + 1..];
      var k' := FindIndex(rest, id);
      assert forall j :: k < j < |s| ==> s[j] == rest[j - k - 1];
      if k' >= 0 then
        assert s[k + 1 + k'].id == id;
        Failure(MoreThanOneMatch)
      else Success(Some(s[k]))
  }

  /** `CreateItemAsync`: append at the end, without any identifier check. */
  function CreateItem(s: Store, item: Item): (s': Store)
    ensures |s'| == |s| + 1 && s'[|s|] == item
    ensures forall i :: 0 <= i < |s| ==> s'[i] == s[i]
    ensures Ids(s') == Ids(s) + {item.id}
  {
    var s' := s + [item];
    assert s'[|s|].id in Ids(s');
    s'
  }

  /** `UpdateItemAsync`: overwrite the first position carrying the item's
      identifier; with no such position the indexer is used with -1 and throws. */
  function UpdateItem(s: Store, item: Item): (r: Result<Store, RepoError>)
    ensures r.Failure? <==> !Has(s, item.id)
    ensures r.Failure? ==> r.error == IndexOutOfRange
    ensures r.Success? ==>
      && |r.value| == |s|
      && exists k :: 0 <= k < |s| && s[k].id == item.id && r.value[k] == item
           && (forall j :: 0 <= j < k ==> s[j].id != item.id)
           && (forall j :: 0 <= j < |s| && j != k ==> r.value[j] == s[j])
    ensures r.Success? ==> Ids(r.value) == Ids(s)
  {
    var k := FindIndex(s, item.id);
    if k < 0 then Failure(IndexOutOfRange)
    else
      var s' := s[k := item];
      assert Ids(s') == Ids(s) by {
        forall x | x in Ids(s') ensures x in Ids(s) {
          var i :| 0 <= i < |s'| && s'[i].id == x;
          assert s[i].id == x;
        }
        forall x | x in Ids(s) ensures x in Ids(s') {
          var i :| 0 <= i < |s| && s[i].id == x;
          assert s'[i].id == x;
        }
      }
      Success(s')
  }

  /** `DeleteItemAsync`: remove the first position carrying the identifier;
      with no such position `RemoveAt(-1)` throws. */
  function DeleteItem(s: Store, id: Guid): (r: Result<Store, RepoError>)
    ensures r.Failure? <==> !Has(s, id)
    ensures r.Failure? ==> r.error == IndexOutOfRange
    ensures r.Success? ==>
      && |r.value| == |s| - 1
      && exists k :: 0 <= k < |s| && s[k].id == id
           && (forall j :: 0 <= j < k ==> s[j].id != id)
           && (forall j :: 0 <= j < k ==> r.value[j] == s[j])
           && (forall j :: k <= j < |r.value| ==> r.value[j] == s[j + 1])
  {
    var k := FindIndex(s, id);
    if k < 0 then Failure(IndexOutOfRange)
    else Success(RemoveAt(s, k))
  }

  /** `List.RemoveAt` on a valid position: later elements shift down by one. */
  function RemoveAt(s: Store, k: nat): (s': Store)
    requires k < |s|
    ensures |s'| == |s| - 1
    ensures forall j :: 0 <= j < k ==> s'[j] == s[j]
    ensures forall j :: k <= j < |s'| ==> s'[j] == s[j + 1]
  {
    s[..k] + s[k + 1..]
  }

  /** Removing one position from a store without duplicates keeps it without
      duplicates. */
  lemma RemoveAtPreservesUniqueness(s: Store, k: nat)
    requires k < |s| && UniqueIds(s)
    ensures UniqueIds(RemoveAt(s, k))
  {
    var s' := RemoveAt(s, k);
    forall i, j | 0 <= i < j < |s'| ensures s'[i].id != s'[j].id {
      var i0 := if i < k then i else i + 1;
      var j0 := if j < k then j else j + 1;
      assert s'[i] == s[i0] && s'[j] == s[j0];
    }
  }

  /** Removing the only position that carries an identifier removes exactly
      that identifier. */
  lemma RemoveAtIds(s: Store, k: nat)
    requires k < |s|
    requires forall j :: 0 <= j < |s| && j != k ==> s[j].id != s[k].id
    ensures Ids(RemoveAt(s, k)) == Ids(s) - {s[k].id}
  {
    var s' := RemoveAt(s, k);
    forall x | x in Ids(s') ensures x in Ids(s) - {s[k].id} {
      var i :| 0 <= i < |s'| && s'[i].id == x;
      var i0 := if i < k then i else i + 1;
      assert s'[i] == s[i0];
    }
    forall x | x in Ids(s) - {s[k].id} ensures x in Ids(s') {
      var i :| 0 <= i < |s| && s[i].id == x;
      var i' := if i < k then i else i - 1;
      assert s'[i'] == s[i];
    }
  }

  // ---------------------------------------------------------------------------
  // Properties relating several operations
  // ---------------------------------------------------------------------------

  /** Listing after a create shows the earlier list followed by the new item:
      the list keeps insertion order. */
  lemma ListingKeepsInsertionOrder(s: Store, item: Item)
    ensures GetItems(CreateItem(s, item)) == GetItems(s) + [item]
  {
  }

  /** On a store without duplicates, a lookup never throws, and it finds an
      item exactly when the identifier is present. */
  lemma GetItemOnUniqueStore(s: Store, id: Guid)
    requires UniqueIds(s)
    ensures GetItem(s, id).Success?
    ensures GetItem(s, id).value.Some? <==> id in Ids(s)
    ensures GetItem(s, id).value.Some? ==> GetItem(s, id).value.value.id == id
  {
    HasIffInIds(s, id);
  }

  /** Creating with a fresh identifier keeps identifiers unique, and the new
      item is then found by its identifier. */
  lemma CreateFreshPreservesUniqueness(s: Store, item: Item)
    requires UniqueIds(s) && item.id !in Ids(s)
    ensures UniqueIds(CreateItem(s, item))
    ensures GetItem(CreateItem(s, item), item.id) == Success(Some(item))
  {
    var s' := CreateItem(s, item);
    forall i, j | 0 <= i < j < |s'| ensures s'[i].id != s'[j].id {
      if j == |s| {
        assert s[i].id in Ids(s);
      }
    }
    var r := GetItem(s', item.id);
    assert s'[|s|] == item;
    assert r.Success? && r.value.Some?;
  }

  /** Creating with an identifier already present is accepted, and every later
      lookup of that identifier throws. */
  lemma CreateDuplicateBreaksLookup(s: Store, item: Item)
    requires item.id in Ids(s)
    ensures GetItem(CreateItem(s, item), item.id) == Failure(MoreThanOneMatch)
    ensures !UniqueIds(CreateItem(s, item))
  {
    HasIffInIds(s, item.id);
    var i :| 0 <= i < |s| && s[i].id == item.id;
    var s' := CreateItem(s, item);
    assert s'[i].id == item.id && s'[|s|].id == item.id;
  }

  /** A successful update keeps identifiers unique. */
  lemma UpdatePreservesUniqueness(s: Store, item: Item)
    requires UniqueIds(s) && UpdateItem(s, item).Success?
    ensures UniqueIds(UpdateItem(s, item).value)
  {
    var s' := UpdateItem(s, item).value;
    var k :| 0 <= k < |s| && s[k].id == item.id && s'[k] == item
      && (forall j :: 0 <= j < |s| && j != k ==> s'[j] == s[j]);
    forall i, j | 0 <= i < j < |s'| ensures s'[i].id != s'[j].id {
      assert s'[i].id == s[i].id && s'[j].id == s[j].id;
    }
  }

  /** A successful delete keeps identifiers unique, removes exactly the
      identifier from the set of identifiers, and a later lookup yields null. */
  lemma DeleteRemovesId(s: Store, id: Guid)
    requires UniqueIds(s) && DeleteItem(s, id).Success?
    ensures UniqueIds(DeleteItem(s, id).value)
    ensures Ids(DeleteItem(s, id).value) == Ids(s) - {id}
    ensures GetItem(DeleteItem(s, id).value, id) == Success(None)
  {
    var k := FindIndex(s, id);
    var s' := DeleteItem(s, id).value;
    assert s' == RemoveAt(s, k);
    RemoveAtPreservesUniqueness(s, k);
    RemoveAtIds(s, k);
    HasIffInIds(s', id);
  }

  // ---------------------------------------------------------------------------
  // The operations on a store without duplicates, position by position
  // ---------------------------------------------------------------------------

  /** With unique identifiers, the first position carrying an identifier is
      its only one. */
  lemma FindIndexOnUniqueStore(s: Store, k: nat)
    requires UniqueIds(s) && k < |s|
    ensures FindIndex(s, s[k].id) == k
  {
  }

  /** With unique identifiers, a lookup answers the item at the identifier's position. */
  lemma LookupOnUniqueStore(s: Store, k: nat)
    requires UniqueIds(s) && k < |s|
    ensures GetItem(s, s[k].id) == Success(Some(s[k]))
  {
    FindIndexOnUniqueStore(s, k);
    assert !Duplicated(s, s[k].id);
  }

  /** With unique identifiers, an update overwrites exactly the identifier's position. */
  lemma UpdateOnUniqueStore(s: Store, k: nat, item: Item)
    requires UniqueIds(s) && k < |s| && item.id == s[k].id
    ensures UpdateItem(s, item) == Success(s[k := item])
    ensures UniqueIds(s[k := item])
  {
    FindIndexOnUniqueStore(s, k);
    var s' := s[k := item];
    forall i, j | 0 <= i < j < |s'| ensures s'[i].id != s'[j].id {
      assert s'[i].id == s[i].id && s'[j].id == s[j].id;
    }
  }

  /** With unique identifiers, a delete removes exactly the identifier's position. */
  lemma DeleteOnUniqueStore(s: Store, k: nat)
    requires UniqueIds(s) && k < |s|
    ensures DeleteItem(s, s[k].id) == Success(RemoveAt(s, k))
  {
    FindIndexOnUniqueStore(s, k);
  }
}
