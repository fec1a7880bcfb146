/** The one DynamoDB table both backend repositories write to, seen as a map
    from the partition key `user_id` to the stored item. Service errors of the
    SDK are not modelled; each call is applied atomically and in sequence. */
module Dynamo {
  import opened Values

  /** A stored item: attribute name to attribute value. */
  type Item = map<string, Json>

  /** The table, keyed by the item's `user_id`. */
  type Table = map<string, Item>

  /** Every stored item carries its own key as its `user_id` attribute. */
  ghost predicate WellKeyed(t: Table) {
    forall k | k in t :: Get(t[k], "user_id") == Str(k)
  }

  /** The item an `UpdateItem` call starts from: the stored one, or, since
      `UpdateItem` on an absent key creates the item, just the key. */
  function Current(t: Table, id: string): (item: Item)
    ensures Get(item, "user_id") == (if id in t then Get(t[id], "user_id") else Str(id))
    ensures id in t ==> item == t[id]
    ensures id !in t ==> item.Keys == {"user_id"}
  {
    if id in t then t[id] else map["user_id" := Str(id)]
  }

  /** A Ruby hash built by reading `keys` out of `item`: every listed key is
      present, with nil for the attributes the item lacks. */
  function Project(item: Item, keys: set<string>): (r: Item)
    ensures r.Keys == keys
    ensures forall k | k in keys :: r[k] == Get(item, k)
  {
    map k | k in keys :: Get(item, k)
  }

  /** A repository's `find_by_user_id`: nil for an absent key, else the
      stored item projected onto the repository's view. */
  function Find(t: Table, id: string, view: set<string>): (r: Option<Item>)
    ensures r.None? <==> id !in t
    ensures r.Some? ==> r.value.Keys == view
    ensures r.Some? ==> forall k | k in view :: r.value[k] == Get(t[id], k)
  {
    if id in t then Some(Project(t[id], view)) else None
  }

  /** `PutItem`, and the write of `UpdateItem`: the item under `id` is replaced
      and nothing else changes. */
  function PutItem(t: Table, id: string, item: Item): (r: Table)
    ensures r.Keys == t.Keys + {id}
    ensures r[id] == item
    ensures forall k | k in t && k != id :: r[k] == t[k]
    ensures WellKeyed(t) && Get(item, "user_id") == Str(id) ==> WellKeyed(r)
  {
    t[id := item]
  }

  /** `DeleteItem`: removes the item under `id`, if any, and nothing else. */
  function DeleteItem(t: Table, id: string): (r: Table)
    ensures id !in r
    ensures r.Keys == t.Keys - {id}
    ensures forall k | k in r :: r[k] == t[k]
    ensures WellKeyed(t) ==> WellKeyed(r)
  {
    t - {id}
  }

  /** After a delete, under any view, the deleted key reads as nil and every
      other key reads as before. */
  lemma FindAfterDelete(t: Table, id: string, view: set<string>)
    ensures Find(DeleteItem(t, id), id, view).None?
    ensures forall k | k != id :: Find(DeleteItem(t, id), k, view) == Find(t, k, view)
  {
  }
}
