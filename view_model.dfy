/**
 * `StatusBarViewModel`: the ordered list of configured items, changed in
 * place by the configuration window, and its load-at-startup fallback.
 */
module ViewModel {
  import opened GifItems

  /**
   * What reading the stored list yields: no data under the key, a list the
   * property-list decoder accepts, or data it rejects.
   */
  datatype StoredItems = NoData | Decodes(items: seq<GifItem>) | Undecodable

  class StatusBarViewModel {
    var items: seq<GifItem>

    /** `init()`: start from the empty list, then `loadItems()`. */
    constructor (stored: StoredItems)
      ensures items == if stored.Decodes? then stored.items else []
    {
      items := [];
      new;
      LoadItems(stored);
    }

    /** Appends one new enabled item with the given path and type and the freshly made id. */
    method AddItem(newId: Uuid, path: string, pathType: PathType)
      modifies this
      ensures items == old(items) + [GifItem(newId, path, true, pathType)]
      ensures old(DistinctIds(items)) && !old(Contains(items, newId)) ==> DistinctIds(items)
    {
      var newItem := GifItem(newId, path, true, pathType);
      if DistinctIds(items) && !Contains(items, newId) {
        AppendFreshKeepsDistinct(items, newItem);
      }
      items := items + [newItem];
    }

    /** Flips `isEnabled` of the first item with `id`; a no-op when there is none. */
    method ToggleItem(id: Uuid)
      modifies this
      ensures items == Toggled(old(items), id)
      ensures old(DistinctIds(items)) ==> DistinctIds(items)
    {
      if DistinctIds(items) {
        ToggledKeepsDistinct(items, id);
      }
      var index := FindFirstIndex(items, id);
      if index.Some? {
        var k := index.value;
        items := items[k := items[k].(isEnabled := !items[k].isEnabled)];
      }
    }

    /** Removes every item with `id`, keeping the others in order. */
    method RemoveItem(id: Uuid)
      modifies this
      ensures items == Without(old(items), id)
      ensures old(DistinctIds(items)) ==> DistinctIds(items)
    {
      if DistinctIds(items) {
        WithoutKeepsDistinct(items, id);
      }
      items := RemoveAll(items, id);
    }

    /**
     * `loadItems()`: a decoded list replaces the items, undecodable data
     * empties them, and no stored data leaves them as they are.
     */
    method LoadItems(stored: StoredItems)
      modifies this
      ensures stored.NoData? ==> items == old(items)
      ensures stored.Decodes? ==> items == stored.items
      ensures stored.Undecodable? ==> items == []
    {
      match stored
      case NoData =>
      case Decodes(decoded) => items := decoded;
      case Undecodable => items := [];
    }
  }
}
