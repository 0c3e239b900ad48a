/** Extension methods on List: copying into an ObservableCollection,
    visiting every item, and the emptiness test.  A null list is a null
    reference. */
module ListExtensions {
  import opened Collections

  /** ConvertToObservableCollection: a new collection holding the list's
      items in order; empty for a null or empty list. */
  method ConvertToObservableCollection<T>(list: List?<T>) returns (collection: ObservableCollection<T>)
    ensures fresh(collection)
    ensures list == null ==> collection.items == []
    ensures list != null ==> collection.items == list.items
    ensures collection.items == [] <==> IsEmpty(list)
  {
    collection := new ObservableCollection();
    if list == null || |list.items| == 0 {
      return;
    }
    for i := 0 to |list.items|
      invariant collection.items == list.items[..i]
    {
      collection.Add(list.items[i]);
    }
    assert list.items[..|list.items|] == list.items;
  }

  /** ForEach: the action runs once per item, in list order; never for a
      null list.  The calls are returned in the order they were made. */
  method ForEach<T>(list: List?<T>) returns (calls: seq<T>)
    ensures list == null ==> calls == []
    ensures list != null ==> calls == list.items
    ensures calls == [] <==> IsEmpty(list)
  {
    calls := [];
    if list == null {
      return;
    }
    for i := 0 to |list.items|
      invariant calls == list.items[..i]
    {
      calls := calls + [list.items[i]];
    }
    assert list.items[..|list.items|] == list.items;
  }

  /** IsEmpty: true for a null list and for one without items, false as
      soon as there is one item. */
  function IsEmpty<T>(list: List?<T>): (r: bool)
    reads list
    ensures r <==> list == null || list.items == []
  {
    if list == null then true
    else if |list.items| == 0 then true
    else false
  }
}
