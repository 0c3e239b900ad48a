/** Extension methods on ObservableCollection: copying into a List, and
    sorting by a string key into a new collection. */
module ObservableCollectionExtensions {
  import opened Collections
  import opened Linq

  /** ConvertToList: a new list holding the collection's items in order;
      empty for a null or empty collection. */
  method ConvertToList<T>(collection: ObservableCollection?<T>) returns (list: List<T>)
    ensures fresh(list)
    ensures collection == null ==> list.items == []
    ensures collection != null ==> list.items == collection.items
  {
    list := new List();
    if collection == null || |collection.items| == 0 {
      return;
    }
    for i := 0 to |collection.items|
      invariant list.items == collection.items[..i]
    {
      list.Add(collection.items[i]);
    }
    assert collection.items[..|collection.items|] == collection.items;
  }

  /** OrderByAndConvert: a new collection of the items stably sorted by
      keySelector under the culture's string comparer le (a permutation,
      keys ascending, equal keys in their original order).  OrderBy throws
      for a null collection. */
  method OrderByAndConvert<T>(collection: ObservableCollection<T>, keySelector: T -> string,
                              le: (string, string) -> bool)
    returns (r: ObservableCollection<T>)
    requires TotalPreorder(le)
    ensures fresh(r)
    ensures r.items == SortBy(collection.items, keySelector, le)
    ensures multiset(r.items) == multiset(collection.items)
    ensures forall i, j :: 0 <= i < j < |r.items| ==> le(keySelector(r.items[i]), keySelector(r.items[j]))
    ensures forall k :: KeyClass(r.items, keySelector, le, k) == KeyClass(collection.items, keySelector, le, k)
  {
    var sorted := SortBy(collection.items, keySelector, le);
    r := new ObservableCollection.FromSequence(sorted);
  }

  /** OrderByDescendingAndConvert: the same with keys descending; equal keys
      still keep their original order. */
  method OrderByDescendingAndConvert<T>(collection: ObservableCollection<T>, keySelector: T -> string,
                                        le: (string, string) -> bool)
    returns (r: ObservableCollection<T>)
    requires TotalPreorder(le)
    ensures fresh(r)
    ensures r.items == SortByDescending(collection.items, keySelector, le)
    ensures multiset(r.items) == multiset(collection.items)
    ensures forall i, j :: 0 <= i < j < |r.items| ==> le(keySelector(r.items[j]), keySelector(r.items[i]))
    ensures forall k :: KeyClass(r.items, keySelector, le, k) == KeyClass(collection.items, keySelector, le, k)
  {
    var sorted := SortByDescending(collection.items, keySelector, le);
    r := new ObservableCollection.FromSequence(sorted);
  }
}
