/** System.Collections.Generic.List and
    System.Collections.ObjectModel.ObservableCollection, as far as the
    extensions use them: an ordered sequence of items that Add extends at
    the end.  Change notifications are not modelled. */
module Collections {

  class List<T> {
    var items: seq<T>

    constructor ()
      ensures items == []
    {
      items := [];
    }

    method Add(item: T)
      modifies this
      ensures items == old(items) + [item]
    {
      items := items + [item];
    }
  }

  class ObservableCollection<T> {
    var items: seq<T>

    constructor ()
      ensures items == []
    {
      items := [];
    }

    /** The constructor taking an IEnumerable: the items in enumeration
        order. */
    constructor FromSequence(source: seq<T>)
      ensures items == source
    {
      items := source;
    }

    method Add(item: T)
      modifies this
      ensures items == old(items) + [item]
    {
      items := items + [item];
    }
  }
}
