/** The singly linked list with head, tail and a size counter out of which
    the engine builds its trip lists, each trip's load and each dispatch
    batch. The chain of nodes is represented by the sequence of values it
    holds, in order from head to tail. */
module Lists {

  class LinkedList<T> {
    /** The values from head to tail. */
    var items: seq<T>
    /** The node counter the source keeps beside the chain. */
    var size: int

    ghost predicate Valid()
      reads this
    {
      size == |items|
    }

    constructor ()
      ensures Valid() && items == []
    {
      items := [];
      size := 0;
    }

    /** Adds a node after the tail. */
    method Append(val: T)
      requires Valid()
      modifies this
      ensures Valid()
      ensures items == old(items) + [val]
      ensures size == old(size) + 1
    {
      items := items + [val];
      size := size + 1;
    }

    /** Drops every node. */
    method Clear()
      requires Valid()
      modifies this
      ensures Valid() && items == [] && size == 0
    {
      items := [];
      size := 0;
    }

    method IsEmpty() returns (empty: bool)
      requires Valid()
      ensures empty <==> items == []
    {
      empty := size == 0;
    }
  }
}
