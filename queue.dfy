/**
 * The library's FIFO queue: a List with appends at the end and pops from
 * the front. The mutex and condition variable are not modelled.
 */
module Queue {
  import opened Wrappers
  import List

  class Queue<T(==)> {
    /** queue->list, set once by Queue_new. */
    const list: List.List<T>

    ghost predicate Valid()
      reads this, list, list.base
    {
      list.Valid()
    }

    /** The items, front first. */
    ghost function Contents(): seq<Option<T>>
      requires Valid()
      reads this, list, list.base
    {
      list.Contents()
    }

    /** Queue_new: an empty queue over a new list. */
    constructor()
      ensures Valid() && fresh(list) && fresh(list.base)
      ensures Contents() == []
    {
      list := new List.List<T>();
    }

    /** Queue_append: v joins at the back. */
    method Append(v: Option<T>)
      requires Valid()
      modifies list, list.base
      ensures Valid() && (list.base == old(list.base) || fresh(list.base))
      ensures Contents() == old(Contents()) + [v]
    {
      var _ := list.Append(v);
    }

    /**
     * Queue_pop without waiting: List_remove(list, 0). The front item comes
     * off; an empty queue gives None. A None (NULL) item at the front is
     * indistinguishable from emptiness: it is returned as None and stays.
     */
    method Pop() returns (v: Option<T>)
      requires Valid()
      modifies list, list.base
      ensures Valid() && (list.base == old(list.base) || fresh(list.base))
      ensures old(Contents()) != [] && old(Contents())[0].Some? ==>
        v == old(Contents())[0] && Contents() == old(Contents())[1..]
      ensures !(old(Contents()) != [] && old(Contents())[0].Some?) ==>
        v == None && Contents() == old(Contents())
    {
      v := list.Remove(0);
    }

    /** Queue_getSize. */
    function GetSize(): (n: nat)
      requires Valid()
      reads this, list, list.base
      ensures n == |Contents()|
    {
      list.GetSize()
    }
  }
}
