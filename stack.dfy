/**
 * The library's LIFO stack: an array of pointers (Option values, None for
 * NULL) that is reallocated whenever the top crosses a multiple of 16.
 */
module Stack {
  import opened Wrappers

  const BlockSize: nat := 16

  /**
   * The slots allocated for a stack of the given height: the next multiple
   * of 16 strictly above it, so there is always a free slot for a push.
   */
  function Capacity(height: nat): (r: nat)
    ensures height < r <= height + BlockSize
    ensures r % BlockSize == 0
  {
    (height / BlockSize + 1) * BlockSize
  }

  /** A push moves to the next block exactly when the new height is a multiple of 16. */
  lemma CapacityAfterPush(height: nat)
    ensures Capacity(height + 1) == if (height + 1) % BlockSize == 0 then height + 1 + BlockSize else Capacity(height)
  {
  }

  /** A pop moves to the previous block exactly when the old height was a multiple of 16. */
  lemma CapacityAfterPop(height: nat)
    ensures Capacity(height) == if (height + 1) % BlockSize == 0 then height + 1 else Capacity(height + 1)
  {
  }

  class Stack<T> {
    var base: array<Option<T>>
    /** The height of the stack; base[index - 1] is the top. */
    var index: nat

    ghost predicate Valid()
      reads this
    {
      base.Length == Capacity(index)
    }

    /** The items, bottom to top. */
    ghost function Contents(): seq<Option<T>>
      requires Valid()
      reads this, base
    {
      base[..index]
    }

    /** Stack_new: empty, with 16 slots. */
    constructor()
      ensures Valid() && fresh(base)
      ensures Contents() == [] && base.Length == BlockSize
    {
      base := new Option<T>[BlockSize](_ => None);
      index := 0;
    }

    /** The realloc calls: a new array of the given size holding the first index slots. */
    method Resize(size: nat)
      requires index <= size && index <= base.Length
      modifies this
      ensures fresh(base) && base.Length == size && index == old(index)
      ensures base[..index] == old(base[..index])
    {
      var a := new Option<T>[size](_ => None);
      forall i | 0 <= i < index {
        a[i] := base[i];
      }
      base := a;
    }

    /**
     * Stack_push: store v at the top, then grow by a block when the height
     * reaches a multiple of 16.
     */
    method Push(v: Option<T>)
      requires Valid()
      modifies this, base
      ensures Valid() && (base == old(base) || fresh(base))
      ensures Contents() == old(Contents()) + [v]
    {
      base[index] := v;
      index := index + 1;
      CapacityAfterPush(index - 1);
      if index % BlockSize == 0 {
        Resize(index + BlockSize);
      }
    }

    /**
     * Stack_pop: None (NULL) on an empty stack; otherwise take the top, and
     * shrink to the height plus one when that is a multiple of 16.
     */
    method Pop() returns (v: Option<T>)
      requires Valid()
      modifies this
      ensures Valid() && (base == old(base) || fresh(base))
      ensures old(index) == 0 ==> v == None && Contents() == old(Contents())
      ensures old(index) > 0 ==> old(Contents()) == Contents() + [v]
    {
      if index == 0 {
        return None;
      }
      index := index - 1;
      v := base[index];
      CapacityAfterPop(index);
      if (index + 1) % BlockSize == 0 {
        Resize(index + 1);
      }
    }

    /** Stack_top: the top item; the stack must not be empty. */
    method Top() returns (v: Option<T>)
      requires Valid() && index > 0
      ensures v == Contents()[|Contents()| - 1]
    {
      return base[index - 1];
    }

    /** Stack_getSize. */
    function GetSize(): (n: nat)
      requires Valid()
      reads this, base
      ensures n == |Contents()|
    {
      index
    }
  }
}
