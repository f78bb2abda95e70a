/**
 * Pools: the dense, entity-id-indexed vector that stores the values of one
 * component type.  Slots are never deleted; a slot that was never written
 * holds an unspecified default value.
 */
module Pools {

  /** The default slot count of a new pool. */
  const DefaultSize: nat := 100

  class Pool<T(0)> {
    /** The vector; index = entity id. */
    var data: seq<T>

    /** `Pool(int size = 100)`: exactly `size` default slots. */
    constructor (size: nat := DefaultSize)
      ensures |data| == size
    {
      var slots := new T[size];
      data := slots[..];
    }

    /** `empty()`: no slot at all. */
    function IsEmpty(): (r: bool)
      reads this
      ensures r <==> GetSize() == 0
    {
      |data| == 0
    }

    /** `size()`: the number of slots. */
    function GetSize(): nat
      reads this
    {
      |data|
    }

    /** `Get(index)`: the value in slot `index`; the slot must exist. */
    function Get(index: nat): T
      reads this
      requires index < GetSize()
    {
      data[index]
    }

    /**
     * `vector::resize`: the size becomes exactly `size`; the common prefix
     * keeps its values and new slots hold default values.
     */
    method Resize(size: nat)
      modifies this
      ensures GetSize() == size
      ensures forall i :: 0 <= i < size && i < old(GetSize()) ==> Get(i) == old(Get(i))
    {
      if size <= |data| {
        data := data[..size];
      } else {
        var slots := new T[size - |data|];
        data := data + slots[..];
      }
    }

    /** `vector::clear`: no slots remain. */
    method Clear()
      modifies this
      ensures IsEmpty()
    {
      data := [];
    }

    /** `push_back`: one more slot, holding `value`, after the old ones. */
    method Add(value: T)
      modifies this
      ensures GetSize() == old(GetSize()) + 1
      ensures Get(GetSize() - 1) == value
      ensures forall i :: 0 <= i < old(GetSize()) ==> Get(i) == old(Get(i))
    {
      data := data + [value];
    }

    /** Overwrites slot `index`; the size and every other slot are unchanged. */
    method Set(index: nat, value: T)
      requires index < GetSize()
      modifies this
      ensures GetSize() == old(GetSize())
      ensures Get(index) == value
      ensures forall i :: 0 <= i < GetSize() && i != index ==> Get(i) == old(Get(i))
    {
      data := data[index := value];
    }
  }
}
