/**
 * The ownership handle: one allocation (`single_t`: a pointer and a size)
 * shared by every data view cut from it. `refcount` counts the holders
 * beyond the first, so the handle is released by the delete that finds it
 * at zero; that delete frees the allocation too when the handle owns it
 * (`free`). Freeing is recorded in ghost state: `frees` counts the calls of
 * `free_handle`, and `released` says the handle record itself is gone.
 */
module Handle {
  import opened Words

  /** `(char *) ptr + offset`: a position inside an allocation. */
  datatype Pointer = Pointer(buffer: array<Byte>, offset: nat)

  class Handle {
    /** single->ptr; null once the handle is detached. */
    var buffer: array?<Byte>
    /** single->size */
    var size: nat
    var refcount: nat
    /** Whether the handle owns the allocation and frees it. */
    const free: bool
    ghost var frees: nat
    ghost var released: bool

    /** The allocation is `size` bytes long while it is attached. */
    ghost predicate Valid()
      reads this
    {
      buffer != null ==> buffer.Length == size
    }

    /** handle_new_single */
    constructor NewSingle(buffer: array?<Byte>, size: nat, free: bool)
      requires buffer != null ==> buffer.Length == size
      ensures Valid()
      ensures this.buffer == buffer && this.size == size && this.free == free
      ensures refcount == 0 && frees == 0 && !released
    {
      this.buffer := buffer;
      this.size := size;
      this.free := free;
      refcount := 0;
      frees := 0;
      released := false;
    }

    /**
     * handle_delete: a holder lets go. Other holders remain while the count
     * is positive; the last one frees the allocation (when owned, through
     * free_handle) and the handle record.
     */
    method Delete()
      requires Valid() && !released
      modifies this
      ensures Valid()
      ensures old(refcount) > 0 ==> refcount == old(refcount) - 1 && frees == old(frees) && !released
      ensures old(refcount) == 0 ==> refcount == 0 && released && frees == old(frees) + (if free then 1 else 0)
      ensures buffer == old(buffer) && size == old(size)
    {
      if refcount == 0 {
        if free {
          frees := frees + 1;
        }
        released := true;
      } else {
        refcount := refcount - 1;
      }
    }

    /** handle_get_ptr for a single allocation: null when detached, else the allocation at `offset`. */
    function GetPtr(offset: nat): (r: Option<Pointer>)
      reads this
      ensures r.None? <==> buffer == null
      ensures r.Some? ==> r.value.buffer == buffer && r.value.offset == offset
    {
      if buffer == null then None else Some(Pointer(buffer, offset))
    }

    /** handle_unref: detach the allocation; the count and the ownership flag stay. */
    method Unref()
      modifies this
      ensures buffer == null && size == 0 && Valid()
      ensures refcount == old(refcount) && frees == old(frees) && released == old(released)
    {
      buffer := null;
      size := 0;
    }
  }
}
