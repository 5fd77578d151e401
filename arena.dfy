/*
 * The arena of arena.c as it works on memory: an `arena_t` record whose fields
 * the operations assign in place, with the mapped block as an array of bytes.
 * Every operation takes a possibly-null handle, as the C functions take an
 * `arena_t *`, and reports each condition the C code aborts on as an error
 * value that leaves the arena untouched.
 */
module Arenas {
  import opened ArenaModel

  /** The `arena_t` record. A null `storage` is the C null pointer. */
  class Arena {
    var length: Size
    var used: Size
    var storage: array?<Byte>
    /** Set once `Destroy` has handed the block back; the fields keep their values. */
    ghost var released: bool

    /** The record as zero-initialised C memory: no block, nothing used. */
    constructor ()
      ensures length == 0 && used == 0 && storage == null && !released
    {
      length, used, storage := 0, 0, null;
      released := false;
    }

    /** The cursor lies within the block, and a present block has exactly `length` bytes. */
    ghost predicate Valid()
      reads this
    {
      used <= length && (storage != null ==> storage.Length == length)
    }

    /** The arena's value: its fields and the bytes of its block. */
    ghost function Model(): (s: State)
      reads this, storage
      requires Valid() && storage != null
      ensures s.Valid()
    {
      State(length, used, storage[..])
    }
  }

  /**
   * `arena_create`: fills in the record with a fresh zero-filled block of
   * `CapacityFor(length)` bytes (the anonymous mapping) and an unused cursor.
   */
  method Create(arena: Arena?, length: Size) returns (r: Outcome)
    modifies arena
    ensures arena == null ==> r == Fail(InvalidArena)
    ensures arena != null ==>
      r == Pass && arena.Valid() && arena.storage != null && fresh(arena.storage) &&
      arena.Model() == Init(length) && !arena.released
  {
    if arena == null {
      return Fail(InvalidArena);
    }
    var n := CapacityFor(length);
    arena.length := n;
    arena.used := 0;
    arena.storage := new Byte[n](_ => 0);
    arena.released := false;
    assert arena.storage[..] == Zeros(n);
    r := Pass;
  }

  /** `arena_remaining`: the bytes still free, or the error for a null handle or a missing block. */
  function Remaining(arena: Arena?): (r: Result<Size>)
    reads arena
    ensures arena == null <==> r == Err(InvalidArena)
    ensures arena != null && arena.storage == null <==> r == Err(UninitializedArena)
    ensures r.Ok? <==> arena != null && arena.storage != null
    ensures r.Ok? ==> r == Ok(SizeSub(arena.length, arena.used))
    ensures r.Ok? ==> arena.used <= arena.length ==> arena.used + r.value == arena.length
  {
    if arena == null then Err(InvalidArena)
    else if arena.storage == null then Err(UninitializedArena)
    else Ok(SizeSub(arena.length, arena.used))
  }

  /**
   * `arena_allocate`: on success returns the index of the first byte of a
   * zero-filled slice of `size` bytes at the cursor and advances the cursor;
   * it does to the arena exactly what `Alloc` does to its value.
   */
  method Allocate(arena: Arena?, size: Size) returns (r: Result<nat>)
    requires arena != null ==> arena.Valid()
    requires arena != null && arena.storage != null ==> !arena.released
    modifies arena, if arena == null then null else arena.storage
    ensures arena == null ==> r == Err(InvalidArena)
    ensures arena != null && old(arena.storage) == null ==>
      r == Err(UninitializedArena) && unchanged(arena)
    ensures arena != null && old(arena.storage) != null ==>
      arena.storage == old(arena.storage) && arena.released == old(arena.released) &&
      arena.Valid() &&
      match Alloc(old(arena.Model()), size)
      case Err(e) => r == Err(e) && unchanged(arena) && unchanged(arena.storage)
      case Ok(a) => r == Ok(a.start) && arena.Model() == a.after
  {
    var remaining := Remaining(arena);
    if remaining.Err? {
      return Err(remaining.error);
    }
    if size > remaining.value {
      return Err(RequestTooLarge);
    }
    var buf := arena.storage;
    var start := arena.used;
    var i := 0;
    while i < size
      modifies buf
      invariant 0 <= i <= size
      invariant forall k :: 0 <= k < buf.Length ==>
        buf[k] == (if start <= k < start + i then 0 else old(buf[k]))
    {
      buf[start + i] := 0;
      i := i + 1;
    }
    arena.used := arena.used + size;
    r := Ok(start);
    ghost var a := Alloc(old(arena.Model()), size).value;
    assert buf[..] == a.after.bytes;
  }

  /**
   * `arena_destroy`: hands the block back. The record's fields are left as
   * they were; only a null handle is refused.
   */
  method Destroy(arena: Arena?) returns (r: Outcome)
    modifies arena
    ensures arena == null ==> r == Fail(InvalidArena)
    ensures arena != null ==>
      r == Pass && arena.released &&
      arena.length == old(arena.length) && arena.used == old(arena.used) &&
      arena.storage == old(arena.storage)
  {
    if arena == null {
      return Fail(InvalidArena);
    }
    arena.released := true;
    r := Pass;
  }
}
