# Bump-pointer arena

A model, in Dafny, of the linear memory arena of `arena.c`. An `arena_t` record
(`length`, `used`, `storage`) owns one block of `length` bytes obtained from an
anonymous private mapping. `arena_allocate` hands out slices of it by advancing
the `used` cursor and zero-filling each slice. `arena_remaining` reports the free
bytes. `arena_destroy` gives the block back. A null handle, a record without a
block, and a request larger than what remains are errors; the C code prints a
message and aborts on each of them.

The project has two modules:

- `ArenaModel` (`arena_model.dfy`) describes the arena as a value. `State` holds the
  fields and the bytes of the block. `Init` is the state creation leaves and
  `Alloc` is one allocation. `AllocAll` is a run of allocations. The lemmas
  about runs are here: when a run succeeds, where its slices lie, and what
  they contain.
- `Arenas` (`arena.dfy`) is the record as the C code updates it: a class
  `Arena` with fields `length`, `used` and `storage` (an `array?<bv8>`, where
  null stands for the null pointer). `Create`, `Remaining`, `Allocate` and
  `Destroy` take a possibly-null `Arena?`, as the C functions take an
  `arena_t *`. `Allocate` zero-fills the slice with a loop over the array. Its
  postcondition says the arena's new value is exactly what `Alloc` gives for
  the old value.

Each abort is an error value: `InvalidArena`, `UninitializedArena` or
`RequestTooLarge`. The arena is left unchanged when one is returned. A
`size_t` is the subset type `Size` (0 up to 2^64 - 1). The subtraction in
`arena_remaining` is written as wrap-around subtraction (`SizeSub`), and the
model shows it cannot wrap while `used <= length`. A pointer into the block,
`storage + used`, is the index `used` into the array.

The model follows `arena.c` as written. Features of the later interface that
atest.c is written against (`magic`, `current_offset`, `arena_new`,
`arena_empty`, atest.c:30-54) are not in `arena.c` and are not modelled:
- allocation takes one byte count, with no element size, count or alignment;
- there is no reset operation and no validity marker;
- `arena_destroy` leaves the record's fields as they were. It does not reset
  them to an empty state.

## Model

| member | source | states |
|---|---|---|
| `ArenaModel.CapacityFor` | arena.c:21-24 | a zero request gets the 1048576-byte default; any other request is kept exactly; the capacity is never zero |
| `ArenaModel.SizeSub` | arena.c:44 | unsigned `size_t` subtraction: equals `a - b` when `b <= a`, and wraps modulo 2^64 otherwise |
| `ArenaModel.State.Remaining` | arena.c:44 | in a valid state, the free bytes plus `used` add up to exactly `length`, so the subtraction never underflows |
| `ArenaModel.Init` | arena.c:21-32 | after creation the arena has the chosen capacity, `used == 0`, remaining equals the capacity, and every byte of the block is zero |
| `ArenaModel.Alloc` | arena.c:48-57 | fails with `RequestTooLarge` exactly when `size` exceeds what remains. Otherwise the slice starts at the old cursor, the cursor advances by `size` and stays within `length`, the slice's bytes are zero, every other byte is unchanged, and the length is kept |
| `ArenaModel.AllocAll` | arena.c:48-57 | a run of allocations that succeeds keeps the arena valid and its length unchanged |
| `ArenaModel.AllocAllSucceedsIff` | arena.c:49-53 | a run of allocations succeeds if and only if the sum of its sizes fits in the remaining bytes |
| `ArenaModel.AllocAllContiguous` | arena.c:54-56 | in a successful run, the first slice starts at the old cursor and each later slice starts where the previous one ended. The cursor ends up advanced by the total. All slices lie in the newly used range and are pairwise disjoint |
| `ArenaModel.AllocAllZeroed` | arena.c:55 | after a successful run, every slice it handed out still reads as zero, and every byte outside the newly used range is unchanged |
| `Arenas.Arena.constructor` | arena.h:12-16 | a zero-initialised record: no block, `length` and `used` zero |
| `Arenas.Create` | arena.c:16-33 | a null handle is refused. Otherwise the record gets a fresh block, and its value is exactly `Init(length)` |
| `Arenas.Remaining` | arena.c:35-46 | a null handle gives `InvalidArena` and a missing block gives `UninitializedArena`, each exactly in that case. Otherwise it succeeds with the `size_t` difference `length - used`, which is exactly the free byte count while `used <= length` |
| `Arenas.Allocate` | arena.c:48-58 | the same errors, in the same order, as `arena_remaining`, then `RequestTooLarge`; each leaves the arena and its bytes unchanged. On success it returns the slice's start index. The record's new value is `Alloc`'s result for the old value, and the block and its identity are kept |
| `Arenas.Destroy` | arena.c:60-70 | a null handle is refused. Otherwise the block is marked as released, and `length`, `used` and `storage` keep their values |

## Left out

- The `mmap` call and its `MAP_FAILED` branch (arena.c:27-31). Creation allocates a fresh array whose bytes are all zero, as an anonymous mapping's are; a failed mapping is not modelled.
- The `munmap` call and its `-1` branch (arena.c:65-69). `Destroy` only sets the ghost flag `released`. `Allocate` requires that a record with a block has not been released, because writing into an unmapped block is undefined behaviour in C. `Remaining` does not read the block and has no such requirement.
- The diagnostics written to standard error and the `abort()` calls. Each becomes an error value returned with no state change.
- logging.h holds reporting macros only. atest.c is a printing test driver written for a different interface (`Arena`, `arena_new`, `arena_empty`, `magic`) that none of the modelled files define. Neither is part of this model.
- Alignment padding, element size times count with its overflow check, reset, a validity marker and an empty state after destroy belong to the later interface that atest.c:30-54 uses; arena.c has none of them, so they are not modelled.
- Whether the C record's memory is initialised is not modelled. Only the zero-initialised record, from the constructor, and records set up by `Create` are represented.
