/*
 * Value-level model of the bump-pointer arena of arena.c: the state of an
 * initialised `arena_t` as a datatype, creation and allocation as functions on
 * it, and the properties that a run of allocations keeps.
 */
module ArenaModel {

  /** One more than the largest value of C's 64-bit `size_t`. */
  const SizeLimit: int := 0x1_0000_0000_0000_0000

  /** A value of type `size_t`. */
  type Size = n: int | 0 <= n < SizeLimit

  /** The capacity `arena_create` substitutes when asked for zero bytes (1 MiB). */
  const DefaultLength: Size := 1048576

  /** A byte of the arena's storage (`uint8_t`). */
  type Byte = bv8

  /** The three conditions on which arena.c reports an error and aborts. */
  datatype Error =
    | InvalidArena        // the handle is a null pointer
    | UninitializedArena  // the handle's storage pointer is null
    | RequestTooLarge     // the request does not fit in the remaining bytes

  datatype Result<T> = Ok(value: T) | Err(error: Error)

  datatype Outcome = Pass | Fail(error: Error)

  /** `a - b` computed in `size_t`, that is modulo 2^64, as C's unsigned subtraction does. */
  function SizeSub(a: Size, b: Size): (d: Size)
    ensures b <= a ==> d == a - b
    ensures a < b ==> d == SizeLimit - (b - a)
  {
    (a - b) % SizeLimit
  }

  /** The capacity an arena created with `length` gets. */
  function CapacityFor(length: Size): (n: Size)
    ensures n > 0
    ensures length != 0 ==> n == length
    ensures length == 0 ==> n == DefaultLength
  {
    if length == 0 then DefaultLength else length
  }

  /** `n` zero bytes. */
  function Zeros(n: nat): (z: seq<Byte>)
    ensures |z| == n
    ensures forall i :: 0 <= i < n ==> z[i] == 0
  {
    seq(n, _ => 0)
  }

  /** The fields of an initialised `arena_t`, with the bytes its storage pointer addresses. */
  datatype State = State(length: Size, used: Size, bytes: seq<Byte>) {

    /** The cursor lies within the block and the block has exactly `length` bytes. */
    predicate Valid() {
      used <= length && |bytes| == length
    }

    /** What `arena_remaining` reports for this state. */
    function Remaining(): (r: Size)
      requires Valid()
      ensures used + r == length
    {
      SizeSub(length, used)
    }
  }

  /** The state `arena_create` leaves: a zero-filled block (fresh anonymous memory) and nothing used. */
  function Init(length: Size): (s: State)
    ensures s.Valid()
    ensures s.length == CapacityFor(length)
    ensures s.used == 0 && s.Remaining() == s.length
    ensures forall k :: 0 <= k < |s.bytes| ==> s.bytes[k] == 0
  {
    var n := CapacityFor(length);
    State(n, 0, Zeros(n))
  }

  /** A successful allocation: where the slice starts, and the arena afterwards. */
  datatype Allocation = Allocation(start: nat, after: State)

  /** What `arena_allocate` does to the arena for a request of `size` bytes. */
  function Alloc(s: State, size: Size): (r: Result<Allocation>)
    requires s.Valid()
    ensures r.Err? <==> size > s.Remaining()
    ensures r.Err? ==> r.error == RequestTooLarge
    ensures r.Ok? ==>
      var a := r.value;
      a.after.Valid() &&
      a.start == s.used &&
      a.after.length == s.length &&
      a.after.used == s.used + size &&
      (forall k :: a.start <= k < a.start + size ==> a.after.bytes[k] == 0) &&
      (forall k :: 0 <= k < s.length && !(a.start <= k < a.start + size) ==> a.after.bytes[k] == s.bytes[k])
  {
    if size > s.Remaining() then
      Err(RequestTooLarge)
    else
      var end := s.used + size;
      Ok(Allocation(s.used, State(s.length, end, s.bytes[..s.used] + Zeros(size) + s.bytes[end..])))
  }

  /** A run of successful allocations: where each slice starts, and the arena afterwards. */
  datatype Batch = Batch(starts: seq<nat>, after: State)

  /** The arena after `arena_allocate` is called with each of `sizes` in turn, stopping at the first error. */
  function AllocAll(s: State, sizes: seq<Size>): (r: Result<Batch>)
    requires s.Valid()
    ensures r.Ok? ==> r.value.after.Valid() && r.value.after.length == s.length
    decreases |sizes|
  {
    if sizes == [] then
      Ok(Batch([], s))
    else
      match Alloc(s, sizes[0])
      case Err(e) => Err(e)
      case Ok(a) =>
        match AllocAll(a.after, sizes[1..])
        case Err(e) => Err(e)
        case Ok(b) => Ok(Batch([a.start] + b.starts, b.after))
  }

  /** The total number of bytes requested by `sizes`. */
  function Sum(sizes: seq<Size>): nat {
    if sizes == [] then 0 else sizes[0] + Sum(sizes[1..])
  }

  /** A run of allocations succeeds exactly when all of it fits in the remaining bytes. */
  lemma {:induction false} AllocAllSucceedsIff(s: State, sizes: seq<Size>)
    requires s.Valid()
    ensures AllocAll(s, sizes).Ok? <==> Sum(sizes) <= s.Remaining()
    decreases |sizes|
  {
    if sizes != [] {
      var r := Alloc(s, sizes[0]);
      if r.Ok? {
        AllocAllSucceedsIff(r.value.after, sizes[1..]);
      }
    }
  }

  /**
   * The slices of a successful run are contiguous: the first starts at the old
   * cursor, each one starts where the previous one ended, and the cursor ends
   * up advanced by the total size. Hence they are pairwise disjoint and lie in
   * the block.
   */
  lemma {:induction false} AllocAllContiguous(s: State, sizes: seq<Size>)
    requires s.Valid()
    requires AllocAll(s, sizes).Ok?
    ensures var b := AllocAll(s, sizes).value;
      |b.starts| == |sizes| &&
      b.after.used == s.used + Sum(sizes) &&
      (|sizes| > 0 ==> b.starts[0] == s.used) &&
      (forall i :: 0 <= i < |sizes| - 1 ==> b.starts[i + 1] == b.starts[i] + sizes[i]) &&
      (forall i :: 0 <= i < |sizes| ==> s.used <= b.starts[i] && b.starts[i] + sizes[i] <= b.after.used) &&
      (forall i, j :: 0 <= i < j < |sizes| ==> b.starts[i] + sizes[i] <= b.starts[j])
    decreases |sizes|
  {
    if sizes != [] {
      var a := Alloc(s, sizes[0]).value;
      AllocAllContiguous(a.after, sizes[1..]);
      var b := AllocAll(s, sizes).value;
      var rest := AllocAll(a.after, sizes[1..]).value;
      assert b.starts == [a.start] + rest.starts;
      forall i | 0 <= i < |sizes| - 1
        ensures b.starts[i + 1] == b.starts[i] + sizes[i]
      {
        if i > 0 {
          assert b.starts[i] == rest.starts[i - 1] && b.starts[i + 1] == rest.starts[i];
        }
      }
      forall i, j | 0 <= i < j < |sizes|
        ensures b.starts[i] + sizes[i] <= b.starts[j]
      {
        assert b.starts[j] == rest.starts[j - 1];
        if i > 0 {
          assert b.starts[i] == rest.starts[i - 1];
        }
      }
    }
  }

  /**
   * When a run succeeds, every slice it handed out still reads as zero
   * afterwards (later allocations do not touch earlier slices), and every byte
   * outside the newly used range is as before.
   */
  lemma {:induction false} AllocAllZeroed(s: State, sizes: seq<Size>)
    requires s.Valid()
    requires AllocAll(s, sizes).Ok?
    ensures var b := AllocAll(s, sizes).value;
      |b.starts| == |sizes| &&
      (forall i :: 0 <= i < |sizes| ==> b.starts[i] + sizes[i] <= b.after.used) &&
      (forall i, k :: 0 <= i < |sizes| && b.starts[i] <= k < b.starts[i] + sizes[i] ==> b.after.bytes[k] == 0) &&
      (forall k :: 0 <= k < s.length && !(s.used <= k < b.after.used) ==> b.after.bytes[k] == s.bytes[k])
    decreases |sizes|
  {
    AllocAllContiguous(s, sizes);
    if sizes != [] {
      var a := Alloc(s, sizes[0]).value;
      AllocAllZeroed(a.after, sizes[1..]);
      AllocAllContiguous(a.after, sizes[1..]);
      var b := AllocAll(s, sizes).value;
      var rest := AllocAll(a.after, sizes[1..]).value;
      assert b.starts == [a.start] + rest.starts;
      assert b.after == rest.after;
      forall i, k | 0 <= i < |sizes| && b.starts[i] <= k < b.starts[i] + sizes[i]
        ensures b.after.bytes[k] == 0
      {
        if i > 0 {
          assert b.starts[i] == rest.starts[i - 1];
        } else {
          assert a.after.bytes[k] == 0;
        }
      }
    }
  }
}
