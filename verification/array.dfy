/** `miv::array<T>`: a bounds-checked, heap-backed dynamic array with deep copies.

    The buffer is a `seq<T>`; the raw pointer, iterators and manual `delete[]`
    become value semantics. Storage the C++ code allocates with `new T[n]` and
    never writes has unspecified contents: those cells are drawn from a
    `junk` parameter, the allocator's arbitrary contents.
 */
module Arrays {
  import opened Exceptions

  /** `std::size_t(-1)` on a 64-bit platform: the "not found" index of `find`. */
  const NPOS: nat := 0xFFFF_FFFF_FFFF_FFFF

  /** Arbitrary contents of freshly allocated storage, by buffer index. */
  type Junk<T> = int -> T

  datatype Array<T> = Array(items: seq<T>) {

    function Size(): nat {
      |items|
    }

    /** `empty()` */
    predicate IsEmpty() {
      |items| == 0
    }
  }

  /** `array()`: no buffer, size 0. */
  function Empty<T>(): (r: Array<T>)
    ensures r.Size() == 0
  {
    Array([])
  }

  /** `array(size)`: `new type[size]`, whose contents are not initialised. */
  function Allocate<T>(size: nat, junk: Junk<T>): (r: Array<T>)
    ensures r.Size() == size
    ensures forall i :: 0 <= i < size ==> r.items[i] == junk(i)
  {
    Array(seq(size, i requires 0 <= i < size => junk(i)))
  }

  /** `array(std::initializer_list)`: the literal's elements in order. */
  function FromList<T>(init: seq<T>): (r: Array<T>)
    ensures r.Size() == |init|
    ensures forall i :: 0 <= i < |init| ==> r.items[i] == init[i]
  {
    Array(init)
  }

  /** `array(const type *data, size)`: a copy of `size` elements behind a pointer.
      A null pointer is `None`; the pointed-to buffer must hold `size` elements,
      which is the caller's obligation in C++ as well. */
  function FromBuffer<T>(data: Option<seq<T>>, size: nat): (r: Result<Array<T>>)
    requires data.Some? ==> |data.value| >= size
    ensures size == 0 ==> r == Ok(Empty())
    ensures r.Err? <==> size != 0 && data.None?
    ensures r.Err? ==> r.error == InvalidArgument
    ensures r.Ok? ==> (r.value.Size() == size
      && forall i :: 0 <= i < size ==> r.value.items[i] == data.value[i])
  {
    if size == 0 then Ok(Empty())
    else if data.None? then Err(InvalidArgument)
    else Ok(Array(data.value[..size]))
  }

  /** `operator[]` (read): throws `out_of_range` when `idx >= size()`. */
  function Get<T>(a: Array<T>, idx: nat): (r: Result<T>)
    ensures r.Err? <==> idx >= a.Size()
    ensures r.Err? ==> r.error == OutOfRange
    ensures r.Ok? ==> r.value == a.items[idx]
  {
    if idx >= |a.items| then Err(OutOfRange) else Ok(a.items[idx])
  }

  /** `operator[]` (write): the same bounds check, then one element replaced. */
  function Set<T>(a: Array<T>, idx: nat, v: T): (r: Result<Array<T>>)
    ensures r.Err? <==> idx >= a.Size()
    ensures r.Err? ==> r.error == OutOfRange
    ensures r.Ok? ==> (r.value.Size() == a.Size() && r.value.items[idx] == v
      && forall i :: 0 <= i < a.Size() && i != idx ==> r.value.items[i] == a.items[i])
  {
    if idx >= |a.items| then Err(OutOfRange) else Ok(Array(a.items[idx := v]))
  }

  /** Reading an element just written gives the written value back. */
  lemma SetThenGet<T>(a: Array<T>, idx: nat, v: T)
    requires idx < a.Size()
    ensures Set(a, idx, v).Ok? && Get(Set(a, idx, v).value, idx) == Ok(v)
  {
  }

  /** Writing back the value just read changes nothing. */
  lemma GetThenSet<T>(a: Array<T>, idx: nat)
    requires idx < a.Size()
    ensures Set(a, idx, Get(a, idx).value) == Ok(a)
  {
    assert a.items[idx := a.items[idx]] == a.items;
  }

  /** `clear()`: releases the buffer. */
  function Clear<T>(a: Array<T>): (r: Array<T>)
    ensures r.IsEmpty()
  {
    Empty()
  }

  /** `fill(value)`: every element becomes `value`; the size is unchanged. */
  function Fill<T>(a: Array<T>, value: T): (r: Array<T>)
    ensures r.Size() == a.Size()
    ensures forall i :: 0 <= i < r.Size() ==> r.items[i] == value
  {
    if |a.items| == 0 then a else Array(seq(|a.items|, _ => value))
  }

  /** `resize(n)`: equal size is a no-op, 0 clears, otherwise a fresh buffer of
      `n` elements whose first `min(old, n)` are copied; the rest are `junk`. */
  function Resize<T>(a: Array<T>, n: nat, junk: Junk<T>): (r: Array<T>)
    ensures n == a.Size() ==> r == a
    ensures n == 0 ==> r.IsEmpty()
    ensures r.Size() == n
    ensures forall i :: 0 <= i < n && i < a.Size() ==> r.items[i] == a.items[i]
    ensures forall i :: a.Size() <= i < n ==> r.items[i] == junk(i)
  {
    if n == |a.items| then a
    else if n == 0 then Clear(a)
    else
      var copySize := if n < |a.items| then n else |a.items|;
      Array(seq(n, i requires 0 <= i < n => if i < copySize then a.items[i] else junk(i)))
  }

  /** Growing an array and shrinking it back to its old size restores it,
      whatever the fresh storage held. */
  lemma ResizeGrowShrink<T>(a: Array<T>, n: nat, junk: Junk<T>, junk': Junk<T>)
    requires n >= a.Size()
    ensures Resize(Resize(a, n, junk), a.Size(), junk') == a
  {
    var b := Resize(a, n, junk);
    var c := Resize(b, a.Size(), junk');
    assert c.items == a.items;
  }

  /** `front()`: throws `out_of_range` on an empty array. */
  function Front<T>(a: Array<T>): (r: Result<T>)
    ensures r.Err? <==> a.IsEmpty()
    ensures r.Err? ==> r.error == OutOfRange
    ensures r.Ok? ==> r.value == a.items[0]
  {
    if |a.items| == 0 then Err(OutOfRange) else Ok(a.items[0])
  }

  /** `back()`: throws `out_of_range` on an empty array. */
  function Back<T>(a: Array<T>): (r: Result<T>)
    ensures r.Err? <==> a.IsEmpty()
    ensures r.Err? ==> r.error == OutOfRange
    ensures r.Ok? ==> r.value == a.items[a.Size() - 1]
  {
    if |a.items| == 0 then Err(OutOfRange) else Ok(a.items[|a.items| - 1])
  }

  /** The linear scan of `std::find`, from position `from`: the first index at
      or after `from` holding `value`, or `NPOS`. */
  function FindFrom<T(==)>(items: seq<T>, value: T, from: nat): (r: nat)
    requires from <= |items| < NPOS
    ensures r == NPOS || (from <= r < |items| && items[r] == value)
    ensures r == NPOS <==> forall i :: from <= i < |items| ==> items[i] != value
    ensures r != NPOS ==> forall i :: from <= i < r ==> items[i] != value
    decreases |items| - from
  {
    if from == |items| then NPOS
    else if items[from] == value then from
    else FindFrom(items, value, from + 1)
  }

  /** `find(value)`: the index of the first occurrence, or `npos`. */
  function Find<T(==)>(a: Array<T>, value: T): (r: nat)
    requires a.Size() < NPOS
    ensures r == NPOS <==> value !in a.items
    ensures r != NPOS ==> (r < a.Size() && a.items[r] == value
      && forall i :: 0 <= i < r ==> a.items[i] != value)
  {
    if |a.items| == 0 then NPOS else FindFrom(a.items, value, 0)
  }

  /** `contains(value)`: defined as `find(value) != npos`. */
  function Contains<T(==)>(a: Array<T>, value: T): (r: bool)
    requires a.Size() < NPOS
    ensures r <==> value in a.items
  {
    Find(a, value) != NPOS
  }

  /** `operator==`: sizes first, then `std::equal` over the elements. */
  function Equal<T(==)>(a: Array<T>, b: Array<T>): (r: bool)
    ensures r <==> (a.Size() == b.Size()
      && forall i :: 0 <= i < a.Size() ==> a.items[i] == b.items[i])
  {
    if |a.items| != |b.items| then false
    else if |a.items| == 0 then true
    else ElementsEqual(a.items, b.items, 0)
  }

  /** `std::equal` over the suffixes starting at `from`. */
  function ElementsEqual<T(==)>(s: seq<T>, t: seq<T>, from: nat): (r: bool)
    requires |s| == |t| && from <= |s|
    ensures r <==> forall i :: from <= i < |s| ==> s[i] == t[i]
    decreases |s| - from
  {
    from == |s| || (s[from] == t[from] && ElementsEqual(s, t, from + 1))
  }

  /** `operator!=` */
  function NotEqual<T(==)>(a: Array<T>, b: Array<T>): (r: bool)
    ensures r <==> (a.Size() != b.Size() || exists i :: 0 <= i < a.Size() && a.items[i] != b.items[i])
  {
    !Equal(a, b)
  }

  /** `operator==` agrees with value equality of the modelled arrays. */
  lemma EqualIsValueEquality<T>(a: Array<T>, b: Array<T>)
    ensures Equal(a, b) <==> a == b
  {
    if Equal(a, b) {
      assert a.items == b.items;
    }
  }

  /** The copy constructor and copy assignment: an equal, independent array. */
  function Copy<T>(a: Array<T>): (r: Array<T>)
    ensures r.Size() == a.Size()
    ensures forall i :: 0 <= i < a.Size() ==> r.items[i] == a.items[i]
  {
    Array(a.items)
  }

  /** After a move: the target and the emptied source. */
  datatype Moved<T> = Moved(target: Array<T>, source: Array<T>)

  /** The move constructor: the target takes the buffer, the source is left empty. */
  function Move<T>(src: Array<T>): (r: Moved<T>)
    ensures r.target == src
    ensures r.source.IsEmpty()
  {
    Moved(src, Empty())
  }

  /** Move assignment `dst = std::move(src)`. `aliased` is `this == &obj`, in
      which case nothing happens. */
  function MoveAssign<T>(dst: Array<T>, src: Array<T>, aliased: bool): (r: Moved<T>)
    requires aliased ==> dst == src
    ensures aliased ==> r.target == dst && r.source == src
    ensures !aliased ==> r.target == src && r.source.IsEmpty()
  {
    if aliased then Moved(dst, src) else Move(src)
  }
}
