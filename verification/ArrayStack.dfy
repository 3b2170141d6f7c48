/** The stack object itself: a backing array whose length is the capacity,
    and the count of occupied leading cells. Every operation is proved to
    move the object's `Snap()` exactly as the matching function of
    `StackSpec` does, so the properties proved there hold of the object.
 */
module ArrayStack {
  import opened StackSpec

  const DefaultCapacity: nat := 10

  class Stack<T> {
    var data: array<Ref<T>>
    var size: nat

    /** The object invariant: 0 <= size <= capacity. */
    ghost predicate Valid()
      reads this
    {
      size <= data.Length
    }

    /** The object's whole state as a value. */
    ghost function Snap(): (s: Snapshot<T>)
      reads this, data
      ensures Valid() ==> s.Valid()
    {
      Snapshot(data[..], size)
    }

    /** The no-argument constructor: ten cleared cells, nothing on the stack. */
    constructor Default()
      ensures Valid() && fresh(data)
      ensures Snap().Capacity() == DefaultCapacity && Snap().size == 0 && Snap().Clean()
    {
      data := new Ref<T>[DefaultCapacity](_ => Null);
      size := 0;
    }

    /** The checked-capacity constructor, on its success path; `New` adds the
        check for a capacity below one. */
    constructor (capacity: int)
      requires capacity >= 1
      ensures Valid() && fresh(data)
      ensures Snap().Capacity() == capacity && Snap().size == 0 && Snap().Clean()
    {
      data := new Ref<T>[capacity](_ => Null);
      size := 0;
    }

    /** The restoring constructor, on its success path: adopts the caller's
        array itself (no copy), so the caller's reference and the stack's
        `data` are the same array afterwards. */
    constructor Adopt(cells: array<Ref<T>>, size: int)
      requires 0 <= size <= cells.Length
      ensures Valid() && data == cells && this.size == size
      ensures Snap() == Snapshot(cells[..], size)
    {
      data := cells;
      this.size := size;
    }

    /** A capacity below one is rejected with IllegalArgument; any other
        capacity gives an empty stack of exactly that many cleared cells. */
    static method New(capacity: int) returns (r: Result<Stack<T>>)
      ensures r.Failure? <==> capacity < 1
      ensures r.Failure? ==> r.error == IllegalArgument
      ensures r.Success? ==> fresh(r.value) && fresh(r.value.data) && r.value.Valid()
      ensures r.Success? ==> r.value.Snap().Capacity() == capacity && r.value.Snap().size == 0 && r.value.Snap().Clean()
    {
      if capacity < 1 {
        return Failure(IllegalArgument);
      }
      var s := new Stack<T>(capacity);
      r := Success(s);
    }

    /** A size outside 0..cells.Length is rejected with IllegalArgument;
        otherwise the stack adopts exactly that array and that size, and its
        capacity is the array's length (possibly zero). */
    static method Restore(cells: array<Ref<T>>, size: int) returns (r: Result<Stack<T>>)
      ensures r.Failure? <==> size < 0 || size > cells.Length
      ensures r.Failure? ==> r.error == IllegalArgument
      ensures r.Success? ==> fresh(r.value) && r.value.Valid()
      ensures r.Success? ==> r.value.data == cells && r.value.Snap() == Snapshot(cells[..], size)
    {
      if size < 0 || size > cells.Length {
        return Failure(IllegalArgument);
      }
      var s := new Stack<T>.Adopt(cells, size);
      r := Success(s);
    }

    method Push(value: Ref<T>) returns (r: Outcome)
      requires Valid()
      modifies this, data
      ensures Valid() && data == old(data)
      ensures (r, Snap()) == StackSpec.Push(old(Snap()), value)
    {
      if IsFull() {
        return Fail(StackFull);
      }
      data[size] := value;
      size := size + 1;
      r := Pass;
    }

    method Pop() returns (r: Result<Ref<T>>)
      requires Valid()
      modifies this, data
      ensures Valid() && data == old(data)
      ensures (r, Snap()) == StackSpec.Pop(old(Snap()))
    {
      if IsEmpty() {
        return Failure(StackEmpty);
      }
      var topIndex := size - 1;
      var value := data[topIndex];
      data[topIndex] := Null;
      size := size - 1;
      r := Success(value);
    }

    function Peek(): (r: Result<Ref<T>>)
      reads this, data
      requires Valid()
      ensures r == StackSpec.Peek(Snap())
    {
      if IsEmpty() then Failure(StackEmpty) else Success(data[size - 1])
    }

    /** The occupied cells, bottom to top, each rendered by `show` (or as
        "null"), separated by ';'. */
    method List(show: T -> string) returns (s: string)
      requires Valid()
      ensures s == Join(Snap().Contents(), show)
    {
      s := "";
      var i := 0;
      while i < size
        invariant 0 <= i <= size
        invariant s == Join(data[..i], show)
      {
        if i > 0 {
          s := s + ";";
        }
        s := s + Text(data[i], show);
        assert data[..i + 1][..i] == data[..i];
        i := i + 1;
      }
      assert data[..size] == Snap().Contents();
    }

    function Size(): (n: nat)
      reads this, data
      requires Valid()
      ensures n == |Snap().Contents()| && n <= Capacity()
    {
      size
    }

    function Capacity(): (n: nat)
      reads this, data
      ensures n == Snap().Capacity()
    {
      data.Length
    }

    function IsEmpty(): (b: bool)
      reads this, data
      requires Valid()
      ensures b <==> Snap().Contents() == []
    {
      size == 0
    }

    function IsFull(): (b: bool)
      reads this, data
      requires Valid()
      ensures b <==> |Snap().Contents()| == Snap().Capacity()
    {
      size == data.Length
    }
  }
}
