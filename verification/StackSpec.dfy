/** Value-level specification of the bounded, array-backed LIFO stack.

    A `Snapshot` is the whole observable state of a stack: the backing cells
    (whose length is the capacity) and the number of occupied leading cells.
    The class `ArrayStack.Stack` is proved to step its snapshot exactly as
    the functions of this module do, and the properties the stack promises
    (bounds, LIFO order, error behaviour, the textual listing) are proved here
    about those functions.
 */
module StackSpec {

  /** A reference of static type T as stored in the backing array: the null
      reference, or an object. Cleared cells hold `Null`. */
  datatype Ref<T> = Null | Obj(obj: T)

  /** The stack's error signals: the two checked exceptions and the
      constructors' IllegalArgumentException. */
  datatype Error = StackFull | StackEmpty | IllegalArgument

  datatype Result<R> = Success(value: R) | Failure(error: Error)

  datatype Outcome = Pass | Fail(error: Error)

  datatype Snapshot<T> = Snapshot(cells: seq<Ref<T>>, size: int) {

    /** The stack invariant: 0 <= size <= capacity. */
    predicate Valid() {
      0 <= size <= |cells|
    }

    function Capacity(): (n: nat) {
      |cells|
    }

    /** The logical contents, bottom (index 0) to top. */
    function Contents(): (c: seq<Ref<T>>)
      requires Valid()
      ensures |c| == size
    {
      cells[..size]
    }

    /** Every cell above the top is cleared. */
    predicate Clean()
      requires Valid()
    {
      forall i :: size <= i < |cells| ==> cells[i] == Null
    }
  }

  /** Top of the stack without removing it. */
  function Peek<T>(s: Snapshot<T>): (r: Result<Ref<T>>)
    requires s.Valid()
    ensures r.Failure? <==> s.Contents() == []
    ensures r.Failure? ==> r.error == StackEmpty
    ensures r.Success? ==> r.value == s.Contents()[|s.Contents()| - 1]
  {
    if s.size == 0 then Failure(StackEmpty) else Success(s.cells[s.size - 1])
  }

  /** One push: fails with StackFull on a full stack and changes nothing;
      otherwise the value goes on top and no other cell changes. */
  function Push<T>(s: Snapshot<T>, v: Ref<T>): (r: (Outcome, Snapshot<T>))
    requires s.Valid()
    ensures r.1.Valid() && r.1.Capacity() == s.Capacity()
    ensures r.0.Fail? <==> s.size == s.Capacity()
    ensures r.0.Fail? ==> r.0.error == StackFull && r.1 == s
    ensures r.0.Pass? ==> r.1.size == s.size + 1 && r.1.Contents() == s.Contents() + [v]
    ensures r.0.Pass? ==> forall i :: 0 <= i < |s.cells| && i != s.size ==> r.1.cells[i] == s.cells[i]
    ensures s.Clean() ==> r.1.Clean()
  {
    if s.size == |s.cells| then
      (Fail(StackFull), s)
    else
      var t := Snapshot(s.cells[s.size := v], s.size + 1);
      assert t.Contents() == s.Contents() + [v];
      (Pass, t)
  }

  /** One pop: fails with StackEmpty on an empty stack and changes nothing;
      otherwise returns what `Peek` shows, clears that cell and shrinks the
      stack by one, leaving every other cell as it was. */
  function Pop<T>(s: Snapshot<T>): (r: (Result<Ref<T>>, Snapshot<T>))
    requires s.Valid()
    ensures r.1.Valid() && r.1.Capacity() == s.Capacity()
    ensures r.0.Failure? <==> s.size == 0
    ensures r.0.Failure? ==> r.0.error == StackEmpty && r.1 == s
    ensures r.0.Success? ==> r.0 == Peek(s) && r.1.size == s.size - 1 && r.1.cells[s.size - 1] == Null
    ensures r.0.Success? ==> s.Contents() == r.1.Contents() + [r.0.value]
    ensures r.0.Success? ==> forall i :: 0 <= i < |s.cells| && i != s.size - 1 ==> r.1.cells[i] == s.cells[i]
    ensures s.Clean() ==> r.1.Clean()
  {
    if s.size == 0 then
      (Failure(StackEmpty), s)
    else
      var t := Snapshot(s.cells[s.size - 1 := Null], s.size - 1);
      assert s.Contents() == t.Contents() + [s.cells[s.size - 1]];
      (Success(s.cells[s.size - 1]), t)
  }

  /** A push that succeeds, followed by a pop, returns the pushed value and
      gives back the previous contents and size; the cells come back exactly
      when the cell written by the push had been cleared before. */
  lemma PushThenPop<T>(s: Snapshot<T>, v: Ref<T>)
    requires s.Valid() && s.size < s.Capacity()
    ensures Push(s, v).0 == Pass
    ensures Pop(Push(s, v).1).0 == Success(v)
    ensures Pop(Push(s, v).1).1.size == s.size
    ensures Pop(Push(s, v).1).1.Contents() == s.Contents()
    ensures Pop(Push(s, v).1).1 == s <==> s.cells[s.size] == Null
  {
  }

  // ---------------------------------------------------------------------
  // Sequences of calls: LIFO order

  function Reversed<T>(vs: seq<T>): (r: seq<T>)
    ensures |r| == |vs|
  {
    if vs == [] then [] else [vs[|vs| - 1]] + Reversed(vs[..|vs| - 1])
  }

  /** Pushes `vs` in order, stopping at the first failure. */
  function PushAll<T>(s: Snapshot<T>, vs: seq<Ref<T>>): (r: (Outcome, Snapshot<T>))
    requires s.Valid()
    ensures r.1.Valid() && r.1.Capacity() == s.Capacity()
    decreases |vs|
  {
    if vs == [] then
      (Pass, s)
    else
      var step := Push(s, vs[0]);
      if step.0.Fail? then step else PushAll(step.1, vs[1..])
  }

  /** Pops `n` times, collecting the values in the order they come off,
      stopping at the first failure. */
  function PopN<T>(s: Snapshot<T>, n: nat): (r: (Result<seq<Ref<T>>>, Snapshot<T>))
    requires s.Valid()
    ensures r.1.Valid() && r.1.Capacity() == s.Capacity()
    decreases n
  {
    if n == 0 then
      (Success([]), s)
    else
      var step := Pop(s);
      if step.0.Failure? then
        (Failure(step.0.error), step.1)
      else
        var rest := PopN(step.1, n - 1);
        if rest.0.Failure? then rest else (Success([step.0.value] + rest.0.value), rest.1)
  }

  /** Pushing values that fit always succeeds and appends them to the contents. */
  lemma {:induction false} PushAllAppends<T>(s: Snapshot<T>, vs: seq<Ref<T>>)
    requires s.Valid() && s.size + |vs| <= s.Capacity()
    ensures PushAll(s, vs).0 == Pass
    ensures PushAll(s, vs).1.Contents() == s.Contents() + vs
    decreases |vs|
  {
    if vs != [] {
      var t := Push(s, vs[0]).1;
      PushAllAppends(t, vs[1..]);
      assert s.Contents() + vs == s.Contents() + [vs[0]] + vs[1..];
    }
  }

  /** Popping |vs| times from a stack whose contents end in `vs` returns `vs`
      top first and leaves the contents below. */
  lemma {:induction false} PopNReverses<T>(t: Snapshot<T>, below: seq<Ref<T>>, vs: seq<Ref<T>>)
    requires t.Valid() && t.Contents() == below + vs
    ensures PopN(t, |vs|).0 == Success(Reversed(vs))
    ensures PopN(t, |vs|).1.Contents() == below
    decreases |vs|
  {
    if vs != [] {
      var step := Pop(t);
      var init := vs[..|vs| - 1];
      assert t.Contents() == (below + init) + [vs[|vs| - 1]];
      assert step.1.Contents() == below + init;
      PopNReverses(step.1, below, init);
    }
  }

  /** LIFO: pushing v1..vn (room permitting) and then popping n times yields
      vn..v1 and restores the previous contents. */
  lemma LifoOrder<T>(s: Snapshot<T>, vs: seq<Ref<T>>)
    requires s.Valid() && s.size + |vs| <= s.Capacity()
    ensures PushAll(s, vs).0 == Pass
    ensures PopN(PushAll(s, vs).1, |vs|).0 == Success(Reversed(vs))
    ensures PopN(PushAll(s, vs).1, |vs|).1.Contents() == s.Contents()
  {
    PushAllAppends(s, vs);
    PopNReverses(PushAll(s, vs).1, s.Contents(), vs);
  }

  // ---------------------------------------------------------------------
  // The textual listing

  /** How one cell is appended to the listing: "null" for the null
      reference, otherwise the element's own string form `show`. */
  function Text<T>(c: Ref<T>, show: T -> string): (s: string) {
    match c
    case Null => "null"
    case Obj(x) => show(x)
  }

  /** The cells rendered bottom to top and separated by ';'. */
  function Join<T>(cells: seq<Ref<T>>, show: T -> string): (s: string) {
    if |cells| == 0 then ""
    else if |cells| == 1 then Text(cells[0], show)
    else Join(cells[..|cells| - 1], show) + ";" + Text(cells[|cells| - 1], show)
  }

  /** The listing is empty exactly for the empty stack and for a stack of one
      element whose text is empty. */
  lemma JoinEmpty<T>(cells: seq<Ref<T>>, show: T -> string)
    ensures Join(cells, show) == "" <==> cells == [] || (|cells| == 1 && Text(cells[0], show) == "")
  {
  }

  /** Listing a concatenation joins the two listings with one ';'. */
  lemma {:induction false} JoinAppend<T>(xs: seq<Ref<T>>, ys: seq<Ref<T>>, show: T -> string)
    requires xs != [] && ys != []
    ensures Join(xs + ys, show) == Join(xs, show) + ";" + Join(ys, show)
    decreases |ys|
  {
    var last := ys[|ys| - 1];
    if |ys| == 1 {
      assert (xs + ys)[..|xs + ys| - 1] == xs;
    } else {
      var init := ys[..|ys| - 1];
      assert (xs + ys)[..|xs + ys| - 1] == xs + init;
      JoinAppend(xs, init, show);
    }
  }

  /** The texts of the cells, in order. */
  function Texts<T>(cells: seq<Ref<T>>, show: T -> string): (r: seq<string>)
    ensures |r| == |cells|
  {
    if cells == [] then [] else Texts(cells[..|cells| - 1], show) + [Text(cells[|cells| - 1], show)]
  }

  /** Splits a string at every ';' (an empty string gives one empty field). */
  function Split(s: string): (r: seq<string>)
    ensures |r| >= 1
  {
    if s == [] then
      [""]
    else
      var init := Split(s[..|s| - 1]);
      var c := s[|s| - 1];
      if c == ';' then init + [""] else init[..|init| - 1] + [init[|init| - 1] + [c]]
  }

  lemma {:induction false} SplitAppendField(a: string, w: string)
    requires ';' !in w
    ensures Split(a + w) == Split(a)[..|Split(a)| - 1] + [Split(a)[|Split(a)| - 1] + w]
    decreases |w|
  {
    if w == [] {
      var fields := Split(a);
      assert a + w == a;
      assert fields[|fields| - 1] + w == fields[|fields| - 1];
      assert fields == fields[..|fields| - 1] + [fields[|fields| - 1]];
    } else {
      var w', c := w[..|w| - 1], w[|w| - 1];
      assert (a + w)[..|a + w| - 1] == a + w';
      assert c != ';' && (a + w)[|a + w| - 1] == c;
      SplitAppendField(a, w');
      var fields := Split(a);
      var init := Split(a + w');
      assert init == fields[..|fields| - 1] + [fields[|fields| - 1] + w'];
      assert Split(a + w) == init[..|init| - 1] + [init[|init| - 1] + [c]];
      assert init[..|init| - 1] == fields[..|fields| - 1];
      assert w' + [c] == w;
      assert init[|init| - 1] + [c] == fields[|fields| - 1] + w;
    }
  }

  lemma SplitAfterSeparator(a: string, w: string)
    requires ';' !in w
    ensures Split(a + ";" + w) == Split(a) + [w]
  {
    var sep := a + ";";
    assert sep[..|sep| - 1] == a && sep[|sep| - 1] == ';';
    assert Split(sep) == Split(a) + [""];
    SplitAppendField(sep, w);
    assert sep + w == a + ";" + w;
    assert "" + w == w;
  }

  /** Round trip: when no element text contains ';', splitting the listing
      of a non-empty stack gives back each element's text. */
  lemma {:induction false} SplitJoin<T>(cells: seq<Ref<T>>, show: T -> string)
    requires cells != []
    requires forall i :: 0 <= i < |cells| ==> ';' !in Text(cells[i], show)
    ensures Split(Join(cells, show)) == Texts(cells, show)
    decreases |cells|
  {
    var last := Text(cells[|cells| - 1], show);
    if |cells| == 1 {
      SplitAppendField("", last);
      assert "" + last == last;
      assert cells[..0] == [];
    } else {
      var init := cells[..|cells| - 1];
      SplitJoin(init, show);
      SplitAfterSeparator(Join(init, show), last);
    }
  }
}
