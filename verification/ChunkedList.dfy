/**
 The append-only container of lib/KFCBaseLibrary/include/chunked_list.h: linked chunks of a fixed number of elements.
 Each chunk has one pointer that is its data cursor while it is the last chunk and the link to the next chunk after.
 The lists of a program are shown to hold exactly the elements appended, at locations that never change.
 */
module ChunkedLists {
  import opened Util

  /** `_ptr`: a cursor behind the elements in place, or the next chunk. */
  datatype Link<T> = Cursor(count: nat) | Next(chunk: Chunk<T>)

  /** `data` are the elements constructed in the chunk's storage, which has room for `numElements`. */
  class Chunk<T> {
    const numElements: nat
    var ptr: Link<T>
    var data: seq<T>

    constructor (numElements: nat)
      ensures ptr == Cursor(0) && |data| == 0 && this.numElements == numElements
    {
      this.numElements, ptr, data := numElements, Cursor(0), [];
    }

    /** `_lastElement`, as an offset: the cursor, or the end of the storage when the pointer is a link. */
    function LastElement(): nat
      reads this
    {
      if ptr.Cursor? then ptr.count else numElements
    }

    function GetNextChunk(): Chunk?<T>
      reads this
    {
      if ptr.Next? then ptr.chunk else null
    }
  }

  /** An iterator: a chunk and an offset into it; past the end, no chunk. */
  datatype Iterator<T> = Iterator(chunk: Chunk?<T>, next: nat)

  /** `chunks` are linked in this order and hold `parts`; all but the last are full. */
  ghost predicate Linked<T>(numElements: nat, chunks: seq<Chunk<T>>, parts: seq<seq<T>>)
    reads chunks
  {
    && 0 < numElements && |parts| == |chunks|
    && (forall i, j :: 0 <= i < j < |chunks| ==> chunks[i] != chunks[j])
    && (forall i :: 0 <= i < |chunks| ==> Placed(numElements, chunks, parts, i))
  }

  /** Chunk i holds part i, and its pointer is the link to the next chunk or, in the last one, the cursor. */
  ghost predicate Placed<T>(numElements: nat, chunks: seq<Chunk<T>>, parts: seq<seq<T>>, i: nat)
    requires i < |chunks| == |parts|
    reads chunks[i]
  {
    && InPlace(chunks[i], numElements, parts[i])
    && (if i + 1 < |chunks| then chunks[i].ptr == Next(chunks[i + 1]) && |parts[i]| == numElements
        else chunks[i].ptr == Cursor(|parts[i]|))
  }

  ghost predicate InPlace<T>(chunk: Chunk<T>, numElements: nat, part: seq<T>)
    reads chunk
  {
    chunk.numElements == numElements && chunk.data == part && |part| <= numElements
  }

  ghost function GrowLast<T>(parts: seq<seq<T>>, x: T): (grown: seq<seq<T>>)
    requires |parts| > 0
    ensures |grown| == |parts|
  {
    parts[..|parts| - 1] + [parts[|parts| - 1] + [x]]
  }

  /** The parts with room behind the last one: a new one if that is full, or if there is none. */
  ghost function Roomy<T>(numElements: nat, parts: seq<seq<T>>): (roomy: seq<seq<T>>)
    ensures |roomy| > 0
  {
    if |parts| == 0 || |parts[|parts| - 1]| == numElements then parts + [[]] else parts
  }

  /** Where one more element goes: behind the last part, or into a part of its own if that is full. */
  ghost function Appended<T>(numElements: nat, parts: seq<seq<T>>, x: T): seq<seq<T>> {
    GrowLast(Roomy(numElements, parts), x)
  }

  /** Appending moves nothing: element j of part i stays element j of part i. */
  lemma AppendedKeepsLocations<T>(numElements: nat, parts: seq<seq<T>>, x: T, i: nat, j: nat)
    requires i < |parts| && j < |parts[i]|
    ensures var after := Appended(numElements, parts, x);
            i < |after| && j < |after[i]| && after[i][j] == parts[i][j]
  {
  }

  lemma FlattenGrowLast<T>(parts: seq<seq<T>>, x: T)
    requires |parts| > 0
    ensures Flatten(GrowLast(parts, x)) == Flatten(parts) + [x]
  {
    var init, last := parts[..|parts| - 1], parts[|parts| - 1];
    assert parts == init + [last];
    FlattenSnoc(init, last);
    FlattenSnoc(init, last + [x]);
    Assoc(Flatten(init), last, [x]);
  }

  lemma FlattenEmptyLast<T>(parts: seq<seq<T>>)
    ensures Flatten(parts + [[]]) == Flatten(parts)
  {
    FlattenSnoc(parts, []);
    NothingAdded(Flatten(parts));
  }

  class List<T> {
    const numElements: nat
    var firstChunk: Chunk?<T>
    var lastChunk: Chunk?<T>
    var size: nat
    ghost var chunks: seq<Chunk<T>>
    ghost var parts: seq<seq<T>>

    /** The list, but for a last chunk that may still be empty. */
    ghost predicate Chained()
      reads this, chunks
    {
      && Linked(numElements, chunks, parts)
      && size == |Flatten(parts)|
      && (if |chunks| == 0 then firstChunk == null && lastChunk == null
          else firstChunk == chunks[0] && lastChunk == chunks[|chunks| - 1])
    }

    ghost predicate Valid()
      reads this, chunks
    {
      Chained() && (|parts| > 0 ==> |parts[|parts| - 1]| > 0)
    }

    ghost function Contents(): seq<T>
      reads this
    {
      Flatten(parts)
    }

    constructor (numElements: nat)
      requires 0 < numElements
      ensures Valid() && |chunks| == 0 && this.numElements == numElements
    {
      this.numElements := numElements;
      firstChunk, lastChunk, size := null, null, 0;
      chunks, parts := [], [];
    }

    /** Appends; every element already in the list stays where it is: in the same chunk, at the same offset. */
    method EmplaceBack(x: T)
      requires Valid()
      modifies this, if lastChunk == null then {} else {lastChunk}
      ensures Valid() && Contents() == old(Contents()) + [x]
      ensures old(chunks) <= chunks
      ensures parts == Appended(numElements, old(parts), x)
      ensures forall c :: c in chunks && c !in old(chunks) ==> fresh(c)
    {
      assert |chunks| > 0 ==> Placed(numElements, chunks, parts, |chunks| - 1);
      if firstChunk == null {
        AddFirstChunk();
      } else if lastChunk.ptr == Cursor(numElements) {
        AddChunk();
      }
      assert parts == Roomy(numElements, old(parts));
      assert Placed(numElements, chunks, parts, |chunks| - 1);
      PlaceInLast(x);
    }

    method AddFirstChunk()
      requires Valid() && firstChunk == null
      modifies this
      ensures Chained() && fresh(lastChunk)
      ensures chunks == [lastChunk] && parts == old(parts) + [[]] && Contents() == old(Contents())
    {
      firstChunk := new Chunk<T>(numElements);
      lastChunk := firstChunk;
      FlattenEmptyLast(parts);
      chunks, parts := [firstChunk], parts + [[]];
    }

    method AddChunk()
      requires Valid() && lastChunk != null && lastChunk.ptr == Cursor(numElements)
      modifies this, lastChunk
      ensures Chained() && fresh(lastChunk)
      ensures chunks == old(chunks) + [lastChunk] && parts == old(parts) + [[]]
      ensures Contents() == old(Contents())
    {
      var added := new Chunk<T>(numElements);
      lastChunk.ptr := Next(added);
      lastChunk := added;
      FlattenEmptyLast(parts);
      chunks, parts := chunks + [added], parts + [[]];
      forall i | 0 <= i < |chunks| ensures Placed(numElements, chunks, parts, i) {
        assert i < |old(chunks)| ==> old(Placed(numElements, chunks, parts, i));
      }
    }

    method PlaceInLast(x: T)
      requires Chained() && lastChunk != null && lastChunk.ptr != Cursor(numElements)
      modifies this`size, this`parts, lastChunk
      ensures Valid() && parts == GrowLast(old(parts), x)
      ensures Contents() == old(Contents()) + [x]
    {
      FlattenGrowLast(parts, x);
      assert Placed(numElements, chunks, parts, |chunks| - 1);
      lastChunk.data := lastChunk.data + [x];
      lastChunk.ptr := Cursor(lastChunk.ptr.count + 1);
      parts := GrowLast(parts, x);
      size := size + 1;
      forall i | 0 <= i < |chunks| ensures Placed(numElements, chunks, parts, i) {
        assert i < |old(chunks)| ==> old(Placed(numElements, chunks, parts, i));
      }
    }

    method Clear()
      requires Valid()
      modifies this
      ensures Valid() && |chunks| == 0 && Contents() == []
    {
      if firstChunk != null {
        firstChunk, lastChunk, size := null, null, 0;
        chunks, parts := [], [];
      }
    }

    /** Move assignment. Moving a list to itself leaves it empty. */
    method MoveFrom(list: List<T>)
      requires Valid() && list.Valid() && list.numElements == numElements
      modifies this, list
      ensures Valid() && list.Valid()
      ensures list != this ==> Contents() == old(list.Contents()) && chunks == old(list.chunks)
      ensures list.Contents() == []
    {
      Clear();
      firstChunk, lastChunk, size := list.firstChunk, list.lastChunk, list.size;
      chunks, parts := list.chunks, list.parts;
      list.firstChunk, list.lastChunk, list.size := null, null, 0;
      list.chunks, list.parts := [], [];
    }

    /** Copy assignment: a chain of its own. Assigning a list to itself leaves it empty. */
    method Assign(list: List<T>)
      requires Valid() && list.Valid() && list.numElements == numElements
      modifies this
      ensures Valid() && (forall c :: c in chunks ==> fresh(c))
      ensures Contents() == if list == this then [] else old(list.Contents())
    {
      Clear();
      if list.firstChunk != null {
        ghost var copies;
        assert Placed(numElements, list.chunks, list.parts, 0);
        firstChunk, lastChunk, copies := CopyChunk(list.firstChunk, list.chunks, list.parts);
        chunks, parts := copies, list.parts;
      }
      size := list.size;
    }

    /** The copying constructor of a chunk: its elements, and then the chunks behind it. */
    static method CopyChunk(source: Chunk<T>, ghost chain: seq<Chunk<T>>, ghost parts: seq<seq<T>>)
      returns (copy: Chunk<T>, last: Chunk<T>, ghost copies: seq<Chunk<T>>)
      requires |chain| > 0 && source == chain[0] && Linked(source.numElements, chain, parts)
      ensures Linked(source.numElements, copies, parts)
      ensures copy == copies[0] && last == copies[|copies| - 1]
      ensures forall c :: c in copies ==> fresh(c)
      decreases |chain|
    {
      LinkedHead(source.numElements, chain, parts);
      copy := new Chunk<T>(source.numElements);
      for i := 0 to source.LastElement()
        invariant copy.ptr == Cursor(i) && copy.data == parts[0][..i]
      {
        copy.data := copy.data + [source.data[i]];
        copy.ptr := Cursor(i + 1);
      }
      assert copy.data == parts[0];
      if source.ptr.Next? {
        LinkedTail(source.numElements, chain, parts);
        LinkedHead(source.numElements, chain[1..], parts[1..]);
        var next;
        next, last, copies := CopyChunk(source.ptr.chunk, chain[1..], parts[1..]);
        PutInFront(copy, next, copies, parts);
        copies := [copy] + copies;
      } else {
        last, copies := copy, [copy];
      }
    }

    static method PutInFront(chunk: Chunk<T>, next: Chunk<T>, ghost chain: seq<Chunk<T>>, ghost parts: seq<seq<T>>)
      requires |chain| > 0 && next == chain[0] && chunk !in chain
      requires |parts| > 1 && Linked(chunk.numElements, chain, parts[1..])
      requires InPlace(chunk, chunk.numElements, parts[0]) && |parts[0]| == chunk.numElements
      modifies chunk
      ensures Linked(chunk.numElements, [chunk] + chain, parts)
    {
      chunk.ptr := Next(next);
      LinkedCons(chunk.numElements, chunk, chain, parts);
    }

    static lemma LinkedHead(numElements: nat, chain: seq<Chunk<T>>, parts: seq<seq<T>>)
      requires |chain| > 0 && Linked(numElements, chain, parts)
      ensures chain[0].numElements == numElements
      ensures chain[0].data == parts[0] && chain[0].LastElement() == |parts[0]| <= numElements
      ensures if |chain| > 1 then chain[0].ptr == Next(chain[1]) else chain[0].ptr.Cursor?
    {
      assert Placed(numElements, chain, parts, 0);
    }

    static lemma LinkedTail(numElements: nat, chain: seq<Chunk<T>>, parts: seq<seq<T>>)
      requires |chain| > 1 && Linked(numElements, chain, parts)
      ensures Linked(numElements, chain[1..], parts[1..])
    {
      forall i | 0 <= i < |chain| - 1 ensures Placed(numElements, chain[1..], parts[1..], i) {
        assert Placed(numElements, chain, parts, i + 1);
      }
    }

    static lemma LinkedCons(numElements: nat, chunk: Chunk<T>, chain: seq<Chunk<T>>, parts: seq<seq<T>>)
      requires |parts| > 1 && Linked(numElements, chain, parts[1..]) && chunk !in chain
      requires InPlace(chunk, numElements, parts[0]) && |parts[0]| == numElements
      requires chunk.ptr == Next(chain[0])
      ensures Linked(numElements, [chunk] + chain, parts)
    {
      forall i | 0 <= i < |chain| + 1 ensures Placed(numElements, [chunk] + chain, parts, i) {
        assert i > 0 ==> Placed(numElements, chain, parts[1..], i - 1);
      }
    }

    function Begin(): Iterator<T>
      reads this
    {
      Iterator(firstChunk, 0)
    }

    function End(): Iterator<T> { Iterator(null, 0) }

    /** An iterator stands at element n of the contents, or behind the last. */
    ghost predicate StandsAt(it: Iterator<T>, n: nat)
      requires Valid()
      reads this, chunks
    {
      if it.chunk == null then it == End() && n == |Contents()|
      else exists i: nat, j: nat :: InPart(it, i, j) && n == |Flatten(parts[..i])| + j
    }

    ghost predicate InPart(it: Iterator<T>, i: nat, j: nat)
      requires Valid()
      reads this, chunks
    {
      i < |parts| && j < |parts[i]| && it == Iterator(chunks[i], j)
    }

    lemma BeginStands()
      requires Valid()
      ensures StandsAt(Begin(), 0)
    {
      if |parts| > 0 {
        assert parts[..0] == [] && Placed(numElements, chunks, parts, 0);
        assert InPart(Begin(), 0, 0);
      }
    }

    /** An iterator that stands at an element points to it; the end is not at any. */
    lemma ElementAt(it: Iterator<T>, n: nat)
      requires Valid() && StandsAt(it, n)
      ensures it != End() <==> n < |Contents()|
      ensures n <= |Contents()| && (it.chunk != null ==> it.next < |it.chunk.data|)
      ensures n < |Contents()| ==> it.chunk != null && it.chunk.data[it.next] == Contents()[n]
    {
      if it.chunk != null {
        var i: nat, j: nat :| InPart(it, i, j) && n == |Flatten(parts[..i])| + j;
        assert Placed(numElements, chunks, parts, i);
        FlattenAt(parts, i, j);
      }
    }

    static lemma FlattenAt(parts: seq<seq<T>>, i: nat, j: nat)
      requires i < |parts| && j < |parts[i]|
      ensures |Flatten(parts[..i])| + j < |Flatten(parts)|
      ensures Flatten(parts)[|Flatten(parts[..i])| + j] == parts[i][j]
    {
      assert parts == parts[..i] + parts[i..];
      FlattenConcat(parts[..i], parts[i..]);
      assert Flatten(parts[i..]) == parts[i] + Flatten(parts[i..][1..]);
    }

    lemma NextInPart(i: nat)
      requires Valid() && i < |parts|
      ensures |Flatten(parts[..i + 1])| == |Flatten(parts[..i])| + |parts[i]|
      ensures i + 1 < |parts| ==> InPart(Iterator(chunks[i + 1], 0), i + 1, 0)
      ensures i + 1 == |parts| ==> |Flatten(parts[..i + 1])| == |Contents()|
    {
      assert parts[..i + 1] == parts[..i] + [parts[i]];
      FlattenSnoc(parts[..i], parts[i]);
      if i + 1 < |parts| {
        assert Placed(numElements, chunks, parts, i + 1);
      } else {
        assert parts[..i + 1] == parts;
      }
    }

    /** `operator++` goes to the next element, and from the last one to the end. */
    method Advance(it: Iterator<T>, ghost n: nat) returns (next: Iterator<T>)
      requires Valid() && StandsAt(it, n) && it != End()
      ensures StandsAt(next, n + 1)
    {
      ghost var i: nat, j: nat :| InPart(it, i, j) && n == |Flatten(parts[..i])| + j;
      assert Placed(numElements, chunks, parts, i);
      NextInPart(i);
      next := Iterator(it.chunk, it.next + 1);
      assert j + 1 < |parts[i]| ==> InPart(next, i, j + 1);
      if next.next == next.chunk.LastElement() {
        next := Iterator(next.chunk.GetNextChunk(), 0);
      }
    }

    /** What a walk from `begin` to `end` sees. */
    method Walk() returns (seen: seq<T>)
      requires Valid()
      ensures seen == Contents()
    {
      seen := [];
      var it := Begin();
      BeginStands();
      while it != End()
        invariant StandsAt(it, |seen|) && |seen| <= |Contents()| && seen == Contents()[..|seen|]
        decreases |Contents()| - |seen|
      {
        ElementAt(it, |seen|);
        var element := it.chunk.data[it.next];
        it := Advance(it, |seen|);
        seen := seen + [element];
      }
      ElementAt(it, |seen|);
    }

    function Size(): nat
      reads this
    {
      size
    }

    /** The name notwithstanding, this holds of the lists that have elements. */
    method Empty() returns (r: bool)
      requires Valid()
      ensures r <==> |Contents()| > 0
    {
      r := size != 0;
    }

    method Front() returns (x: T)
      requires Valid() && |Contents()| > 0
      ensures x == Contents()[0]
    {
      assert |parts| > 0 && Placed(numElements, chunks, parts, 0);
      x := firstChunk.data[0];
    }

    method Back() returns (x: T)
      requires Valid() && |Contents()| > 0
      ensures x == Contents()[|Contents()| - 1]
    {
      ghost var n := |parts| - 1;
      assert parts == parts[..n] + [parts[n]];
      FlattenSnoc(parts[..n], parts[n]);
      assert Placed(numElements, chunks, parts, n);
      x := lastChunk.data[lastChunk.LastElement() - 1];
    }
  }

  // ---------------------------------------------------------------- cursor or link

  /** Chunks in memory: where each starts, the size of its pointer, and of its storage behind that. */
  datatype Layout = Layout(pointerSize: nat, storage: nat)

  predicate Disjoint(l: Layout, starts: seq<nat>) {
    forall i, j :: 0 <= i < j < |starts| ==>
      starts[i] + l.pointerSize + l.storage <= starts[j] || starts[j] + l.pointerSize + l.storage <= starts[i]
  }

  /** `_isDataPtr`: the pointer of a chunk is taken for a cursor when it points from begin to end of the storage. */
  predicate IsDataPtr(l: Layout, start: nat, ptr: nat) {
    start + l.pointerSize <= ptr <= start + l.pointerSize + l.storage
  }

  /** The next chunk starts where the storage of the one before it ends. */
  predicate Adjacent(l: Layout, starts: seq<nat>, i: nat) {
    i + 1 < |starts| && starts[i + 1] == starts[i] + l.pointerSize + l.storage
  }

  /** How many linked chunks are reached from the first when links are told from cursors by their address. */
  function Reached(l: Layout, starts: seq<nat>): nat {
    if |starts| <= 1 || IsDataPtr(l, starts[0], starts[1]) then Min(1, |starts|)
    else 1 + Reached(l, starts[1..])
  }

  /** A cursor is always known as one; a link is, but for a next chunk right behind the storage. */
  lemma AddressTestExactly(l: Layout, starts: seq<nat>, i: nat, used: nat)
    requires Disjoint(l, starts) && i < |starts| && used <= l.storage && l.pointerSize > 0
    ensures IsDataPtr(l, starts[i], starts[i] + l.pointerSize + used)
    ensures i + 1 < |starts| ==> (IsDataPtr(l, starts[i], starts[i + 1]) <==> Adjacent(l, starts, i))
  {
    if i + 1 < |starts| {
      var next := starts[i + 1];
      assert starts[i] + l.pointerSize + l.storage <= next || next + l.pointerSize + l.storage <= starts[i];
    }
  }

  /** All chunks of a chain are reached if and only if none starts right behind the storage of the one before it. */
  lemma {:induction false} ChainIsReachedExactly(l: Layout, starts: seq<nat>)
    requires Disjoint(l, starts) && l.pointerSize > 0
    ensures Reached(l, starts) <= |starts|
    ensures Reached(l, starts) == |starts| <==> forall i: nat :: !Adjacent(l, starts, i)
  {
    if |starts| > 1 {
      var rest := starts[1..];
      AddressTestExactly(l, starts, 0, 0);
      assert Disjoint(l, rest);
      ChainIsReachedExactly(l, rest);
      forall i: nat ensures Adjacent(l, rest, i) == Adjacent(l, starts, i + 1) {
      }
      if !Adjacent(l, starts, 0) && Reached(l, starts) == |starts| {
        forall i: nat ensures !Adjacent(l, starts, i) {
          assert i > 0 ==> !Adjacent(l, rest, i - 1);
        }
      }
    }
  }

  // ---------------------------------------------------------------- runs

  /** `MoveOn` and `CopyOn` go on with a new list the elements were moved or copied to. */
  datatype Op<T> = Append(x: T) | ClearAll | MoveOn | CopyOn

  /** What a list should hold after `ops`. */
  function After<T>(ops: seq<Op<T>>): seq<T> {
    if |ops| == 0 then []
    else
      match ops[|ops| - 1]
      case Append(x) => After(ops[..|ops| - 1]) + [x]
      case ClearAll => []
      case MoveOn => After(ops[..|ops| - 1])
      case CopyOn => After(ops[..|ops| - 1])
  }

  /** Any run of operations on a list of any chunk size, and then a walk over it. */
  method RunAndWalk<T>(numElements: nat, ops: seq<Op<T>>) returns (seen: seq<T>)
    requires 0 < numElements
    ensures seen == After(ops)
  {
    var list := new List<T>(numElements);
    for i := 0 to |ops|
      invariant fresh(list) && list.Valid() && (forall c :: c in list.chunks ==> fresh(c))
      invariant list.numElements == numElements && list.Contents() == After(ops[..i])
    {
      assert ops[..i + 1][..i] == ops[..i];
      match ops[i] {
        case Append(x) =>
          assert list.lastChunk != null ==> list.lastChunk in list.chunks;
          list.EmplaceBack(x);
        case ClearAll => list.Clear();
        case MoveOn =>
          var other := new List<T>(numElements);
          other.MoveFrom(list);
          list := other;
        case CopyOn =>
          var other := new List<T>(numElements);
          other.Assign(list);
          list := other;
      }
    }
    assert ops[..|ops|] == ops;
    seen := list.Walk();
  }

  /** A copy and its source do not share a chunk: appending to either leaves the other as it was. */
  method CopyThenAppend<T>(source: List<T>, copy: List<T>, x: T, y: T)
    requires source != copy && source.Valid() && copy.Valid() && source.numElements == copy.numElements
    modifies source, source.chunks, copy
    ensures source.Valid() && source.Contents() == old(source.Contents()) + [x]
    ensures copy.Valid() && copy.Contents() == old(source.Contents()) + [y]
  {
    copy.Assign(source);
    assert copy.lastChunk != null ==> copy.lastChunk in copy.chunks;
    assert source.lastChunk != null ==> source.lastChunk in source.chunks;
    AppendBeside(source, copy, x);
    AppendBeside(copy, source, y);
  }

  /** Appending to one list leaves a list with chunks of its own alone. */
  method AppendBeside<T>(list: List<T>, other: List<T>, x: T)
    requires list != other && list.Valid() && other.Valid()
    requires forall c :: c in other.chunks ==> c !in list.chunks
    modifies list, if list.lastChunk == null then {} else {list.lastChunk}
    ensures list.Valid() && list.Contents() == old(list.Contents()) + [x]
    ensures other.Valid()
    ensures forall c :: c in list.chunks ==> c in old(list.chunks) || fresh(c)
  {
    assert list.lastChunk != null ==> list.lastChunk in list.chunks;
    list.EmplaceBack(x);
  }
}
