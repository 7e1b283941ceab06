/**
 The growing byte buffer of lib/KFCBaseLibrary/src/Buffer.cpp and the stream over it of
 lib/KFCBaseLibrary/src/BufferStream.cpp, which derives from it and is one class with it here. The contents are stated
 as a sequence; read as a stream, the bytes come out as they were written. Whether the heap has the memory asked for is
 a parameter of each operation that may ask.
 */
module ByteBuffers {
  import opened Util

  /** Lengths stay below the range of `int`. */
  const MAX_LENGTH: nat := 0x7fff_fff8

  /** `_alignSize`: the next multiple of 8. */
  function Align(size: nat): (aligned: nat)
    ensures size <= aligned < size + 8 && aligned % 8 == 0
  {
    (size + 7) / 8 * 8
  }

  /** What is left when bytes are removed; a range is cut at the end. */
  function Splice(s: seq<byte>, index: nat, count: nat): seq<byte> {
    if index >= |s| then s else s[..index] + s[Min(index + count, |s|)..]
  }

  /** What is in front of a removed range stays, and what is behind it moves up. */
  lemma SpliceAt(s: seq<byte>, index: nat, count: nat, i: nat)
    requires i < |Splice(s, index, count)|
    ensures |Splice(s, index, count)| ==
            if index + count <= |s| then |s| - count else if index < |s| then index else |s|
    ensures Splice(s, index, count)[i] == if i < index then s[i] else s[i + count]
  {
  }

  class BufferStream {
    var buffer: array?<byte>
    var length: nat
    var size: nat
    var position: nat

    ghost predicate Valid()
      reads this
    {
      && size % 8 == 0 && length <= size && length <= MAX_LENGTH && position <= MAX_LENGTH
      && (if buffer == null then size == 0 else buffer.Length == size)
    }

    ghost function Contents(): (contents: seq<byte>)
      requires Valid()
      reads this, buffer
      ensures |contents| == length
    {
      if buffer == null then [] else buffer[..length]
    }

    constructor ()
      ensures Valid() && Contents() == [] && position == 0 && buffer == null
    {
      buffer, length, size, position := null, 0, 0, 0;
    }

    /** Sets the capacity. The first bytes are kept; when there is no memory, nothing is. */
    method ChangeBuffer(newSize: nat, granted: bool) returns (ok: bool)
      requires Valid()
      modifies `buffer, `length, `size
      ensures Valid() && (buffer != null && buffer != old(buffer) ==> fresh(buffer))
      ensures ok == (granted || Align(newSize) == old(size) || Align(newSize) == 0)
      ensures ok ==> size == Align(newSize) && Contents() == old(Contents())[..Min(old(length), size)]
      ensures !ok ==> buffer == null && size == 0 && length == 0
      ensures newSize <= old(size) && Align(newSize) == old(size) ==> buffer == old(buffer)
    {
      if Align(newSize) != size {
        size := Align(newSize);
        if size == 0 {
          buffer := null;
        } else {
          if !granted {
            buffer, size, length := null, 0, 0;
            return false;
          }
          var memory := new byte[size];
          if buffer != null {
            CopyBytes(buffer, memory, Min(length, size));
          }
          buffer := memory;
        }
      }
      if length > size {
        length := size;
      }
      return true;
    }

    static method CopyBytes(source: array<byte>, target: array<byte>, n: nat)
      requires source != target && n <= source.Length && n <= target.Length
      modifies target
      ensures target[..n] == source[..n]
    {
      for i := 0 to n
        invariant target[..i] == source[..i]
      {
        target[i] := source[i];
      }
    }

    method Reserve(newSize: nat, granted: bool) returns (ok: bool)
      requires Valid()
      modifies `buffer, `length, `size
      ensures Valid() && (buffer != null && buffer != old(buffer) ==> fresh(buffer))
      ensures ok == (newSize <= old(size) || granted)
      ensures ok ==> Contents() == old(Contents()) && newSize <= size
      ensures ok ==> size == if newSize > old(size) then Align(newSize) else old(size)
      ensures !ok ==> buffer == null && size == 0 && length == 0
    {
      ok := true;
      if newSize > size {
        ok := ChangeBuffer(newSize, granted);
      }
    }

    /** Cuts the capacity to a size, or to the length. */
    method Shrink(newSize: nat, granted: bool) returns (ok: bool)
      requires Valid()
      modifies `buffer, `length, `size
      ensures Valid()
      ensures var wanted := Align(if newSize == 0 then old(length) else newSize);
              ok == (granted || wanted == old(size) || wanted == 0) &&
              (ok ==> size == wanted && Contents() == old(Contents())[..Min(old(length), wanted)])
      ensures !ok ==> buffer == null && size == 0 && Contents() == []
    {
      var wanted := if newSize == 0 then length else newSize;
      ok := ChangeBuffer(wanted, granted);
      if !ok {
        buffer, size, length := null, 0, 0;
      }
    }

    /** Appends; when there is no memory for more, all is lost. */
    method Write(data: seq<byte>, granted: bool) returns (written: nat)
      requires Valid() && length + |data| <= MAX_LENGTH
      modifies `buffer, `length, `size, buffer
      ensures Valid() && (buffer != null && buffer != old(buffer) ==> fresh(buffer))
      ensures written == if old(length) + |data| <= old(size) || granted then |data| else 0
      ensures old(length) + |data| <= old(size) || granted ==> Contents() == old(Contents()) + data
      ensures !(old(length) + |data| <= old(size) || granted) ==> buffer == null && Contents() == []
      ensures size == if old(length) + |data| <= old(size) then old(size)
                      else if granted then Align(old(length) + |data|) else 0
    {
      var ok := Reserve(length + |data|, granted);
      if !ok {
        return 0;
      }
      if buffer == null {
        return 0;
      }
      PutBytes(data);
      return |data|;
    }

    method PutBytes(data: seq<byte>)
      requires Valid() && buffer != null && length + |data| <= size && length + |data| <= MAX_LENGTH
      modifies `length, buffer
      ensures Valid() && Contents() == old(Contents()) + data
    {
      for i := 0 to |data|
        modifies buffer
        invariant buffer[..length] == old(buffer[..length]) && buffer[length..length + i] == data[..i]
      {
        buffer[length + i] := data[i];
      }
      assert buffer[..length + |data|] == buffer[..length] + buffer[length..length + |data|];
      assert data[..|data|] == data;
      length := length + |data|;
    }

    /** Removes bytes; those behind move up. */
    method Remove(index: nat, count: nat)
      requires Valid()
      modifies `length, buffer
      ensures Valid() && Contents() == Splice(old(Contents()), index, count)
    {
      if index >= length {
        return;
      }
      if count == 0 {
        assert buffer[..length] == buffer[..length][..index] + buffer[..length][index..];
        return;
      }
      var n := if count > length - index then length - index else count;
      MoveUp(index, n);
    }

    method MoveUp(index: nat, count: nat)
      requires Valid() && buffer != null && 0 < count && index + count <= length
      modifies `length, buffer
      ensures Valid() && length == old(length) - count
      ensures Contents() == old(Contents()[..index] + Contents()[index + count..])
    {
      ghost var before := buffer[..length];
      var rest := length - count;
      for i := index to rest
        modifies buffer
        invariant buffer[..i] == before[..index] + before[index + count..i + count]
        invariant forall k :: i + count <= k < length ==> buffer[k] == before[k]
      {
        buffer[i] := buffer[i + count];
      }
      length := rest;
    }

    method RemoveAndShrink(index: nat, count: nat, minFree: nat, granted: bool)
      requires Valid()
      modifies `buffer, `length, `size, buffer
      ensures Valid()
      ensures var left := Splice(old(Contents()), index, count);
              var wanted := if |left| + minFree < old(size) then Align(|left|) else old(size);
              if granted || wanted == old(size) || wanted == 0 then Contents() == left && size == wanted
              else Contents() == [] && size == 0
    {
      Remove(index, count);
      if length + minFree < size {
        ghost var left := Contents();
        var ok := Shrink(length, granted);
        assert left[..|left|] == left;
      }
    }

    /** The bytes of another buffer of the same capacity. */
    method TakeOver(source: BufferStream, n: nat)
      requires Valid() && source.Valid() && source != this && n == source.length && size == source.size
      requires source.buffer == null || source.buffer != buffer
      modifies `length, buffer
      ensures Valid() && Contents() == old(source.Contents())
    {
      length := n;
      if buffer != null && source.buffer != null {
        CopyBytes(source.buffer, buffer, n);
      }
    }

    /** Copy assignment of the buffer; the position stays. */
    method Assign(source: BufferStream, granted: bool)
      requires Valid() && source.Valid() && (source == this || source.buffer == null || source.buffer != buffer)
      modifies `buffer, `length, `size, buffer
      ensures Valid() && (granted || source.size == old(size) || source.size == 0 ==>
                Contents() == old(source.Contents()) && size == old(source.size))
      ensures !(granted || source.size == old(size) || source.size == 0) ==> Contents() == []
    {
      if source == this {
        return;
      }
      ghost var wanted := source.Contents();
      var n := source.length;
      length := Min(n, size);
      var ok := ChangeBuffer(source.size, granted);
      if ok {
        TakeOver(source, n);
      } else {
        buffer, size, length := null, 0, 0;
      }
    }

    method Clear()
      modifies `buffer, `length, `size, `position
      ensures Valid() && Contents() == [] && position == 0
    {
      buffer, length, size, position := null, 0, 0, 0;
    }

    method Reset()
      requires Valid()
      modifies `length, `position
      ensures Valid() && Contents() == [] && position == 0 && size == old(size)
    {
      length, position := 0, 0;
    }

    // -------------------------------------------------------------- the stream

    ghost function Unread(): seq<byte>
      requires Valid()
      reads this, buffer
    {
      Contents()[Min(position, length)..]
    }

    function Available(): (n: nat)
      requires Valid()
      reads this, buffer
      ensures n == |Unread()|
    {
      if length > position then length - position else 0
    }

    method ReadBytes(target: array<byte>) returns (n: nat)
      requires Valid() && target != buffer
      modifies `position, target
      ensures Valid() && n == Min(old(Available()), target.Length)
      ensures old(Unread()) == target[..n] + Unread()
      ensures target[n..] == old(target[n..]) && position == old(position) + n
    {
      n := 0;
      ghost var unread := Unread();
      if Available() > 0 {
        n := Min(Available(), target.Length);
        assert buffer != null;
        for i := 0 to n
          modifies target
          invariant target[..i] == unread[..i] && target[n..] == old(target[n..])
        {
          target[i] := buffer[position + i];
        }
        position := position + n;
      }
      assert unread == unread[..n] + unread[n..];
    }

    method Read() returns (value: int)
      requires Valid()
      modifies `position
      ensures Valid()
      ensures if |old(Unread())| == 0 then value == -1 && position == old(position)
              else position == old(position) + 1 && old(Unread()) == [value] + Unread()
    {
      if Available() > 0 {
        value := buffer[position];
        position := position + 1;
      } else {
        value := -1;
      }
    }

    method Peek() returns (value: int)
      requires Valid()
      ensures value == if |Unread()| == 0 then -1 else Unread()[0]
    {
      if Available() > 0 {
        value := buffer[position];
      } else {
        value := -1;
      }
    }

    /** A position outside of the contents is refused; from the end, the end itself is not. */
    method Seek(pos: int, mode: SeekMode) returns (ok: bool)
      requires Valid() && -0x8000_0000 <= pos < 0x8000_0000
      modifies `position
      ensures Valid()
      ensures var target := SeekTarget(pos, mode, old(position), length);
              ok == (0 <= target < length || (mode == SEEK_END && target == length)) &&
              position == if ok then target else old(position)
    {
      match mode {
        case SEEK_SET =>
          if Cut(pos) >= length {
            return false;
          }
          position := Cut(pos);
        case SEEK_CUR =>
          if Cut(position + pos) >= length {
            return false;
          }
          position := Cut(position + pos);
        case SEEK_END =>
          if Cut(pos) > length {
            return false;
          }
          position := length - Cut(pos);
      }
      return true;
    }
  }

  datatype SeekMode = SEEK_SET | SEEK_CUR | SEEK_END

  function SeekTarget(pos: int, mode: SeekMode, position: nat, length: nat): int {
    match mode
    case SEEK_SET => pos
    case SEEK_CUR => position + pos
    case SEEK_END => length - pos
  }

  /** `size_t` has 32 bits. */
  function Cut(x: int): nat { x % 0x1_0000_0000 }

  // ---------------------------------------------------------------- runs

  datatype Op = WriteOp(data: seq<byte>) | ReadOp(n: nat)

  function Written(ops: seq<Op>): seq<byte> {
    if |ops| == 0 then []
    else
      var before := Written(ops[..|ops| - 1]);
      match ops[|ops| - 1]
      case WriteOp(data) => before + data
      case ReadOp(_) => before
  }

  /** How many bytes the reads got: as many as asked for, as far as there were any. */
  function Consumed(ops: seq<Op>): (n: nat)
    ensures n <= |Written(ops)|
  {
    if |ops| == 0 then 0
    else
      var before := ops[..|ops| - 1];
      match ops[|ops| - 1]
      case WriteOp(_) => Consumed(before)
      case ReadOp(n) => Consumed(before) + Min(n, |Written(before)| - Consumed(before))
  }

  lemma {:induction false} WrittenGrows(ops: seq<Op>, i: nat)
    requires i <= |ops|
    ensures |Written(ops[..i])| <= |Written(ops)|
  {
    if i < |ops| {
      WrittenGrows(ops[..|ops| - 1], i);
      assert ops[..|ops| - 1][..i] == ops[..i];
    } else {
      assert ops[..i] == ops;
    }
  }

  /** The bytes come out in the order they were written, whatever the sizes of the writes and reads. */
  method RunFifo(ops: seq<Op>) returns (consumed: seq<byte>, unread: seq<byte>)
    requires |Written(ops)| <= MAX_LENGTH
    ensures consumed + unread == Written(ops) && |consumed| == Consumed(ops)
  {
    var stream := new BufferStream();
    consumed := [];
    ghost var written: seq<byte>, taken: nat := [], 0;
    for i := 0 to |ops|
      invariant fresh(stream) && stream.Valid() && (stream.buffer != null ==> fresh(stream.buffer))
      invariant written == Written(ops[..i]) && taken == Consumed(ops[..i])
      invariant stream.length == |written| && stream.position == taken == |consumed|
      invariant consumed + stream.Unread() == written
    {
      NextOp(ops, i);
      consumed := Apply(stream, ops[i], consumed, written);
      if ops[i].WriteOp? {
        written := written + ops[i].data;
      } else {
        taken := taken + Min(ops[i].n, |written| - taken);
      }
    }
    assert ops[..|ops|] == ops;
    unread := Drain(stream, consumed);
  }

  lemma NextOp(ops: seq<Op>, i: nat)
    requires i < |ops|
    ensures |Written(ops[..i + 1])| <= |Written(ops)|
    ensures Written(ops[..i + 1]) ==
            if ops[i].WriteOp? then Written(ops[..i]) + ops[i].data else Written(ops[..i])
    ensures Consumed(ops[..i + 1]) ==
            Consumed(ops[..i]) + if ops[i].ReadOp? then Min(ops[i].n, |Written(ops[..i])| - Consumed(ops[..i])) else 0
  {
    WrittenGrows(ops, i + 1);
    assert ops[..i + 1][..i] == ops[..i];
  }

  method Drain(stream: BufferStream, ghost consumed: seq<byte>) returns (rest: seq<byte>)
    requires stream.Valid() && stream.position <= stream.length
    modifies stream`position
    ensures rest == old(stream.Unread())
  {
    rest := Consume(stream, stream.Available(), []);
    NothingAdded(rest);
    NothingAdded(old(stream.Unread()));
  }

  method Apply(stream: BufferStream, op: Op, consumed: seq<byte>, ghost written: seq<byte>) returns (more: seq<byte>)
    requires stream.Valid() && stream.position == |consumed| && stream.length == |written|
    requires consumed + stream.Unread() == written
    requires op.WriteOp? ==> |written| + |op.data| <= MAX_LENGTH
    modifies stream, stream.buffer
    ensures stream.Valid() && (stream.buffer != null && stream.buffer != old(stream.buffer) ==> fresh(stream.buffer))
    ensures var all := if op.WriteOp? then written + op.data else written;
            more + stream.Unread() == all && stream.length == |all|
    ensures stream.position == |more| ==
            |consumed| + if op.ReadOp? then Min(op.n, |written| - |consumed|) else 0
  {
    match op {
      case WriteOp(data) =>
        Assoc(consumed, stream.Unread(), data);
        Produce(stream, data);
        more := consumed;
      case ReadOp(n) => more := Consume(stream, n, consumed);
    }
  }

  method Produce(stream: BufferStream, data: seq<byte>)
    requires stream.Valid() && stream.position <= stream.length && stream.length + |data| <= MAX_LENGTH
    modifies stream, stream.buffer
    ensures stream.Valid() && (stream.buffer != null && stream.buffer != old(stream.buffer) ==> fresh(stream.buffer))
    ensures stream.position == old(stream.position) && stream.length == old(stream.length) + |data|
    ensures stream.Unread() == old(stream.Unread()) + data
  {
    ghost var contents := stream.Contents();
    var written := stream.Write(data, true);
    UnreadAppended(contents, stream.position, data);
  }

  method Consume(stream: BufferStream, n: nat, consumed: seq<byte>) returns (more: seq<byte>)
    requires stream.Valid() && stream.position <= stream.length
    modifies stream`position
    ensures stream.Valid() && |more| == |consumed| + Min(n, old(stream.Available())) && consumed <= more
    ensures stream.position == old(stream.position) + Min(n, old(stream.Available()))
    ensures more + stream.Unread() == consumed + old(stream.Unread())
  {
    var target := new byte[n];
    var read := stream.ReadBytes(target);
    Assoc(consumed, target[..read], stream.Unread());
    more := consumed + target[..read];
  }

  lemma UnreadAppended(s: seq<byte>, position: nat, data: seq<byte>)
    requires position <= |s|
    ensures (s + data)[Min(position, |s + data|)..] == s[Min(position, |s|)..] + data
  {
  }

  /**
   The position outlives contents lost for want of memory: bytes written after that are all found exactly when it was
   at the start, or when there are none.
   */
  method WriteAfterLoss(stream: BufferStream, lost: seq<byte>, next: seq<byte>)
    requires stream.Valid() && stream.length + |lost| <= MAX_LENGTH && |next| <= MAX_LENGTH
    requires stream.length + |lost| > stream.size
    modifies stream, stream.buffer
    ensures stream.Valid() && stream.Contents() == next
    ensures stream.Unread() == next <==> old(stream.position) == 0 || |next| == 0
  {
    var written := stream.Write(lost, false);
    written := stream.Write(next, true);
    NothingAdded(next);
    assert next[0..] == next;
  }
}
