/**
 The list of Home Assistant actions and the binary form it is stored in: `getActions`, `setActions` and `getAction` of
 src/kfc_fw_config_classes.cpp. Storing and reading back is shown to be the identity exactly when the lengths fit their
 fields, and reading is characterised for every sequence of bytes.
 */
module ActionBlobs {
  import opened Util
  import opened Configuration

  type int32 = x: int | -0x8000_0000 <= x < 0x8000_0000

  /** `Action`; the entity id is a string of octets. */
  datatype Action = Action(id: uint16, action: byte, values: seq<int32>, entityId: seq<byte>)

  /** sizeof(ActionHeader_t), packed. */
  const HEADER_SIZE: nat := 5

  // ---------------------------------------------------------------- 32-bit values, low byte first

  function Word(v: int32): nat { if v < 0 then v as int + 0x1_0000_0000 else v }

  function Int32Bytes(v: int32): (bytes: seq<byte>)
    ensures |bytes| == 4
  {
    var w := Word(v);
    var w1 := w / 0x100;
    var w2 := w1 / 0x100;
    [w % 0x100, w1 % 0x100, w2 % 0x100, w2 / 0x100]
  }

  function Int32Of(b0: byte, b1: byte, b2: byte, b3: byte): int32 {
    var w2 := b2 as int + 0x100 * b3 as int;
    var w1 := b1 as int + 0x100 * w2;
    var w := b0 as int + 0x100 * w1;
    if w >= 0x8000_0000 then w - 0x1_0000_0000 else w
  }

  lemma Int32RoundTrip(v: int32)
    ensures var b := Int32Bytes(v); Int32Of(b[0], b[1], b[2], b[3]) == v
  {
    var w := Word(v);
    assert w == w % 0x100 + 0x100 * (w / 0x100);
  }

  /** The bytes are those of the two's complement, lowest first. */
  lemma LowestByteFirst(v: int32)
    ensures var b := Int32Bytes(v);
            b[0] as int + 0x100 * b[1] as int + 0x1_0000 * b[2] as int + 0x100_0000 * b[3] as int
            == if v < 0 then v as int + 0x1_0000_0000 else v as int
  {
    var w := Word(v);
    var w1 := w / 0x100;
    var w2 := w1 / 0x100;
    assert w == 0x100 * w1 + w % 0x100 && w1 == 0x100 * w2 + w1 % 0x100 && w2 == 0x100 * (w2 / 0x100) + w2 % 0x100;
  }

  lemma Int32BytesOf(b0: byte, b1: byte, b2: byte, b3: byte)
    ensures Int32Bytes(Int32Of(b0, b1, b2, b3)) == [b0, b1, b2, b3]
  {
    var w2 := b2 as int + 0x100 * b3 as int;
    var w1 := b1 as int + 0x100 * w2;
    LowByte(b0, w1);
    LowByte(b1, w2);
    LowByte(b2, b3);
  }

  lemma LowByte(b: byte, w: nat)
    ensures (b as int + 0x100 * w) % 0x100 == b && (b as int + 0x100 * w) / 0x100 == w
  {
  }

  function ValueBytes(values: seq<int32>): (bytes: seq<byte>)
    ensures |bytes| == 4 * |values|
  {
    if |values| == 0 then [] else Int32Bytes(values[0]) + ValueBytes(values[1..])
  }

  /** n values from an offset on, as `memcpy` takes them. */
  function ValuesAt(data: seq<byte>, pos: nat, n: nat): (values: seq<int32>)
    requires pos + 4 * n <= |data|
    ensures |values| == n
    decreases n
  {
    if n == 0 then []
    else [Int32Of(data[pos], data[pos + 1], data[pos + 2], data[pos + 3])] + ValuesAt(data, pos + 4, n - 1)
  }

  lemma {:induction false} ValuesOfBytes(data: seq<byte>, pos: nat, values: seq<int32>)
    requires At(data, pos, ValueBytes(values))
    ensures ValuesAt(data, pos, |values|) == values
    decreases |values|
  {
    if |values| > 0 {
      var first := Int32Bytes(values[0]);
      AtConcat(data, pos, first, ValueBytes(values[1..]));
      assert data[pos + 0] == first[0] && data[pos + 1] == first[1];
      assert data[pos + 2] == first[2] && data[pos + 3] == first[3];
      Int32RoundTrip(values[0]);
      ValuesOfBytes(data, pos + 4, values[1..]);
    }
  }

  lemma {:induction false} BytesOfValues(data: seq<byte>, pos: nat, n: nat)
    requires pos + 4 * n <= |data|
    ensures At(data, pos, ValueBytes(ValuesAt(data, pos, n)))
    decreases n
  {
    if n > 0 {
      var values := ValuesAt(data, pos, n);
      Int32BytesOf(data[pos], data[pos + 1], data[pos + 2], data[pos + 3]);
      assert values[1..] == ValuesAt(data, pos + 4, n - 1);
      BytesOfValues(data, pos + 4, n - 1);
      AtConcat(data, pos, Int32Bytes(values[0]), ValueBytes(values[1..]));
    }
  }

  // ---------------------------------------------------------------- writing

  /** The header; the lengths have 8 bits. */
  function Header(a: Action): (bytes: seq<byte>)
    ensures |bytes| == HEADER_SIZE
  {
    [a.id % 0x100, a.id / 0x100, a.action, |a.values| % 0x100, |a.entityId| % 0x100]
  }

  function Encode(a: Action): (bytes: seq<byte>)
    ensures |bytes| == HEADER_SIZE + |a.entityId| + 4 * |a.values|
  {
    Header(a) + (a.entityId + ValueBytes(a.values))
  }

  function EncodeAll(actions: seq<Action>): seq<byte> {
    if |actions| == 0 then [] else Encode(actions[0]) + EncodeAll(actions[1..])
  }

  /** `action.getId() && header.entityLen`, the latter in 8 bits. */
  predicate IsKept(a: Action) {
    a.id != 0 && |a.entityId| % 0x100 != 0
  }

  function Kept(actions: seq<Action>): seq<Action> {
    if |actions| == 0 then []
    else if IsKept(actions[0]) then [actions[0]] + Kept(actions[1..])
    else Kept(actions[1..])
  }

  /** Left out are the actions without an id, and those whose entity has a length of 0 in 8 bits. */
  lemma {:induction false} KeptExactly(actions: seq<Action>, a: Action)
    ensures a in Kept(actions) <==> a in actions && a.id != 0 && |a.entityId| % 0x100 != 0
  {
    if |actions| > 0 {
      KeptExactly(actions[1..], a);
      assert actions == [actions[0]] + actions[1..];
    }
  }

  lemma {:induction false} EncodeAllConcat(a: seq<Action>, b: seq<Action>)
    ensures EncodeAll(a + b) == EncodeAll(a) + EncodeAll(b)
  {
    if |a| == 0 {
      NothingAdded(b);
      NothingAdded(EncodeAll(b));
    } else {
      EncodeAllConcat(a[1..], b);
      assert (a + b)[1..] == a[1..] + b;
      Assoc(Encode(a[0]), EncodeAll(a[1..]), EncodeAll(b));
    }
  }

  lemma {:induction false} KeptConcat(a: seq<Action>, b: seq<Action>)
    ensures Kept(a + b) == Kept(a) + Kept(b)
  {
    if |a| == 0 {
      NothingAdded(b);
      NothingAdded(Kept(b));
    } else {
      KeptConcat(a[1..], b);
      assert (a + b)[1..] == a[1..] + b;
      Assoc([a[0]], Kept(a[1..]), Kept(b));
    }
  }

  /** One more action written to the buffer, or left out. */
  lemma WriteNext(actions: seq<Action>, a: Action)
    ensures EncodeAll(Kept(actions + [a])) ==
            if IsKept(a) then EncodeAll(Kept(actions)) + Encode(a) else EncodeAll(Kept(actions))
  {
    KeptConcat(actions, [a]);
    if IsKept(a) {
      assert Kept([a]) == [a] + Kept([]) == [a];
      EncodeAllConcat(Kept(actions), [a]);
      assert EncodeAll([a]) == Encode(a) + EncodeAll([]);
      NothingAdded(Encode(a));
    } else {
      NothingAdded(Kept(actions));
    }
  }

  // ---------------------------------------------------------------- reading

  /** Where the record at `pos` ends. */
  function RecordEnd(data: seq<byte>, pos: nat): (end: nat)
    requires pos + HEADER_SIZE <= |data|
    ensures pos + HEADER_SIZE <= end
  {
    pos + HEADER_SIZE + data[pos + 4] as nat + 4 * data[pos + 3] as nat
  }

  predicate HasRecord(data: seq<byte>, pos: nat) {
    pos + HEADER_SIZE <= |data| && RecordEnd(data, pos) <= |data|
  }

  function ActionAt(data: seq<byte>, pos: nat): (a: Action)
    requires HasRecord(data, pos)
    ensures |a.entityId| == data[pos + 4] as nat && |a.values| == data[pos + 3] as nat
  {
    var entity := pos + HEADER_SIZE;
    var values := entity + data[pos + 4] as nat;
    Action(data[pos] as nat + data[pos + 1] as nat * 0x100, data[pos + 2], ValuesAt(data, values, data[pos + 3]),
           data[entity..values])
  }

  /** The records from `pos` on, up to the first that is not complete. */
  function ActionsAt(data: seq<byte>, pos: nat): seq<Action>
    decreases |data| - pos
  {
    if HasRecord(data, pos) then [ActionAt(data, pos)] + ActionsAt(data, RecordEnd(data, pos)) else []
  }

  /** Where that record starts. */
  function ActionsEnd(data: seq<byte>, pos: nat): (end: nat)
    requires pos <= |data|
    ensures pos <= end <= |data|
    decreases |data| - pos
  {
    if HasRecord(data, pos) then ActionsEnd(data, RecordEnd(data, pos)) else pos
  }

  class HomeAssistant {
    var actions: BinaryParameter

    constructor ()
      ensures fresh(actions) && actions.data == []
    {
      actions := new BinaryParameter();
    }

    /** Adds the stored actions to a list. */
    method GetActions(list: seq<Action>) returns (all: seq<Action>)
      ensures all == list + ActionsAt(actions.data, 0)
    {
      var data := actions.GetBinary();
      all := list;
      var ptr, end := 0, |data|;
      while ptr + HEADER_SIZE <= end
        invariant ptr <= end
        invariant list + ActionsAt(data, 0) == all + ActionsAt(data, ptr)
      {
        var valuesLen := data[ptr + 3] as nat * 4;
        if ptr + HEADER_SIZE + data[ptr + 4] as nat + valuesLen > end {
          NothingAdded(all);
          return;
        }
        var action;
        action, ptr := ReadAction(data, ptr);
        Assoc(all, [action], ActionsAt(data, ptr));
        all := all + [action];
      }
      NothingAdded(all);
    }

    /** The record at `start`: header, entity and values. */
    static method ReadAction(data: seq<byte>, start: nat) returns (action: Action, ptr: nat)
      requires HasRecord(data, start)
      ensures action == ActionAt(data, start) && ptr == RecordEnd(data, start)
    {
      ptr := start + HEADER_SIZE;
      var str := data[ptr..ptr + data[start + 4] as nat];
      ptr := ptr + data[start + 4] as nat;
      var values := ValuesAt(data, ptr, data[start + 3]);
      ptr := ptr + data[start + 3] as nat * 4;
      action := Action(data[start] as nat + data[start + 1] as nat * 0x100, data[start + 2], values, str);
    }

    /** Stores the actions that have an id and an entity. */
    method SetActions(list: seq<Action>)
      modifies actions
      ensures actions.data == Stored(EncodeAll(Kept(list)))
    {
      var buffer: seq<byte> := [];
      for i := 0 to |list|
        invariant buffer == EncodeAll(Kept(list[..i]))
      {
        var action := list[i];
        var entityLen := |action.entityId| % 0x100;
        assert list[..i + 1] == list[..i] + [action];
        WriteNext(list[..i], action);
        if action.id != 0 && entityLen != 0 {
          buffer := buffer + (Header(action) + (action.entityId + ValueBytes(action.values)));
        }
      }
      assert list[..|list|] == list;
      actions.SetBinary(buffer, |buffer| % 0x1_0000);
    }

    /** The first stored action with the id. */
    method GetAction(id: uint16) returns (found: Option<Action>)
      ensures found == First(ActionsAt(actions.data, 0), id)
      ensures IsFirst(ActionsAt(actions.data, 0), id, found)
    {
      var list := GetActions([]);
      NothingAdded(ActionsAt(actions.data, 0));
      FirstIsFirst(list, id);
      for i := 0 to |list|
        invariant First(list, id) == First(list[i..], id)
      {
        assert list[i..][1..] == list[i + 1..];
        if id == list[i].id {
          return Some(list[i]);
        }
      }
      return None;
    }
  }

  function First(actions: seq<Action>, id: uint16): Option<Action> {
    if |actions| == 0 then None else if actions[0].id == id then Some(actions[0]) else First(actions[1..], id)
  }

  /** The element with the id and none with it in front, or that there is none at all. */
  ghost predicate IsFirst(actions: seq<Action>, id: uint16, found: Option<Action>) {
    match found
    case None => forall a :: a in actions ==> a.id != id
    case Some(a) => exists i :: 0 <= i < |actions| && actions[i] == a && a.id == id && NoneBefore(actions, id, i)
  }

  ghost predicate NoneBefore(actions: seq<Action>, id: uint16, i: nat) {
    i <= |actions| && forall a :: a in actions[..i] ==> a.id != id
  }

  lemma {:induction false} FirstIsFirst(actions: seq<Action>, id: uint16)
    ensures IsFirst(actions, id, First(actions, id))
  {
    if |actions| > 0 {
      if actions[0].id == id {
        assert NoneBefore(actions, id, 0);
      } else {
        FirstIsFirst(actions[1..], id);
        if First(actions, id).Some? {
          var rest, found := actions[1..], First(actions, id).value;
          var i :| 0 <= i < |rest| && rest[i] == found && NoneBefore(rest, id, i);
          assert actions[..i + 1] == [actions[0]] + actions[1..][..i];
          assert NoneBefore(actions, id, i + 1) && actions[i + 1] == actions[1..][i];
        } else {
          assert actions == [actions[0]] + actions[1..];
        }
      }
    }
  }

  // ---------------------------------------------------------------- round trip

  predicate Fits(a: Action) {
    |a.entityId| <= 0xff && |a.values| <= 0xff
  }

  /** The actions meant to be stored. */
  predicate IsMeant(a: Action) {
    a.id != 0 && |a.entityId| > 0
  }

  function Meant(actions: seq<Action>): seq<Action> {
    if |actions| == 0 then []
    else if IsMeant(actions[0]) then [actions[0]] + Meant(actions[1..])
    else Meant(actions[1..])
  }

  predicate AllFit(actions: seq<Action>) {
    |actions| == 0 || (Fits(actions[0]) && AllFit(actions[1..]))
  }

  lemma {:induction false} KeptIfFits(actions: seq<Action>)
    requires AllFit(Meant(actions))
    ensures Kept(actions) == Meant(actions)
  {
    if |actions| > 0 {
      if IsMeant(actions[0]) {
        assert Meant(actions)[1..] == Meant(actions[1..]);
      }
      KeptIfFits(actions[1..]);
    }
  }

  lemma HeaderOfBytes(data: seq<byte>, pos: nat, a: Action)
    requires Fits(a) && At(data, pos, Header(a))
    ensures pos + HEADER_SIZE <= |data|
    ensures data[pos] as nat + data[pos + 1] as nat * 0x100 == a.id && data[pos + 2] == a.action
    ensures data[pos + 3] as nat == |a.values| && data[pos + 4] as nat == |a.entityId|
  {
    var header := Header(a);
    assert data[pos + 0] == header[0] && data[pos + 1] == header[1] && data[pos + 2] == header[2];
    assert data[pos + 3] == header[3] && data[pos + 4] == header[4];
  }

  lemma BodyOfBytes(data: seq<byte>, pos: nat, a: Action)
    requires At(data, pos, a.entityId + ValueBytes(a.values))
    ensures pos + |a.entityId| + 4 * |a.values| <= |data|
    ensures data[pos..pos + |a.entityId|] == a.entityId
    ensures ValuesAt(data, pos + |a.entityId|, |a.values|) == a.values
  {
    AtConcat(data, pos, a.entityId, ValueBytes(a.values));
    ValuesOfBytes(data, pos + |a.entityId|, a.values);
  }

  /** What was written for an action whose lengths fit is read as the action. */
  lemma ActionOfBytes(data: seq<byte>, pos: nat, a: Action)
    requires Fits(a) && At(data, pos, Encode(a))
    ensures HasRecord(data, pos) && ActionAt(data, pos) == a && RecordEnd(data, pos) == pos + |Encode(a)|
  {
    AtConcat(data, pos, Header(a), a.entityId + ValueBytes(a.values));
    HeaderOfBytes(data, pos, a);
    BodyOfBytes(data, pos + HEADER_SIZE, a);
  }

  lemma FirstOfBytes(data: seq<byte>, pos: nat, a: Action) returns (next: nat)
    requires Fits(a) && At(data, pos, Encode(a))
    ensures next == pos + |Encode(a)| <= |data| && ActionsAt(data, pos) == [a] + ActionsAt(data, next)
  {
    ActionOfBytes(data, pos, a);
    next := pos + |Encode(a)|;
  }

  lemma SplitFirst(data: seq<byte>, pos: nat, actions: seq<Action>)
    requires |actions| > 0 && At(data, pos, EncodeAll(actions))
    ensures At(data, pos, Encode(actions[0])) && At(data, pos + |Encode(actions[0])|, EncodeAll(actions[1..]))
    ensures |EncodeAll(actions)| == |Encode(actions[0])| + |EncodeAll(actions[1..])|
  {
    AtConcat(data, pos, Encode(actions[0]), EncodeAll(actions[1..]));
  }

  lemma {:induction false} ActionsOfBytes(data: seq<byte>, pos: nat, actions: seq<Action>)
    requires AllFit(actions) && At(data, pos, EncodeAll(actions)) && |data| == pos + |EncodeAll(actions)|
    ensures ActionsAt(data, pos) == actions
    decreases |actions|
  {
    if |actions| > 0 {
      SplitFirst(data, pos, actions);
      var next := FirstOfBytes(data, pos, actions[0]);
      ActionsOfBytes(data, next, actions[1..]);
    }
  }

  /** Re-encoding a record gives its bytes. */
  lemma BytesOfAction(data: seq<byte>, pos: nat)
    requires HasRecord(data, pos)
    ensures Fits(ActionAt(data, pos)) && At(data, pos, Encode(ActionAt(data, pos)))
    ensures pos + |Encode(ActionAt(data, pos))| == RecordEnd(data, pos)
  {
    var a, entity := ActionAt(data, pos), pos + HEADER_SIZE;
    var header := Header(a);
    assert header == [data[pos], data[pos + 1], data[pos + 2], data[pos + 3], data[pos + 4]];
    BytesOfValues(data, entity + |a.entityId|, |a.values|);
    AtConcat(data, entity, a.entityId, ValueBytes(a.values));
    AtConcat(data, pos, header, a.entityId + ValueBytes(a.values));
  }

  /** Reading any bytes gives actions that fit, and whose encoding is the part of the bytes that was read. */
  lemma {:induction false} BytesOfActions(data: seq<byte>, pos: nat)
    requires pos <= |data|
    ensures AllFit(ActionsAt(data, pos)) && At(data, pos, EncodeAll(ActionsAt(data, pos)))
    ensures pos + |EncodeAll(ActionsAt(data, pos))| == ActionsEnd(data, pos)
    decreases |data| - pos
  {
    if HasRecord(data, pos) {
      BytesOfAction(data, pos);
      BytesOfActions(data, RecordEnd(data, pos));
      assert ActionsAt(data, pos)[1..] == ActionsAt(data, RecordEnd(data, pos));
      AtConcat(data, pos, Encode(ActionAt(data, pos)), EncodeAll(ActionsAt(data, RecordEnd(data, pos))));
    }
  }

  /** What is read from any bytes, written again, gives a prefix of them, if every record has an id and an entity. */
  lemma ReadThenWrite(data: seq<byte>)
    requires Kept(ActionsAt(data, 0)) == ActionsAt(data, 0)
    ensures EncodeAll(Kept(ActionsAt(data, 0))) == data[..ActionsEnd(data, 0)]
  {
    BytesOfActions(data, 0);
    var bytes := EncodeAll(ActionsAt(data, 0));
    forall i | 0 <= i < |bytes| ensures bytes[i] == data[..|bytes|][i] {
      assert data[0 + i] == bytes[i];
    }
  }

  /** All actions meant to be stored are read back, and no others, exactly when every length fits its field. */
  lemma WriteThenRead(actions: seq<Action>)
    ensures ActionsAt(Stored(EncodeAll(Kept(actions))), 0) == Meant(actions)
            <==> AllFit(Meant(actions)) && |EncodeAll(Kept(actions))| <= 0xffff
  {
    var buffer := EncodeAll(Kept(actions));
    if AllFit(Meant(actions)) && |buffer| <= 0xffff {
      KeptIfFits(actions);
      assert Stored(buffer) == buffer;
      ActionsOfBytes(buffer, 0, Meant(actions));
    }
    if ActionsAt(Stored(buffer), 0) == Meant(actions) {
      BytesOfActions(Stored(buffer), 0);
      KeptIfFits(actions);
    }
  }

  lemma StoredComesBack(list: seq<Action>)
    requires AllFit(Meant(list)) && |EncodeAll(Meant(list))| <= 0xffff
    ensures ActionsAt(Stored(EncodeAll(Kept(list))), 0) == Meant(list)
  {
    KeptIfFits(list);
    WriteThenRead(list);
  }

  /** What is stored is found: the first of the actions meant with an id, when the lengths of all fit. */
  method StoreAndFind(assistant: HomeAssistant, list: seq<Action>, id: uint16) returns (found: Option<Action>)
    requires AllFit(Meant(list)) && |EncodeAll(Meant(list))| <= 0xffff
    modifies assistant.actions
    ensures IsFirst(Meant(list), id, found)
  {
    assistant.SetActions(list);
    StoredComesBack(list);
    found := assistant.GetAction(id);
  }
}
