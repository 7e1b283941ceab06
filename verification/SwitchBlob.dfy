/**
 Names and states of the switches of the IOTSwitch plugin and the binary form they are stored in: `getConfig` and
 `setConfig` of include/kfc_fw_config_classes.h, over arrays of as many switches as the plugin has.
 */
module SwitchBlobs {
  import opened Util
  import opened Configuration

  /** `Switch_t`, packed; strings are of octets. */
  datatype Switch = Switch(length: byte, state: byte)

  const SWITCH_SIZE: nat := 2

  const NO_SWITCH := Switch(0, 0)

  datatype Entry = Entry(name: seq<byte>, state: byte)

  function Encode(e: Entry): (bytes: seq<byte>)
    ensures |bytes| == SWITCH_SIZE + |e.name|
  {
    [|e.name| % 0x100, e.state] + e.name
  }

  function EncodeAll(entries: seq<Entry>): seq<byte> {
    if |entries| == 0 then [] else Encode(entries[0]) + EncodeAll(entries[1..])
  }

  lemma {:induction false} EncodeAllSnoc(entries: seq<Entry>, e: Entry)
    ensures EncodeAll(entries + [e]) == EncodeAll(entries) + Encode(e)
  {
    if |entries| == 0 {
      assert entries + [e] == [e] && [e][1..] == [];
      NothingAdded(Encode(e));
    } else {
      EncodeAllSnoc(entries[1..], e);
      assert (entries + [e])[1..] == entries[1..] + [e];
      Assoc(Encode(entries[0]), EncodeAll(entries[1..]), Encode(e));
    }
  }

  /** The switch that starts at `pos`; a name that is not complete is left empty. */
  function SwitchAt(data: seq<byte>, pos: nat): (Switch, seq<byte>)
    requires pos + SWITCH_SIZE <= |data|
  {
    var start := pos + SWITCH_SIZE;
    var end := start + data[pos] as nat;
    (Switch(data[pos], data[pos + 1]), if end <= |data| then data[start..end] else [])
  }

  /** What `n` switches read from `pos` on; those there is nothing left for keep the defaults. */
  function SwitchesAt(data: seq<byte>, pos: nat, n: nat): (switches: seq<(Switch, seq<byte>)>)
    ensures |switches| == n
    decreases n
  {
    if n == 0 then []
    else if pos + SWITCH_SIZE > |data| then [(NO_SWITCH, [])] + SwitchesAt(data, pos, n - 1)
    else [SwitchAt(data, pos)] + SwitchesAt(data, pos + SWITCH_SIZE + data[pos] as nat, n - 1)
  }

  function Configs(switches: seq<(Switch, seq<byte>)>): seq<Switch> {
    seq(|switches|, i requires 0 <= i < |switches| => switches[i].0)
  }

  function Names(switches: seq<(Switch, seq<byte>)>): seq<seq<byte>> {
    seq(|switches|, i requires 0 <= i < |switches| => switches[i].1)
  }

  method SetDefaults(names: array<seq<byte>>, configs: array<Switch>)
    requires names.Length == configs.Length
    modifies names, configs
    ensures forall i :: 0 <= i < names.Length ==> names[i] == [] && configs[i] == NO_SWITCH
  {
    for k := 0 to names.Length
      invariant forall i :: 0 <= i < k ==> names[i] == [] && configs[i] == NO_SWITCH
    {
      names[k], configs[k] := [], NO_SWITCH;
    }
  }

  method GetConfig(parameter: BinaryParameter, names: array<seq<byte>>, configs: array<Switch>)
    requires names.Length == configs.Length
    modifies names, configs
    ensures var switches := SwitchesAt(parameter.data, 0, names.Length);
            configs[..] == Configs(switches) && names[..] == Names(switches)
  {
    var n := names.Length;
    SetDefaults(names, configs);
    var data := parameter.GetBinary();
    var i, ptr := 0, 0;
    ghost var switches := SwitchesAt(data, 0, n);
    ghost var rest := switches;
    while ptr + SWITCH_SIZE <= |data| && i < n
      invariant i <= n && rest == SwitchesAt(data, ptr, n - i) && Rest(switches, i, rest)
      invariant forall j :: 0 <= j < i ==> configs[j] == switches[j].0 && names[j] == switches[j].1
      invariant forall j :: i <= j < n ==> configs[j] == NO_SWITCH && names[j] == []
    {
      ghost var first := SwitchAt(data, ptr);
      ptr := ReadSwitch(data, ptr, names, configs, i);
      rest := SwitchesAt(data, ptr, n - i - 1);
      RestNext(switches, i, first, rest);
      i := i + 1;
    }
    if i < n {
      NothingLeft(data, ptr, n - i);
    }
    forall j | i <= j < n ensures switches[j] == (NO_SWITCH, []) {
      assert switches[i + (j - i)] == rest[j - i];
    }
  }

  ghost predicate Rest<T>(all: seq<T>, i: nat, rest: seq<T>) {
    i + |rest| == |all| && forall k :: 0 <= k < |rest| ==> all[i + k] == rest[k]
  }

  lemma RestNext<T>(all: seq<T>, i: nat, x: T, rest: seq<T>)
    requires Rest(all, i, [x] + rest)
    ensures all[i] == x && Rest(all, i + 1, rest)
  {
    assert all[i + 0] == ([x] + rest)[0];
    forall k | 0 <= k < |rest| ensures all[i + 1 + k] == rest[k] {
      assert all[i + (k + 1)] == ([x] + rest)[k + 1];
    }
  }

  /** One turn of the loop: a header, and the name if it is complete. */
  method ReadSwitch(data: seq<byte>, start: nat, names: array<seq<byte>>, configs: array<Switch>, i: nat)
    returns (ptr: nat)
    requires start + SWITCH_SIZE <= |data| && i < names.Length == configs.Length && names[i] == []
    modifies names, configs
    ensures ptr == start + SWITCH_SIZE + data[start] as nat
    ensures configs[i] == SwitchAt(data, start).0 && names[i] == SwitchAt(data, start).1
    ensures forall j :: 0 <= j < names.Length && j != i ==> names[j] == old(names[j]) && configs[j] == old(configs[j])
  {
    configs[i] := Switch(data[start], data[start + 1]);
    ptr := start + SWITCH_SIZE;
    if ptr + configs[i].length as nat <= |data| {
      names[i] := data[ptr..ptr + configs[i].length as nat];
    }
    ptr := ptr + configs[i].length as nat;
  }

  lemma {:induction false} NothingLeft(data: seq<byte>, pos: nat, n: nat)
    requires pos + SWITCH_SIZE > |data|
    ensures forall j :: 0 <= j < n ==> SwitchesAt(data, pos, n)[j] == (NO_SWITCH, [])
    decreases n
  {
    if n > 0 {
      NothingLeft(data, pos, n - 1);
    }
  }

  function Entries(names: seq<seq<byte>>, states: seq<Switch>): (entries: seq<Entry>)
    requires |names| == |states|
    ensures |entries| == |names|
  {
    seq(|names|, i requires 0 <= i < |names| => Entry(names[i], states[i].state))
  }

  /** Stores the names and the states, and sets the lengths; a length has 8 bits. */
  method SetConfig(parameter: BinaryParameter, names: array<seq<byte>>, configs: array<Switch>)
    requires names.Length == configs.Length
    modifies parameter, configs
    ensures names[..] == old(names[..])
    ensures parameter.data == Stored(EncodeAll(Entries(old(names[..]), old(configs[..]))))
    ensures forall i :: 0 <= i < names.Length ==> configs[i] == Switch(|names[i]| % 0x100, old(configs[i]).state)
  {
    var buffer: seq<byte> := [];
    ghost var entries := Entries(names[..], configs[..]);
    for i := 0 to names.Length
      invariant names[..] == old(names[..])
      invariant forall j :: 0 <= j < i ==> configs[j] == Switch(|names[j]| % 0x100, old(configs[j]).state)
      invariant forall j :: i <= j < names.Length ==> configs[j] == old(configs[j])
      invariant buffer == EncodeAll(entries[..i])
    {
      configs[i] := Switch(|names[i]| % 0x100, configs[i].state);
      assert names[i] == names[..][i] && entries[..i + 1] == entries[..i] + [entries[i]];
      EncodeAllSnoc(entries[..i], entries[i]);
      buffer := buffer + ([configs[i].length as byte, configs[i].state] + names[i]);
    }
    assert entries[..names.Length] == entries;
    parameter.SetBinary(buffer, |buffer| % 0x1_0000);
  }

  // ---------------------------------------------------------------- round trip

  predicate AllFit(entries: seq<Entry>) {
    |entries| == 0 || (|entries[0].name| <= 0xff && AllFit(entries[1..]))
  }

  /** The switch that gives back an entry. */
  function AsSwitch(e: Entry): (Switch, seq<byte>) {
    (Switch(|e.name| % 0x100, e.state), e.name)
  }

  /** The switches that give back the entries. */
  function Expected(entries: seq<Entry>): (switches: seq<(Switch, seq<byte>)>)
    ensures |switches| == |entries|
  {
    if |entries| == 0 then []
    else [AsSwitch(entries[0])] + Expected(entries[1..])
  }

  /** A stored entry: length, state and name. */
  lemma BytesOfEntry(data: seq<byte>, pos: nat, e: Entry)
    requires At(data, pos, Encode(e))
    ensures pos + SWITCH_SIZE + |e.name| <= |data|
    ensures data[pos] == |e.name| % 0x100 && data[pos + 1] == e.state
    ensures data[pos + SWITCH_SIZE..pos + SWITCH_SIZE + |e.name|] == e.name
  {
    var config := [|e.name| % 0x100, e.state];
    AtConcat(data, pos, config, e.name);
    assert data[pos + 0] == config[0] && data[pos + 1] == config[1];
  }

  /** The first entry when it was stored as a whole. */
  lemma SwitchOfBytes(data: seq<byte>, pos: nat, e: Entry, n: nat)
    requires n > 0 && |e.name| <= 0xff && At(data, pos, Encode(e))
    ensures SwitchesAt(data, pos, n) == [AsSwitch(e)] + SwitchesAt(data, pos + |Encode(e)|, n - 1)
  {
    BytesOfEntry(data, pos, e);
    var end := pos + SWITCH_SIZE + |e.name|;
    assert SwitchAt(data, pos) == (Switch(data[pos], data[pos + 1]), data[pos + SWITCH_SIZE..end]);
  }

  lemma {:induction false} NamesRead(data: seq<byte>, pos: nat, n: nat)
    ensures forall i :: 0 <= i < n ==> |SwitchesAt(data, pos, n)[i].1| <= 0xff
    decreases n
  {
    if n > 0 {
      NamesRead(data, if pos + SWITCH_SIZE > |data| then pos else pos + SWITCH_SIZE + data[pos] as nat, n - 1);
    }
  }

  lemma {:induction false} AllFitIf(entries: seq<Entry>)
    requires forall i :: 0 <= i < |entries| ==> |entries[i].name| <= 0xff
    ensures AllFit(entries)
  {
    if |entries| > 0 {
      AllFitIf(entries[1..]);
    }
  }

  lemma {:induction false} ExpectedNames(entries: seq<Entry>)
    ensures forall i :: 0 <= i < |entries| ==> Expected(entries)[i].1 == entries[i].name
  {
    if |entries| > 0 {
      ExpectedNames(entries[1..]);
    }
  }

  /** No name and no state: what a switch has by default. */
  predicate Unset(entries: seq<Entry>) {
    |entries| == 0 || (entries[0] == Entry([], 0) && Unset(entries[1..]))
  }

  /** When only the first `room` bytes are stored, only headers without state of switches without name are lost. */
  predicate LosesNothing(entries: seq<Entry>, room: nat) {
    |entries| == 0
    || (if |Encode(entries[0])| <= room then LosesNothing(entries[1..], room - |Encode(entries[0])|)
        else room < SWITCH_SIZE && Unset(entries))
  }

  lemma {:induction false} LengthOfUnset(entries: seq<Entry>)
    requires Unset(entries)
    ensures |EncodeAll(entries)| == SWITCH_SIZE * |entries|
  {
    if |entries| > 0 {
      LengthOfUnset(entries[1..]);
    }
  }

  /** Then what is lost are headers; nothing is when there is room for all. */
  lemma {:induction false} LostAreHeaders(entries: seq<Entry>, room: nat)
    ensures LosesNothing(entries, room) ==> |EncodeAll(entries)| <= room + SWITCH_SIZE * |entries|
    ensures |EncodeAll(entries)| <= room ==> LosesNothing(entries, room)
  {
    if |entries| > 0 {
      if |Encode(entries[0])| <= room {
        LostAreHeaders(entries[1..], room - |Encode(entries[0])|);
      } else if Unset(entries) {
        LengthOfUnset(entries);
      }
    }
  }

  lemma {:induction false} DefaultsExactly(data: seq<byte>, pos: nat, entries: seq<Entry>)
    requires pos + SWITCH_SIZE > |data|
    ensures SwitchesAt(data, pos, |entries|) == Expected(entries) <==> Unset(entries)
    decreases |entries|
  {
    if |entries| > 0 {
      DefaultsExactly(data, pos, entries[1..]);
      SameBehindFirst((NO_SWITCH, []), AsSwitch(entries[0]),
                      SwitchesAt(data, pos, |entries| - 1), Expected(entries[1..]));
    }
  }

  lemma SameBehindFirst<T>(x: T, y: T, a: seq<T>, b: seq<T>)
    ensures [x] + a == [y] + b <==> x == y && a == b
  {
    assert ([x] + a)[0] == x && ([x] + a)[1..] == a;
    assert ([y] + b)[0] == y && ([y] + b)[1..] == b;
  }

  lemma AtPrefix(full: seq<byte>, end: nat, pos: nat, piece: seq<byte>)
    requires At(full, pos, piece) && pos + |piece| <= end <= |full|
    ensures At(full[..end], pos, piece)
  {
  }

  lemma RestOfBytes(full: seq<byte>, end: nat, pos: nat, entries: seq<Entry>)
    requires |entries| > 0 && At(full, pos, EncodeAll(entries)) && pos + |Encode(entries[0])| <= end <= |full|
    ensures At(full[..end], pos, Encode(entries[0]))
    ensures At(full, pos + |Encode(entries[0])|, EncodeAll(entries[1..]))
  {
    AtConcat(full, pos, Encode(entries[0]), EncodeAll(entries[1..]));
    AtPrefix(full, end, pos, Encode(entries[0]));
  }

  /** The first entry when it was stored as a whole, and what that leaves to be read. */
  lemma FirstIsStored(data: seq<byte>, pos: nat, e: Entry, n: nat, rest: seq<(Switch, seq<byte>)>)
    requires n > 0 && |e.name| <= 0xff && At(data, pos, Encode(e))
    ensures SwitchesAt(data, pos, n) == [AsSwitch(e)] + rest <==> SwitchesAt(data, pos + |Encode(e)|, n - 1) == rest
  {
    var others := SwitchesAt(data, pos + |Encode(e)|, n - 1);
    SwitchOfBytes(data, pos, e, n);
    SameBehindFirst(AsSwitch(e), AsSwitch(e), others, rest);
  }

  lemma StoredStep(read: seq<(Switch, seq<byte>)>, others: seq<(Switch, seq<byte>)>, entries: seq<Entry>, room: nat)
    requires |entries| > 0 && |Encode(entries[0])| <= room
    requires read == [AsSwitch(entries[0])] + Expected(entries[1..]) <==> others == Expected(entries[1..])
    requires others == Expected(entries[1..]) <==> LosesNothing(entries[1..], room - |Encode(entries[0])|)
    ensures read == Expected(entries) <==> LosesNothing(entries, room)
  {
  }

  lemma FirstIsCut(full: seq<byte>, end: nat, pos: nat, entries: seq<Entry>)
    requires |entries| > 0 && AllFit(entries) && At(full, pos, EncodeAll(entries))
    requires pos + SWITCH_SIZE <= end < pos + |Encode(entries[0])| && end <= |full|
    ensures SwitchesAt(full[..end], pos, |entries|) != Expected(entries)
  {
    AtConcat(full, pos, Encode(entries[0]), EncodeAll(entries[1..]));
    CutNameIsLost(full, end, pos, entries[0], |entries|);
    assert Expected(entries)[0].1 == entries[0].name;
  }

  lemma {:induction false} TruncatedExactly(full: seq<byte>, end: nat, pos: nat, entries: seq<Entry>)
    requires AllFit(entries) && At(full, pos, EncodeAll(entries)) && pos <= end <= |full|
    ensures SwitchesAt(full[..end], pos, |entries|) == Expected(entries) <==> LosesNothing(entries, end - pos)
    decreases |entries|
  {
    if |entries| > 0 {
      if pos + |Encode(entries[0])| <= end {
        var next := pos + |Encode(entries[0])|;
        RestOfBytes(full, end, pos, entries);
        TruncatedExactly(full, end, next, entries[1..]);
        FirstIsStored(full[..end], pos, entries[0], |entries|, Expected(entries[1..]));
        StoredStep(SwitchesAt(full[..end], pos, |entries|), SwitchesAt(full[..end], next, |entries| - 1), entries,
                   end - pos);
      } else if pos + SWITCH_SIZE > end {
        DefaultsExactly(full[..end], pos, entries);
      } else {
        FirstIsCut(full, end, pos, entries);
      }
    }
  }

  /** A name that was not stored to its end reads as an empty one. */
  lemma CutNameIsLost(full: seq<byte>, end: nat, pos: nat, e: Entry, n: nat)
    requires n > 0 && |e.name| <= 0xff && At(full, pos, Encode(e))
    requires pos + SWITCH_SIZE <= end < pos + |Encode(e)| && end <= |full|
    ensures |SwitchesAt(full[..end], pos, n)[0].1| == 0 < |e.name|
  {
    assert full[pos + 0] == Encode(e)[0];
  }

  /** Names and states come back exactly when every name fits its length and what is cut off would read the same. */
  lemma ComesBackExactly(entries: seq<Entry>)
    ensures SwitchesAt(Stored(EncodeAll(entries)), 0, |entries|) == Expected(entries)
            <==> AllFit(entries) && LosesNothing(entries, |EncodeAll(entries)| % 0x1_0000)
  {
    var buffer := EncodeAll(entries);
    if AllFit(entries) {
      TruncatedExactly(buffer, |buffer| % 0x1_0000, 0, entries);
    } else if SwitchesAt(Stored(buffer), 0, |entries|) == Expected(entries) {
      NamesRead(Stored(buffer), 0, |entries|);
      ExpectedNames(entries);
      AllFitIf(entries);
    }
  }

  lemma CutLength(n: nat)
    ensures if n <= 0xffff then n % 0x1_0000 == n else n % 0x1_0000 + 0x1_0000 <= n
  {
  }

  lemma FewLoseNothingExactly(entries: seq<Entry>, n: nat)
    requires |entries| < 0x8000 && n == |EncodeAll(entries)|
    ensures LosesNothing(entries, n % 0x1_0000) <==> n <= 0xffff
  {
    CutLength(n);
    LostAreHeaders(entries, n % 0x1_0000);
  }

  /** With less than 32768 switches, that is when every length fits its field. */
  lemma WriteThenRead(entries: seq<Entry>)
    requires |entries| < 0x8000
    ensures SwitchesAt(Stored(EncodeAll(entries)), 0, |entries|) == Expected(entries)
            <==> AllFit(entries) && |EncodeAll(entries)| <= 0xffff
  {
    ComesBackExactly(entries);
    FewLoseNothingExactly(entries, |EncodeAll(entries)|);
  }
}
