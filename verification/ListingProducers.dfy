/**
 The producers of Listings.dfy working in place on the buffer they are given. The buffer is an array of exactly the
 size offered, so that every write the verifier accepts is a write inside it.
 */
module ListingProducers {
  import JsonStrings
  import opened Util
  import opened Listings

  const NUL: char := '\0'

  /** snprintf: writes at most `size` bytes including the terminating NUL, and returns the length of the whole text. */
  method Snprintf(data: array<char>, at: nat, size: nat, text: string) returns (n: nat)
    requires at + size <= data.Length
    modifies data
    ensures n == |text|
    ensures data[..at] == old(data[..at])
    ensures |text| < size ==> data[..at + |text|] == old(data[..at]) + text
  {
    n := |text|;
    if size > 0 {
      var copied := if |text| < size then |text| else size - 1;
      for i := 0 to copied
        invariant data[..at + i] == old(data[..at]) + text[..i]
      {
        data[at + i] := text[i];
      }
      data[at + copied] := NUL;
      assert text[..|text|] == text;
      assert data[..at] == data[..at + copied][..at];
    }
  }

  /** `_strcpy_P_safe`: a copy cut off at `space` - 1 bytes; the rest of the space is cleared. */
  method StrcpySafe(data: array<char>, dst: nat, text: string, space: int) returns (dst': nat, space': int)
    requires dst <= data.Length && dst + space <= data.Length
    modifies data
    ensures dst' == dst + |Clip(text, space)| <= data.Length && space' == space - |Clip(text, space)|
    ensures data[..dst'] == old(data[..dst]) + Clip(text, space)
  {
    dst', space' := dst, space;
    if space <= 1 {
      NothingAdded(data[..dst]);
      return;
    }
    var copied := if |text| < space then |text| else space - 1;
    for i := 0 to copied
      invariant data[..dst + i] == old(data[..dst]) + text[..i]
    {
      data[dst + i] := text[i];
    }
    for i := copied to space
      invariant data[..dst + copied] == old(data[..dst]) + text[..copied]
    {
      data[dst + i] := NUL;
    }
    assert text[..copied] == Clip(text, space);
    dst', space' := dst + copied, space - copied;
  }

  lemma TextsNext(todo: seq<Entry>, i: nat, entry: Entry, texts: string) returns (more: string)
    requires i < |todo| && entry == todo[i] && entry.Listed? && texts == Texts(todo[..i])
    ensures more == texts + (entry.fields + ",") == Texts(todo[..i + 1])
  {
    assert todo[..i + 1] == todo[..i] + [todo[i]];
    TextsSnoc(todo[..i], todo[i]);
    more := texts + (entry.fields + ",");
  }

  /** The first k entries have been passed, with their texts; `space` is left for the rest. */
  datatype Progress = Progress(k: nat, rest: seq<Entry>, space: int, texts: string)

  ghost predicate Passed(todo: seq<Entry>, room: int, p: Progress) {
    && p.k <= |todo| && p.rest == todo[p.k..] && p.texts == Texts(todo[..p.k])
    && Fit(todo, room) == p.k + Fit(p.rest, p.space)
  }

  lemma PassNone(todo: seq<Entry>, room: int)
    ensures Passed(todo, room, Progress(0, todo, room, ""))
  {
    assert todo[..0] == [];
  }

  lemma PassNext(todo: seq<Entry>, room: int, p: Progress, text: string) returns (next: Progress)
    requires Passed(todo, room, p) && |p.rest| > 0 && p.rest[0] == Listed(text) && |text| + 1 < p.space
    ensures next == Progress(p.k + 1, p.rest[1..], p.space - (|text| + 1), p.texts + (text + ","))
    ensures Passed(todo, room, next)
  {
    var more := TextsNext(todo, p.k, p.rest[0], p.texts);
    next := Progress(p.k + 1, p.rest[1..], p.space - (|text| + 1), more);
  }

  lemma PassSkipped(todo: seq<Entry>, room: int, p: Progress) returns (next: Progress)
    requires Passed(todo, room, p) && |p.rest| > 0 && p.rest[0].Skipped?
    ensures next == p.(k := p.k + 1, rest := p.rest[1..]) && Passed(todo, room, next)
  {
    next := p.(k := p.k + 1, rest := p.rest[1..]);
    assert todo[..p.k + 1] == todo[..p.k] + [todo[p.k]];
    TextsSnoc(todo[..p.k], todo[p.k]);
    NothingAdded(p.texts);
  }

  lemma NoMorePass(todo: seq<Entry>, room: int, p: Progress)
    requires Passed(todo, room, p)
    requires |p.rest| == 0 || (p.rest[0].Listed? && |p.rest[0].fields| + 1 >= p.space)
    ensures p.k == Fit(todo, room) && p.texts == Texts(todo[..p.k])
  {
  }

  /** Takes a trailing comma back and closes the document; two bytes are free behind `sptr`. */
  method Finish(data: array<char>, sptr: nat) returns (end: nat)
    requires sptr + 2 <= data.Length
    modifies data
    ensures end <= sptr + 2
    ensures data[..end] == StripComma(old(data[..sptr])) + "]}"
  {
    end := sptr;
    if end != 0 {
      end := end - 1;
      if data[end] != ',' {
        end := end + 1;
      }
    }
    ghost var kept := data[..end];
    assert kept == StripComma(data[..sptr]);
    data[end], data[end + 1] := ']', '}';
    end := end + 2;
    assert data[..end] == kept + "]}";
  }

  // ---------------------------------------------------------------- directory listing

  /** Texts are short enough for the int16_t in which the producer keeps their length. */
  ghost predicate Int16Texts(opening: string, todo: seq<Entry>) {
    |opening| < 0x8000 && forall i :: 0 <= i < |todo| && todo[i].Listed? ==> |todo[i].fields| + 1 < 0x8000
  }

  lemma EmittedBehind(st: DirState, room: nat, lead: string) returns (after: DirState, text: string)
    requires st.phase != Done && (st.phase == Opening ==> |st.opening| < room)
    requires lead == Lead(st.phase == Opening, st.opening)
    ensures DirEmit(st, room) == (after, text)
    ensures text == Emission(lead, st.todo, room - |lead|)
    ensures var k := Fit(st.todo, room - |lead|);
            after == st.(phase := if k == |st.todo| then Done else Entries, todo := st.todo[k..])
  {
    after, text := DirEmit(st, room).0, DirEmit(st, room).1;
  }

  class AsyncDirResponse {
    var state: DirPhase
    const opening: string  // the rendered file system information, up to the bracket of the file list
    var dir: seq<Entry>    // what the directory iterator has not passed yet

    ghost function Model(): DirState
      reads this
    {
      DirState(state, opening, dir)
    }

    constructor (opening: string, dir: seq<Entry>)
      ensures Model() == DirState(Opening, opening, dir)
    {
      state, this.opening, this.dir := Opening, opening, dir;
    }

    /** Fills the buffer with the next part of the listing. */
    method FillBuffer(data: array<char>) returns (n: nat)
      requires Space(data.Length) >= 0
      requires Int16Texts(opening, dir)
      modifies this, data
      ensures var (st, text) := DirFill(old(Model()), data.Length);
              && Model() == st && |text| <= data.Length && data[..|text|] == text
              && n == Returned(|text|)
    {
      var length := Fill(data, Space(data.Length));
      n := Returned(length);
    }

    method Fill(data: array<char>, room: nat) returns (n: nat)
      requires room + 2 <= data.Length
      modifies this, data
      ensures Model() == DirEmit(old(Model()), room).0
      ensures n <= data.Length && data[..n] == DirEmit(old(Model()), room).1
    {
      if state == Done {
        return 0;
      }
      var fits, ptr := EmitOpening(data, room);
      if !fits {
        state := Done;
        return 0;
      }
      n := FillBehind(data, ptr, room);
    }

    /** What follows the opening, or what an earlier call left. */
    method FillBehind(data: array<char>, ptr: nat, room: nat) returns (n: nat)
      requires ptr <= room && room + 2 <= data.Length
      requires state != Done && (state == Opening ==> |opening| < room)
      requires data[..ptr] == Lead(state == Opening, opening)
      modifies this, data
      ensures n <= data.Length && DirEmit(old(Model()), room) == (Model(), data[..n])
    {
      ghost var after, text := EmittedBehind(Model(), room, data[..ptr]);
      n := EmitListing(data, ptr, room - ptr);
      assert data[..n] == text && Model() == after;
    }

    /** The opening, if it is due. */
    method EmitOpening(data: array<char>, room: nat) returns (fits: bool, ptr: nat)
      requires room + 2 <= data.Length
      modifies data
      ensures fits == (state == Opening ==> |opening| < room)
      ensures fits ==> ptr <= room && data[..ptr] == Lead(state == Opening, opening)
    {
      fits, ptr := true, 0;
      if state == Opening {
        NothingAdded(opening);
        ptr := Snprintf(data, 0, room, opening);
        fits := ptr < room;
      }
    }

    /** The listing behind the opening: entries as far as they fit, and the end of the document after the last. */
    method EmitListing(data: array<char>, at: nat, room: nat) returns (n: nat)
      requires state != Done && at + room + 2 <= data.Length
      modifies this, data
      ensures var k := Fit(old(dir), room);
              Model() == old(Model()).(phase := if k == |old(dir)| then Done else Entries, todo := old(dir)[k..])
      ensures n <= data.Length && data[..n] == Emission(old(data[..at]), old(dir), room)
    {
      ghost var todo := dir;
      state := Entries;
      var sptr := EmitEntries(data, at, room);
      if |dir| == 0 {
        assert todo[..|todo|] == todo;
        sptr := Finish(data, sptr);
        state := Done;
      }
      n := sptr;
    }

    /** The loop over the directory: emits entries behind `at` until one does not fit. */
    method EmitEntries(data: array<char>, at: nat, room: nat) returns (ptr: nat)
      requires at + room <= data.Length
      modifies this`dir, data
      ensures var k := Fit(old(dir), room);
              && dir == old(dir)[k..]
              && ptr <= at + room
              && data[..ptr] == old(data[..at]) + Texts(old(dir)[..k])
    {
      ptr := at;
      var space := room;
      ghost var todo, before, p := dir, data[..at], Progress(0, dir, room, "");
      PassNone(todo, room);
      NothingAdded(before);
      while |dir| > 0
        invariant dir == p.rest && space == p.space && Passed(todo, room, p)
        invariant at <= ptr && ptr + space == at + room
        invariant data[..ptr] == before + p.texts
        decreases |dir|
      {
        if dir[0].Listed? {
          var text := dir[0].fields + ",";
          var result := Snprintf(data, ptr, space, text);
          if result >= space {
            NoMorePass(todo, room, p);
            return;
          }
          Assoc(before, p.texts, text);
          p := PassNext(todo, room, p, dir[0].fields);
          ptr, space := ptr + result, space - result;
        } else {
          p := PassSkipped(todo, room, p);
        }
        dir := dir[1..];
      }
      NoMorePass(todo, room, p);
    }
  }

  // ---------------------------------------------------------------- WiFi scan

  /**
   `text` has been copied piece by piece into `room` bytes behind `before`: either all of it is there, or it did not
   fit and no space that matters is left.
   */
  ghost predicate Copied(before: string, room: int, text: string, now: string, space: int) {
    && |now| + space == |before| + room
    && before <= now
    && (if |text| < room then now == before + text else space <= 1 && (room > 0 ==> space == 1))
  }

  /** `_strcpy_P_safe` of the next piece of a text. */
  method AppendSafe(data: array<char>, ghost before: string, ghost room: int, ghost text: string,
                    ptr: nat, space: int, piece: string)
    returns (ptr': nat, space': int)
    requires ptr <= data.Length && |before| + room <= data.Length
    requires Copied(before, room, text, data[..ptr], space)
    modifies data
    ensures ptr <= ptr' <= data.Length && Copied(before, room, text + piece, data[..ptr'], space')
  {
    ptr', space' := StrcpySafe(data, ptr, piece, space);
    Assoc(before, text, piece);
    if |text + piece| < room && |piece| == 0 {
      NothingAdded(before + text);
    }
  }

  /** The fixed pieces of a row in front of the network name. */
  method EmitRowStart(data: array<char>, at: nat, room: nat, m: Markup, n: Network)
    returns (ptr: nat, space: int, ghost text: string)
    requires at + room <= data.Length && 0 < room
    modifies data
    ensures text == m.rowClass + RowStyle(m, n) + m.ssidKey
    ensures at <= ptr <= data.Length && Copied(old(data[..at]), room, text, data[..ptr], space)
  {
    ghost var before := data[..at];
    NothingAdded(before);
    ptr, space := AppendSafe(data, before, room, "", at, room, m.rowClass);
    NothingAdded(m.rowClass);
    text := m.rowClass;
    ptr, space := AppendSafe(data, before, room, text, ptr, space, RowStyle(m, n));
    text := text + RowStyle(m, n);
    ptr, space := AppendSafe(data, before, room, text, ptr, space, m.ssidKey);
    text := text + m.ssidKey;
  }

  /** The pieces of a row up to the network name; a visible name is only copied when all of it fits. */
  method EmitRowHead(data: array<char>, at: nat, room: nat, m: Markup, n: Network)
    returns (fits: bool, ptr: nat, space: int, ghost text: string)
    requires at + room <= data.Length && 0 < room
    modifies data
    ensures text == m.rowClass + RowStyle(m, n) + m.ssidKey + RowName(m, n)
    ensures fits ==> at <= ptr <= data.Length && Copied(old(data[..at]), room, text, data[..ptr], space)
    ensures !fits ==> |text| >= room
    ensures data[..at] == old(data[..at])
  {
    ghost var before := data[..at];
    ptr, space, text := EmitRowStart(data, at, room, m, n);
    if !n.hidden && |JsonStrings.Escaped(n.ssid)| >= space {
      text := text + RowName(m, n);
      assert data[..at] == data[..ptr][..at];
      return false, ptr, space, text;
    }
    ptr, space := AppendSafe(data, before, room, text, ptr, space, RowName(m, n));
    text := text + RowName(m, n);
    fits := true;
    assert data[..at] == data[..ptr][..at];
  }

  /** One row of the scan result; without room for all of it, nothing of it counts. */
  method EmitRow(data: array<char>, at: nat, room: nat, m: Markup, n: Network) returns (fits: bool, end: nat)
    requires at + room <= data.Length && 0 < room
    modifies data
    ensures fits <==> |RowText(m, n)| + 1 < room
    ensures fits ==> end == at + |RowText(m, n)| + 1 && data[..end] == old(data[..at]) + (RowText(m, n) + ",")
    ensures data[..at] == old(data[..at])
  {
    ghost var before, text := data[..at], "";
    var space;
    fits, end, space, text := EmitRowHead(data, at, room, m, n);
    if fits {
      Assoc(text, n.tail, ",");
      Assoc(before, text, n.tail + ",");
      var l := Snprintf(data, end, space, n.tail + ",");
      assert data[..at] == data[..end][..at];
      fits, end := l < space, end + l;
    }
  }

  lemma SameFit(todo: seq<Entry>, a: int, b: int)
    requires |todo| > 0 && todo[0].Listed?
    requires a == b || (a <= 1 && b <= 0)
    ensures Fit(todo, a) == Fit(todo, b)
  {
  }

  /** `rows` are what `networks` are rendered to. */
  ghost predicate Rendered(m: Markup, networks: seq<Network>, rows: seq<Entry>) {
    && |rows| == |networks|
    && (|networks| > 0 ==> rows[0] == Listed(RowText(m, networks[0])) && Rendered(m, networks[1..], rows[1..]))
  }

  lemma {:induction false} RowsAreRendered(m: Markup, networks: seq<Network>)
    ensures Rendered(m, networks, Rows(m, networks))
  {
    if |networks| > 0 {
      RowsAreRendered(m, networks[1..]);
      assert Rows(m, networks)[1..] == Rows(m, networks[1..]);
    }
  }

  lemma NextRendered(m: Markup, networks: seq<Network>, position: nat, rows: seq<Entry>)
    requires position < |networks| && Rendered(m, networks[position..], rows)
    ensures |rows| > 0 && rows[0] == Listed(RowText(m, networks[position]))
    ensures Rendered(m, networks[position + 1..], rows[1..])
  {
    assert networks[position..][1..] == networks[position + 1..];
  }

  class AsyncNetworkScanResponse {
    const markup: Markup
    var position: nat
    var done: bool

    constructor ()
      ensures markup == ScanMarkup() && position == 0 && !done
    {
      markup, position, done := ScanMarkup(), 0, false;
    }

    /** Fills the buffer with the next part of the scan result. */
    method FillBuffer(scan: ScanResult, data: array<char>) returns (n: nat)
      requires scan.Found? ==> 0 < |scan.networks| <= 127
      modifies this, data
      ensures position == ScanFill(markup, old(position), scan, data.Length).0
      ensures n <= data.Length && data[..n] == ScanFill(markup, old(position), scan, data.Length).1
      ensures done == (old(done) || (scan.Found? && position != old(position) && position == EOF_POSITION && n > 0))
    {
      if position == EOF_POSITION {
        return 0;
      }
      match scan {
        case Running => n := Message(markup.pending, data);
        case NoNetworks => n := Message(markup.empty, data);
        case Found(networks) =>
          if position >= |networks| {
            return 0;
          }
          ghost var todo, k := Rows(markup, networks[position..]), 0;
          RowsAreRendered(markup, networks[position..]);
          n, k := EmitRows(todo, networks, data, Space(data.Length), Lead(position == 0, markup.opening));
      }
    }

    method Message(text: string, data: array<char>) returns (n: nat)
      modifies this`position, data
      ensures position == EOF_POSITION
      ensures n <= data.Length && data[..n] == Clip(text, Int16(data.Length))
    {
      position := EOF_POSITION;
      var left;
      n, left := StrcpySafe(data, 0, text, Int16(data.Length));
      NothingAdded(Clip(text, Int16(data.Length)));
    }

    /** The rows, from `position` on, as far as they fit, and the end of the document after the last. */
    method EmitRows(ghost todo: seq<Entry>, networks: seq<Network>, data: array<char>, space: int, lead: string)
      returns (n: nat, ghost k: nat)
      requires space + 2 <= data.Length
      requires position < |networks| <= 127 && Rendered(markup, networks[position..], todo)
      modifies this, data
      ensures k == Fit(todo, space - |lead|)
      ensures position == NextPosition(old(position), k, |networks|)
      ensures n <= data.Length && data[..n] == ScanEmit(lead, todo, space).text
      ensures done == (old(done) || (position == EOF_POSITION && n > 0))
    {
      var at, room := EmitOpening(data, space, lead);
      SameFit(todo, room, space - |lead|);
      var sptr;
      ghost var end;
      sptr, k, end := EmitFitting(todo, networks, data, at, room);
      if position >= |networks| {
        assert todo[..k] == todo;
        assert data[..sptr] == lead + Texts(todo);
        sptr := Finish(data, sptr);
        done, position := true, EOF_POSITION;
      } else if position == 0 {
        position := EOF_POSITION;
      }
      n := sptr;
    }

    /** The opening, if it is due; one that does not fit leaves no room for a row. */
    method EmitOpening(data: array<char>, space: int, lead: string) returns (at: nat, room: int)
      requires space <= data.Length
      modifies data
      ensures at <= data.Length && at + room == space
      ensures if |lead| < space then room == space - |lead| && data[..at] == lead else room <= 1
    {
      at, room := 0, space;
      if |lead| > 0 {
        NothingAdded(lead);
        at, room := AppendSafe(data, "", space, "", at, room, lead);
      }
    }

    /** One turn of the loop: the row at `position`, if all of it fits. */
    method EmitNextRow(data: array<char>, at: nat, space: nat, networks: seq<Network>, ghost before: string,
                       ghost todo: seq<Entry>, ghost room: int, ghost p: Progress)
      returns (fits: bool, end: nat, ghost next: Progress)
      requires position < |networks| && Rendered(markup, networks[position..], p.rest)
      requires at + space <= data.Length && p.space == space > 0 && data[..at] == before + p.texts
      requires Passed(todo, room, p)
      modifies this`position, data
      ensures !fits ==> next == p && p.k == Fit(todo, room) && p.texts == Texts(todo[..p.k]) && end == at
      ensures fits ==> next.k == p.k + 1 && end + next.space == at + space && at < end && next.space > 0
      ensures position == old(position) + (if fits then 1 else 0) && end <= data.Length
      ensures fits ==> Passed(todo, room, next) && Rendered(markup, networks[position..], next.rest)
      ensures data[..end] == before + next.texts
    {
      ghost var text := RowText(markup, networks[position]);
      NextRendered(markup, networks, position, p.rest);
      next := p;
      fits, end := EmitRow(data, at, space, markup, networks[position]);
      if fits {
        next := PassNext(todo, room, p, text);
        Assoc(before, p.texts, text + ",");
        position := position + 1;
      } else {
        NoMorePass(todo, room, p);
        end := at;
      }
    }

    /** The loop over the rows. What was there before counts only together with a first row. */
    method EmitFitting(ghost todo: seq<Entry>, networks: seq<Network>, data: array<char>, at: nat, room: int)
      returns (sptr: nat, ghost k: nat, ghost end: nat)
      requires position < |networks| && Rendered(markup, networks[position..], todo)
      requires at <= data.Length && at + room <= data.Length
      modifies this`position, data
      ensures k == Fit(todo, room) && position == old(position) + k
      ensures sptr == (if k == 0 then 0 else end) && end <= data.Length && (k > 0 ==> end < at + room)
      ensures k > 0 ==> data[..end] == old(data[..at]) + Texts(todo[..k])
    {
      var ptr, space := at, room;
      sptr := 0;
      ghost var before, p := data[..at], Progress(0, todo, room, "");
      PassNone(todo, room);
      NothingAdded(before);
      while position < |networks| && space > 0
        invariant position == old(position) + p.k <= |networks| && Rendered(markup, networks[position..], p.rest)
        invariant at <= ptr <= data.Length && ptr + space == at + room && p.space == space
        invariant data[..ptr] == before + p.texts && Passed(todo, room, p)
        invariant sptr == (if p.k == 0 then 0 else ptr) && (p.k > 0 ==> space > 0)
        decreases |networks| - position
      {
        var fits, next;
        ghost var after;
        fits, next, after := EmitNextRow(data, ptr, space, networks, before, todo, room, p);
        if !fits {
          return sptr, p.k, ptr;
        }
        p := after;
        ptr, space := next, space - (next - ptr);
        sptr := ptr;
      }
      NoMorePass(todo, room, p);
      k, end := p.k, ptr;
    }
  }
}
