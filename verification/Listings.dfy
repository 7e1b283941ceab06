/**
 The two producers of src/async_web_response.cpp that spread one JSON document over as many buffers as it takes:
 the directory listing and the WiFi scan. The text of each entry is rendered elsewhere; here it is a string
 to which the producer adds a comma. `DirFill` and `ScanFill` say what one call emits, the classes do it in place.
 */
module Listings {
  import JsonStrings
  import opened Util

  function Int16(x: int): int { (x + 0x8000) % 0x1_0000 - 0x8000 }

  /** A directory item that is neither a file nor a directory is Skipped: it produces no text. */
  datatype Entry = Skipped | Listed(fields: string)

  function Fields(entries: seq<Entry>): seq<string> {
    if |entries| == 0 then []
    else (if entries[0].Listed? then [entries[0].fields] else []) + Fields(entries[1..])
  }

  function Join(fields: seq<string>): string {
    if |fields| == 0 then ""
    else if |fields| == 1 then fields[0]
    else fields[0] + "," + Join(fields[1..])
  }

  /** The document both producers are for. */
  function Document(opening: string, entries: seq<Entry>): string {
    opening + (Join(Fields(entries)) + "]}")
  }

  /** Each field with the comma it is emitted with. */
  function Terminated(fields: seq<string>): string {
    if |fields| == 0 then "" else (fields[0] + ",") + Terminated(fields[1..])
  }

  function Texts(entries: seq<Entry>): string { Terminated(Fields(entries)) }

  function StripComma(s: string): string {
    if |s| > 0 && s[|s| - 1] == ',' then s[..|s| - 1] else s
  }

  /** How many of the next entries a buffer with `space` bytes takes; a text must leave room for its NUL. */
  function Fit(todo: seq<Entry>, space: int): (k: nat)
    ensures k <= |todo|
  {
    if |todo| == 0 then 0
    else
      match todo[0]
      case Skipped => 1 + Fit(todo[1..], space)
      case Listed(fields) => if |fields| + 1 >= space then 0 else 1 + Fit(todo[1..], space - (|fields| + 1))
  }

  lemma {:induction false} FitStopsAtListed(todo: seq<Entry>, space: int)
    requires Fit(todo, space) < |todo|
    ensures todo[Fit(todo, space)].Listed?
  {
    if todo[0].Skipped? {
      FitStopsAtListed(todo[1..], space);
    } else if |todo[0].fields| + 1 < space {
      FitStopsAtListed(todo[1..], space - (|todo[0].fields| + 1));
    }
  }

  // ---------------------------------------------------------------- joining

  lemma {:induction false} FieldsConcat(a: seq<Entry>, b: seq<Entry>)
    ensures Fields(a + b) == Fields(a) + Fields(b)
  {
    if |a| == 0 {
      NothingAdded(b);
      NothingAdded(Fields(b));
    } else {
      assert (a + b)[1..] == a[1..] + b;
      FieldsConcat(a[1..], b);
      Assoc(if a[0].Listed? then [a[0].fields] else [], Fields(a[1..]), Fields(b));
    }
  }

  lemma {:induction false} TerminatedConcat(a: seq<string>, b: seq<string>)
    ensures Terminated(a + b) == Terminated(a) + Terminated(b)
  {
    if |a| == 0 {
      NothingAdded(b);
      NothingAdded(Terminated(b));
    } else {
      assert (a + b)[1..] == a[1..] + b;
      TerminatedConcat(a[1..], b);
      Assoc(a[0] + ",", Terminated(a[1..]), Terminated(b));
    }
  }

  lemma TextsSnoc(entries: seq<Entry>, e: Entry)
    ensures Texts(entries + [e]) == Texts(entries) + if e.Listed? then e.fields + "," else ""
  {
    FieldsConcat(entries, [e]);
    NothingAdded(Fields([e]));
    if e.Listed? {
      assert Fields([e]) == [e.fields];
      TerminatedConcat(Fields(entries), [e.fields]);
      NothingAdded(e.fields + ",");
      assert Terminated([e.fields]) == e.fields + ",";
    } else {
      assert Fields([e]) == [];
      NothingAdded(Fields(entries));
      NothingAdded(Texts(entries));
    }
  }

  lemma {:induction false} TerminatedIsJoined(fields: seq<string>)
    requires |fields| > 0
    ensures Terminated(fields) == Join(fields) + ","
  {
    if |fields| == 1 {
      NothingAdded(fields[0] + ",");
    } else {
      TerminatedIsJoined(fields[1..]);
      Assoc(fields[0] + ",", Join(fields[1..]), ",");
    }
  }

  lemma {:induction false} TerminatedThenJoined(a: seq<string>, b: seq<string>)
    requires |b| > 0
    ensures Terminated(a) + Join(b) == Join(a + b)
  {
    if |a| == 0 {
      NothingAdded(b);
      NothingAdded(Join(b));
    } else {
      assert (a + b)[1..] == a[1..] + b;
      TerminatedThenJoined(a[1..], b);
      Assoc(a[0] + ",", Terminated(a[1..]), Join(b));
    }
  }

  lemma StripOwnComma(s: string)
    ensures StripComma(s + ",") == s
  {
  }

  /** What an opening must be for the comma test at the end of the listing not to damage it. */
  predicate IsOpening(lead: string) { |lead| > 0 && lead[|lead| - 1] == '[' }

  /** Emitting the first k entries behind `lead` leaves exactly the rest of the document to be emitted. */
  lemma EmitSome(lead: string, todo: seq<Entry>, k: nat)
    requires k < |todo| && todo[k].Listed?
    ensures (lead + Texts(todo[..k])) + (Join(Fields(todo[k..])) + "]}") == lead + (Join(Fields(todo)) + "]}")
  {
    var a, b := Fields(todo[..k]), Fields(todo[k..]);
    assert todo[..k] + todo[k..] == todo;
    FieldsConcat(todo[..k], todo[k..]);
    assert |b| > 0;
    TerminatedThenJoined(a, b);
    Assoc(lead, Terminated(a), Join(b) + "]}");
    Assoc(Terminated(a), Join(b), "]}");
  }

  lemma EmitAll(lead: string, todo: seq<Entry>)
    requires IsOpening(lead) || (|lead| == 0 && Fields(todo) != [])
    ensures StripComma(lead + Texts(todo)) + "]}" == lead + (Join(Fields(todo)) + "]}")
  {
    var f := Fields(todo);
    if |f| == 0 {
      NothingAdded(lead);
      assert lead + Texts(todo) == lead;
    } else {
      TerminatedIsJoined(f);
      Assoc(lead, Join(f), ",");
      StripOwnComma(lead + Join(f));
    }
    Assoc(lead, Join(f), "]}");
  }

  lemma {:induction false} TakenFits(todo: seq<Entry>, space: int)
    ensures |Texts(todo[..Fit(todo, space)])| <= if space > 0 then space else 0
  {
    if |todo| > 0 && (todo[0].Skipped? || |todo[0].fields| + 1 < space) {
      var left := if todo[0].Skipped? then space else space - (|todo[0].fields| + 1);
      TakenFits(todo[1..], left);
      var taken := todo[..Fit(todo, space)];
      assert taken[1..] == todo[1..][..Fit(todo[1..], left)];
      if todo[0].Listed? {
        assert Fields(taken)[1..] == Fields(taken[1..]);
      } else {
        assert Fields(taken) == Fields(taken[1..]);
      }
    }
  }

  /** One buffer never holds more than its space and the two bytes kept for the brackets. */
  lemma EmissionFits(lead: string, todo: seq<Entry>, space: int)
    ensures |Emission(lead, todo, space)| <= |lead| + (if space > 0 then space else 0) + 2
  {
    TakenFits(todo, space);
    if Fit(todo, space) == |todo| {
      assert todo[..|todo|] == todo;
    }
  }

  lemma EmissionCompletes(lead: string, todo: seq<Entry>, space: int, k: nat, text: string, after: string,
                          before: string)
    requires IsOpening(lead) || |lead| == 0
    requires |todo| > 0 && todo[0].Listed? && k == Fit(todo, space) > 0
    requires text == Emission(lead, todo, space)
    requires after == Rest(todo[k..]) && before == lead + (Join(Fields(todo)) + "]}")
    ensures text + after == before && |text| > 0
  {
    EmissionIsNextPart(lead, todo, space);
  }

  /** A buffer that has room for the next entry takes at least that one. */
  lemma FitTakesNext(todo: seq<Entry>, space: int)
    requires |todo| > 0 && todo[0].Listed? && |todo[0].fields| + 1 < space
    ensures Fit(todo, space) >= 1
  {
  }

  /** The opening goes out with the first entries. */
  function Lead(first: bool, opening: string): string { if first then opening else "" }

  /** The text of one buffer: the entries that fit, closed when they are the last ones. */
  function Emission(lead: string, todo: seq<Entry>, space: int): string {
    var k := Fit(todo, space);
    if k == |todo| then StripComma(lead + Texts(todo)) + "]}" else lead + Texts(todo[..k])
  }

  ghost function Rest(todo: seq<Entry>): string {
    if |todo| == 0 then "" else Join(Fields(todo)) + "]}"
  }

  lemma TextsOfListed(entries: seq<Entry>)
    requires |entries| > 0 && entries[0].Listed?
    ensures |Texts(entries)| > 0 && Fields(entries) != []
  {
  }

  lemma EmissionIsNextPart(lead: string, todo: seq<Entry>, space: int)
    requires IsOpening(lead) || (|lead| == 0 && Fit(todo, space) > 0 && todo[0].Listed?)
    ensures Emission(lead, todo, space) + Rest(todo[Fit(todo, space)..]) == lead + (Join(Fields(todo)) + "]}")
    ensures |Emission(lead, todo, space)| > 0
  {
    var k := Fit(todo, space);
    if k == |todo| {
      if |lead| == 0 {
        TextsOfListed(todo);
      }
      EmitAll(lead, todo);
      NothingAdded(Emission(lead, todo, space));
    } else {
      if |lead| == 0 {
        TextsOfListed(todo[..k]);
      }
      FitStopsAtListed(todo, space);
      EmitSome(lead, todo, k);
    }
  }

  // ---------------------------------------------------------------- directory listing

  datatype DirPhase = Opening | Entries | Done

  /** `todo` are the directory entries not yet emitted. */
  datatype DirState = DirState(phase: DirPhase, opening: string, todo: seq<Entry>)

  /** Two bytes of every buffer are kept for the closing brackets. */
  function Space(len: nat): int { Int16(len - 2) }

  /** A length kept in an int16_t and returned as a size_t. */
  function Returned(length: nat): nat { Int16(length) % 0x1_0000_0000 }

  /** The length of a listing's part comes back exactly below 32768; from there on it is a negative number. */
  lemma ReturnedExactly(length: nat)
    requires length < 0x1_0000
    ensures Returned(length) == length <==> length < 0x8000
    ensures length >= 0x8000 ==> Returned(length) == length + 0xffff_0000
  {
  }

  function DirFill(st: DirState, len: nat): (DirState, string) { DirEmit(st, Space(len)) }

  function DirEmit(st: DirState, space: int): (DirState, string) {
    if st.phase == Done then (st, "")
    else if st.phase == Opening && |st.opening| >= space then (st.(phase := Done), "")
    else
      var lead := Lead(st.phase == Opening, st.opening);
      var k := Fit(st.todo, space - |lead|);
      (st.(phase := if k == |st.todo| then Done else Entries, todo := st.todo[k..]),
       Emission(lead, st.todo, space - |lead|))
  }

  /** snprintf is given `space` as a size_t: it stays inside the buffer exactly when `space` is not negative. */
  lemma SnprintfStaysInside(len: nat)
    requires len < 0x8000_0000
    ensures Space(len) % 0x1_0000_0000 <= len <==> Space(len) >= 0
  {
  }

  ghost predicate DirValid(st: DirState) {
    && IsOpening(st.opening)
    && (st.phase == Entries ==> |st.todo| > 0 && st.todo[0].Listed?)
  }

  /** The part of the document that is still to come. */
  ghost function DirRemaining(st: DirState): string {
    match st.phase
    case Opening => Document(st.opening, st.todo)
    case Entries => Join(Fields(st.todo)) + "]}"
    case Done => ""
  }

  /** There is room for the opening, and for every single entry. */
  ghost predicate DirRoomy(st: DirState, space: int) {
    && |st.opening| < space
    && forall i :: 0 <= i < |st.todo| && st.todo[i].Listed? ==> |st.todo[i].fields| + 1 < space
  }

  /** Upper bound on the number of calls until the listing is complete. */
  ghost function DirCallsLeft(st: DirState): nat {
    match st.phase
    case Opening => |st.todo| + 2
    case Entries => |st.todo| + 1
    case Done => 0
  }

  lemma DirEmitIs(st: DirState, space: int) returns (k: nat, lead: string)
    requires st.phase == Entries || (st.phase == Opening && |st.opening| < space)
    ensures lead == Lead(st.phase == Opening, st.opening) && k == Fit(st.todo, space - |lead|)
    ensures DirEmit(st, space).0 == st.(phase := if k == |st.todo| then Done else Entries, todo := st.todo[k..])
    ensures DirEmit(st, space).1 == Emission(lead, st.todo, space - |lead|)
    ensures DirRemaining(DirEmit(st, space).0) == Rest(st.todo[k..])
    ensures DirRemaining(st) == lead + (Join(Fields(st.todo)) + "]}")
  {
    lead := Lead(st.phase == Opening, st.opening);
    k := Fit(st.todo, space - |lead|);
    NothingAdded(Join(Fields(st.todo)) + "]}");
  }

  lemma DirEmitFits(st: DirState, space: nat)
    ensures |DirEmit(st, space).1| <= space + 2
  {
    if st.phase == Entries || (st.phase == Opening && |st.opening| < space) {
      EmissionFits(Lead(st.phase == Opening, st.opening), st.todo, space - |Lead(st.phase == Opening, st.opening)|);
    }
  }

  lemma DirStaysValid(st: DirState, space: int)
    requires DirValid(st) && (st.phase == Opening ==> |st.opening| < space)
    ensures DirValid(DirEmit(st, space).0) && DirEmit(st, space).0.opening == st.opening
  {
    if st.phase != Done {
      var k, lead := DirEmitIs(st, space);
      if k < |st.todo| {
        FitStopsAtListed(st.todo, space - |lead|);
      }
    }
  }

  /** A buffer size that was roomy stays so. */
  lemma DirStaysRoomy(st: DirState, space: int, later: int)
    requires DirRoomy(st, later) && (st.phase == Opening ==> |st.opening| < space)
    ensures DirRoomy(DirEmit(st, space).0, later)
  {
    if st.phase != Done {
      var k, lead := DirEmitIs(st, space);
    }
  }

  lemma DirCallsGoDown(st: DirState, space: int)
    requires DirValid(st) && DirRoomy(st, space) && st.phase != Done
    ensures DirCallsLeft(DirEmit(st, space).0) < DirCallsLeft(st)
    ensures st.phase == Entries ==> Fit(st.todo, space) > 0
  {
    if st.phase == Entries {
      FitTakesNext(st.todo, space);
    }
  }

  /** One call with a roomy buffer emits the next part of the document, and is empty only when all is out. */
  lemma DirEmitsNext(st: DirState, space: int)
    requires DirValid(st) && DirRoomy(st, space)
    ensures var (st', out) := DirEmit(st, space);
            && DirValid(st')
            && out + DirRemaining(st') == DirRemaining(st)
            && (|out| == 0 <==> st.phase == Done)
            && (st.phase != Done ==> DirCallsLeft(st') < DirCallsLeft(st))
  {
    DirStaysValid(st, space);
    if st.phase == Done {
      NothingAdded("");
    } else {
      DirCallsGoDown(st, space);
      var k, lead := DirEmitIs(st, space);
      EmissionIsNextPart(lead, st.todo, space - |lead|);
    }
  }

  /**
   An unfinished listing emits nothing exactly when its next piece of text does not fit; the engine takes the empty
   answer for the end of the content.
   */
  lemma DirStallsExactlyWithoutRoom(st: DirState, space: int)
    requires DirValid(st) && st.phase != Done
    ensures |DirEmit(st, space).1| == 0 <==>
            (if st.phase == Opening then |st.opening| else |st.todo[0].fields| + 1) >= space
  {
    if st.phase == Entries && |st.todo[0].fields| + 1 >= space {
      assert Fit(st.todo, space) == 0;
      assert |Texts(st.todo[..0])| == 0;
    } else if st.phase == Entries {
      FitTakesNext(st.todo, space);
      EmissionIsNextPart("", st.todo, space);
    }
  }

  /** The same for a buffer of a given length, of which two bytes are kept. */
  lemma DirStallsExactlyInShortBuffers(st: DirState, len: nat)
    requires DirValid(st) && st.phase != Done && 2 <= len < 0x8002
    ensures |DirFill(st, len).1| == 0 <==>
            (if st.phase == Opening then |st.opening| else |st.todo[0].fields| + 1) + 2 >= len
  {
    assert Space(len) == len - 2;
    DirStallsExactlyWithoutRoom(st, Space(len));
  }

  // ---------------------------------------------------------------- WiFi scan

  /** `tail` is the rendered rest of a row, from the end of the name on: channel, signal, address and encryption. */
  datatype Network = Network(hidden: bool, ssid: string, tail: string)

  datatype ScanResult = Running | NoNetworks | Found(networks: seq<Network>)

  const EOF_POSITION: nat := 255

  /** The fixed pieces of text a scan result is assembled from. */
  datatype Markup = Markup(pending: string, empty: string, opening: string, rowClass: string, hiddenStyle: string,
                           visibleStyle: string, ssidKey: string, hiddenName: string)

  function ScanMarkup(): (m: Markup)
    ensures IsOpening(m.opening)
  {
    Markup("{\"pending\":true," + "\"msg\":\"Network scan still running\"}",
           "{\"msg\":" + "\"No WiFi networks in range\"}",
           "{\"result\":[", "{\"tr_class\":\"", "table-secondary",
           "has-network-name" + "\",\"td_class\":\"network-name", "\",\"ssid\":\"", "<i>HIDDEN</i>")
  }

  function RowStyle(m: Markup, n: Network): string { if n.hidden then m.hiddenStyle else m.visibleStyle }

  function RowName(m: Markup, n: Network): string { if n.hidden then m.hiddenName else JsonStrings.Escaped(n.ssid) }

  function RowText(m: Markup, n: Network): string {
    m.rowClass + RowStyle(m, n) + m.ssidKey + RowName(m, n) + n.tail
  }

  function Rows(m: Markup, networks: seq<Network>): (rows: seq<Entry>)
    ensures |rows| == |networks|
  {
    if |networks| == 0 then [] else [Listed(RowText(m, networks[0]))] + Rows(m, networks[1..])
  }

  /** What the bounded copy leaves in a buffer of `space` bytes. */
  function Clip(s: string, space: int): string {
    if space <= 1 then "" else if |s| < space then s else s[..space - 1]
  }

  /** The new position and the text emitted. */
  function ScanFill(m: Markup, position: nat, scan: ScanResult, len: nat): (nat, string) {
    if position == EOF_POSITION then (position, "")
    else
      match scan
      case Running => (EOF_POSITION, Clip(m.pending, Int16(len)))
      case NoNetworks => (EOF_POSITION, Clip(m.empty, Int16(len)))
      case Found(networks) =>
        if position >= |networks| then (position, "")
        else
          var e := ScanEmit(Lead(position == 0, m.opening), Rows(m, networks[position..]), Space(len));
          (NextPosition(position, e.taken, |networks|), e.text)
  }

  datatype Emitted = Emitted(taken: nat, text: string)

  /** Without a single row nothing is emitted, the opening included. */
  function ScanEmit(lead: string, todo: seq<Entry>, space: int): Emitted {
    var k := Fit(todo, space - |lead|);
    Emitted(k, if k == 0 then "" else Emission(lead, todo, space - |lead|))
  }

  function NextPosition(position: nat, taken: nat, count: nat): nat {
    if taken == 0 && position > 0 then position
    else if taken == 0 || position + taken == count then EOF_POSITION
    else position + taken
  }

  ghost predicate ScanValid(m: Markup, position: nat, networks: seq<Network>) {
    && IsOpening(m.opening)
    && 0 < |networks| <= 127
    && (position < |networks| || position == EOF_POSITION)
  }

  /** The part of the document that is still to come. */
  ghost function ScanRemaining(m: Markup, position: nat, networks: seq<Network>): string {
    if position < |networks| then
      Lead(position == 0, m.opening) + (Join(Fields(Rows(m, networks[position..]))) + "]}")
    else ""
  }

  /** There is room for the opening together with any single row. */
  ghost predicate ScanRoomy(m: Markup, networks: seq<Network>, space: int) {
    forall i :: 0 <= i < |networks| ==> |m.opening| + |RowText(m, networks[i])| + 1 < space
  }

  ghost function ScanCallsLeft(position: nat, networks: seq<Network>): nat {
    if position < |networks| then |networks| - position else 0
  }

  lemma {:induction false} RowsDrop(m: Markup, networks: seq<Network>, k: nat)
    requires k <= |networks|
    ensures Rows(m, networks)[k..] == Rows(m, networks[k..])
  {
    if k == 0 {
      assert networks[0..] == networks;
    } else {
      RowsDrop(m, networks[1..], k - 1);
      assert networks[1..][k - 1..] == networks[k..];
      assert Rows(m, networks)[k..] == Rows(m, networks[1..])[k - 1..];
    }
  }

  lemma FirstRow(m: Markup, networks: seq<Network>, position: nat)
    requires position < |networks|
    ensures Rows(m, networks[position..])[0] == Listed(RowText(m, networks[position]))
  {
  }

  /** What remains at the position behind `k` more rows. */
  lemma ScanRemainingAfter(m: Markup, position: nat, networks: seq<Network>, k: nat)
    requires ScanValid(m, position, networks) && 0 < k && position + k <= |networks|
    ensures ScanRemaining(m, NextPosition(position, k, |networks|), networks) ==
            Rest(Rows(m, networks[position..])[k..])
  {
    RowsDrop(m, networks[position..], k);
    assert networks[position..][k..] == networks[position + k..];
    NothingAdded(Rest(Rows(m, networks[position + k..])));
  }

  /** What a call with room for the next row does. */
  lemma ScanFillIs(m: Markup, position: nat, networks: seq<Network>, len: nat)
    returns (lead: string, space: int, k: nat, text: string)
    requires ScanValid(m, position, networks) && position < |networks| && ScanRoomy(m, networks, Space(len))
    ensures lead == Lead(position == 0, m.opening)
    ensures k == Fit(Rows(m, networks[position..]), space) && 0 < k <= |networks| - position
    ensures text == Emission(lead, Rows(m, networks[position..]), space)
    ensures ScanFill(m, position, Found(networks), len) == (NextPosition(position, k, |networks|), text)
  {
    lead := Lead(position == 0, m.opening);
    space := Space(len) - |lead|;
    FirstRow(m, networks, position);
    FitTakesNext(Rows(m, networks[position..]), space);
    k := Fit(Rows(m, networks[position..]), space);
    text := Emission(lead, Rows(m, networks[position..]), space);
  }
  /** A call never returns more than the space and the two bytes kept for the brackets. */
  lemma ScanEmitFits(m: Markup, position: nat, networks: seq<Network>, len: nat)
    requires |m.opening| < Space(len)
    ensures |ScanFill(m, position, Found(networks), len).1| <= Space(len) + 2
  {
    if position < |networks| {
      var lead := Lead(position == 0, m.opening);
      EmissionFits(lead, Rows(m, networks[position..]), Space(len) - |lead|);
    }
  }

  lemma ScanMovesOn(m: Markup, position: nat, networks: seq<Network>, k: nat)
    requires ScanValid(m, position, networks) && 0 < k && position + k <= |networks|
    ensures ScanValid(m, NextPosition(position, k, |networks|), networks)
    ensures ScanCallsLeft(NextPosition(position, k, |networks|), networks) < ScanCallsLeft(position, networks)
  {
  }

  lemma RowsComplete(m: Markup, position: nat, networks: seq<Network>, lead: string, space: int, k: nat)
    requires ScanValid(m, position, networks) && position < |networks| && lead == Lead(position == 0, m.opening)
    requires k == Fit(Rows(m, networks[position..]), space) && k > 0
    ensures var out := Emission(lead, Rows(m, networks[position..]), space);
            && out + ScanRemaining(m, NextPosition(position, k, |networks|), networks) ==
               ScanRemaining(m, position, networks)
            && |out| > 0
  {
    var todo := Rows(m, networks[position..]);
    FirstRow(m, networks, position);
    ScanRemainingAfter(m, position, networks, k);
    EmissionCompletes(lead, todo, space, k, Emission(lead, todo, space),
                      ScanRemaining(m, NextPosition(position, k, |networks|), networks),
                      ScanRemaining(m, position, networks));
  }

  /** One call with a roomy buffer emits the next part of the document, and is empty only when all is out. */
  lemma ScanEmitsNext(m: Markup, position: nat, networks: seq<Network>, len: nat)
    requires ScanValid(m, position, networks) && ScanRoomy(m, networks, Space(len))
    ensures var (position', out) := ScanFill(m, position, Found(networks), len);
            && ScanValid(m, position', networks)
            && out + ScanRemaining(m, position', networks) == ScanRemaining(m, position, networks)
            && (|out| == 0 <==> position == EOF_POSITION)
            && (position != EOF_POSITION ==> ScanCallsLeft(position', networks) < ScanCallsLeft(position, networks))
  {
    if position == EOF_POSITION {
      NothingAdded("");
    } else {
      var lead, space, k, text := ScanFillIs(m, position, networks, len);
      RowsComplete(m, position, networks, lead, space, k);
      ScanMovesOn(m, position, networks, k);
    }
  }

  /** An unfinished scan emits nothing exactly when its next row, with the opening if that is due, does not fit. */
  lemma ScanStallsExactlyWithoutRoom(m: Markup, position: nat, networks: seq<Network>, len: nat)
    requires ScanValid(m, position, networks) && position < |networks|
    ensures |ScanFill(m, position, Found(networks), len).1| == 0 <==>
            |Lead(position == 0, m.opening)| + |RowText(m, networks[position])| + 1 >= Space(len)
  {
    var lead, todo := Lead(position == 0, m.opening), Rows(m, networks[position..]);
    FirstRow(m, networks, position);
    if |lead| + |RowText(m, networks[position])| + 1 < Space(len) {
      FitTakesNext(todo, Space(len) - |lead|);
      EmissionIsNextPart(lead, todo, Space(len) - |lead|);
    }
  }

  /** The same for a buffer of a given length, of which two bytes are kept. */
  lemma ScanStallsExactlyInShortBuffers(m: Markup, position: nat, networks: seq<Network>, len: nat)
    requires ScanValid(m, position, networks) && position < |networks| && 2 <= len < 0x8002
    ensures |ScanFill(m, position, Found(networks), len).1| == 0 <==>
            (if position == 0 then |m.opening| else 0) + |RowText(m, networks[position])| + 3 >= len
  {
    assert Space(len) == len - 2;
    ScanStallsExactlyWithoutRoom(m, position, networks, len);
  }

  // ---------------------------------------------------------------- what a scan result tells

  /** The document of a scan result. */
  function ScanDocument(m: Markup, result: ScanResult): string {
    match result
    case Running => m.pending
    case NoNetworks => m.empty
    case Found(networks) => Document(m.opening, Rows(m, networks))
  }

  const PENDING: string := "{\"pending\":true,"
  const MESSAGE: string := "{\"msg\":"
  const RESULT: string := "{\"result\":["

  lemma NotBothBegin(a: string, b: string, n: nat, s: string)
    requires n < |a| && n < |b| && a[n] != b[n] && a <= s
    ensures !(b <= s)
  {
  }

  /** What a client reads first tells it how the scan stands, whatever was found. */
  lemma DocumentTellsResult(result: ScanResult)
    ensures var doc := ScanDocument(ScanMarkup(), result);
            && (PENDING <= doc <==> result.Running?)
            && (MESSAGE <= doc <==> result.NoNetworks?)
            && (RESULT <= doc <==> result.Found?)
  {
    var doc := ScanDocument(ScanMarkup(), result);
    match result {
      case Running =>
        NotBothBegin(PENDING, MESSAGE, 2, doc);
        NotBothBegin(PENDING, RESULT, 2, doc);
      case NoNetworks =>
        NotBothBegin(MESSAGE, PENDING, 2, doc);
        NotBothBegin(MESSAGE, RESULT, 2, doc);
      case Found(networks) =>
        NotBothBegin(RESULT, PENDING, 2, doc);
        NotBothBegin(RESULT, MESSAGE, 2, doc);
    }
  }

  /** A message is given once, as a whole exactly when there is room for its NUL too; otherwise all the room is used. */
  lemma MessageIsCutExactly(m: Markup, position: nat, result: ScanResult, len: nat)
    requires !result.Found? && position < EOF_POSITION && 0 < len < 0x8000
    ensures var (next, text) := ScanFill(m, position, result, len);
            var message := ScanDocument(m, result);
            && ScanFill(m, next, result, len) == (next, "")
            && text <= message && (text == message <==> |message| < len)
            && (text != message ==> |text| + 1 == len)
  {
    var text := ScanFill(m, position, result, len).1;
    assert Int16(len) == len;
    assert |text| == Min(|ScanDocument(m, result)|, len - 1);
  }

  const HIDDEN_ROW: string := "{\"tr_class\":\"" + "table-secondary"
  const NAMED_ROW: string := "{\"tr_class\":\"" + "has-network-name"

  /** A row is marked as that of a hidden network exactly when it is one. */
  lemma RowTellsHidden(n: Network)
    ensures HIDDEN_ROW <= RowText(ScanMarkup(), n) <==> n.hidden
    ensures NAMED_ROW <= RowText(ScanMarkup(), n) <==> !n.hidden
  {
    var row := RowText(ScanMarkup(), n);
    if n.hidden {
      NotBothBegin(HIDDEN_ROW, NAMED_ROW, 13, row);
    } else {
      Assoc("{\"tr_class\":\"", "has-network-name", "\",\"td_class\":\"network-name");
      NotBothBegin(NAMED_ROW, HIDDEN_ROW, 13, row);
    }
  }

  lemma SameBehind(front: string, a: string, b: string, tail: string)
    ensures front + a + tail == front + b + tail <==> a == b
  {
    if front + a + tail == front + b + tail {
      assert a == (front + a + tail)[|front|..|front| + |a|];
      assert b == (front + b + tail)[|front|..|front| + |b|];
    }
  }

  /** A row tells the name of a network exactly when that is not hidden: only then do different names differ in it. */
  lemma NameIsTold(m: Markup, n: Network, other: string)
    ensures RowText(m, n) == RowText(m, n.(ssid := other)) <==> n.hidden || other == n.ssid
  {
    var name, otherName := JsonStrings.Escaped(n.ssid), JsonStrings.Escaped(other);
    SameBehind(m.rowClass + RowStyle(m, n) + m.ssidKey, name, otherName, n.tail);
    if name == otherName {
      JsonStrings.EscapedDiffers(n.ssid, other);
    }
  }

  /**
   What a reader of the row finds behind the key of the name, up to the quotation mark the rest of the row begins with,
   is the name exactly when that has no backslash and no control character.
   */
  lemma NameIsReadExactly(m: Markup, n: Network, rest: string) returns (front: string)
    requires !n.hidden && n.tail == [JsonStrings.QUOTE] + rest
    ensures front == m.rowClass + RowStyle(m, n) + m.ssidKey
    ensures RowText(m, n) == front + JsonStrings.Text(n.ssid, rest)
    ensures JsonStrings.ReadString(JsonStrings.Text(n.ssid, rest)) ==
            Some(JsonStrings.Result(JsonStrings.Codes(n.ssid), rest))
            <==> JsonStrings.IsSimple(n.ssid)
  {
    front := m.rowClass + RowStyle(m, n) + m.ssidKey;
    Assoc(front, JsonStrings.Escaped(n.ssid), n.tail);
    JsonStrings.NameComesBackExactly(n.ssid, rest);
  }
}
