/**
 Serial input: the read loop `_serialLoop` of src/serial_handler.cpp and the line editor
 `at_mode_serial_input_handler` of src/at_mode.cpp, which finds the command lines in the byte stream. What is dispatched
 is shown to depend on the stream alone, and is described for plain lines of any length.
 */
module SerialInput {
  import opened Util

  const INPUT_BUFFER_MAX: nat := 512
  const CHUNK_SIZE: nat := 128

  const TAB: char := 9 as char
  const BACKSPACE: char := 8 as char
  const ERASE: string := [BACKSPACE, ' ', BACKSPACE]

  /** The line so far, the commands dispatched and what was printed back. */
  datatype Editor = Editor(line: string, commands: seq<string>, echo: string)

  function Dispatch(e: Editor): Editor {
    e.(line := "", commands := e.commands + [e.line], echo := e.echo + "\n")
  }

  /** One byte. */
  function Feed(e: Editor, c: char): (r: Editor)
    ensures |e.line| < INPUT_BUFFER_MAX ==> |r.line| < INPUT_BUFFER_MAX
  {
    if c == TAB then
      if |e.line| == 0 then e.(line := "AT+", echo := e.echo + "AT+") else e
    else if c == BACKSPACE then
      e.(line := if |e.line| == 0 then "" else e.line[..|e.line| - 1], echo := e.echo + ERASE)
    else if c == '\n' then Dispatch(e)
    else if c == '\r' then e.(echo := e.echo + "\r")
    else
      var longer := e.(line := e.line + [c], echo := e.echo + [c]);
      if |longer.line| >= INPUT_BUFFER_MAX then Dispatch(longer) else longer
  }

  function FeedAll(e: Editor, s: string): (r: Editor)
    ensures |e.line| < INPUT_BUFFER_MAX ==> |r.line| < INPUT_BUFFER_MAX
  {
    if |s| == 0 then e else Feed(FeedAll(e, s[..|s| - 1]), s[|s| - 1])
  }

  /** A byte stream may be cut anywhere. */
  lemma {:induction false} FeedConcat(e: Editor, a: string, b: string)
    ensures FeedAll(e, a + b) == FeedAll(FeedAll(e, a), b)
  {
    if |b| == 0 {
      NothingAdded(a);
    } else {
      FeedConcat(e, a, b[..|b| - 1]);
      assert (a + b)[..|a + b| - 1] == a + b[..|b| - 1];
    }
  }

  lemma {:induction false} FeedPieces(e: Editor, pieces: seq<string>, last: string)
    ensures FeedAll(e, Flatten(pieces + [last])) == FeedAll(FeedAll(e, Flatten(pieces)), last)
  {
    FlattenSnoc(pieces, last);
    FeedConcat(e, Flatten(pieces), last);
  }

  // ---------------------------------------------------------------- the code

  /** `RECEIVE` is echoed, `REMOTE_RX` is not. */
  class AtMode {
    var atModeEnabled: bool
    var lineBuffer: string
    var commands: seq<string>
    var echo: string

    constructor (atModeEnabled: bool)
      ensures Abstract() == Editor("", [], "") && this.atModeEnabled == atModeEnabled
    {
      this.atModeEnabled, lineBuffer, commands, echo := atModeEnabled, "", [], "";
    }

    function Abstract(): Editor
      reads this
    {
      Editor(lineBuffer, commands, echo)
    }

    method Print(echoStream: bool, s: string)
      modifies `echo
      ensures echo == if echoStream then old(echo) + s else old(echo)
    {
      if echoStream {
        echo := echo + s;
      }
    }

    method HandleEvent()
      modifies `commands, `lineBuffer
      ensures commands == old(commands) + [old(lineBuffer)] && lineBuffer == ""
    {
      commands := commands + [lineBuffer];
      lineBuffer := "";
    }

    method HandleChar(c: char, echoStream: bool)
      modifies `lineBuffer, `commands, `echo
      ensures var e := Feed(old(Abstract()), c);
              Abstract() == if echoStream then e else e.(echo := old(echo))
    {
      if c == TAB {
        if |lineBuffer| == 0 {
          lineBuffer := "AT+";
          Print(echoStream, "AT+");
        }
      } else if c == BACKSPACE {
        if |lineBuffer| > 0 {
          lineBuffer := lineBuffer[..|lineBuffer| - 1];
        }
        Print(echoStream, ERASE);
      } else if c == '\n' {
        Print(echoStream, "\n");
        HandleEvent();
      } else if c == '\r' {
        Print(echoStream, "\r");
      } else {
        lineBuffer := lineBuffer + [c];
        Print(echoStream, [c]);
        if |lineBuffer| >= INPUT_BUFFER_MAX {
          Print(echoStream, "\n");
          HandleEvent();
        }
      }
    }

    method SerialInputHandler(received: bool, buffer: string)
      modifies `lineBuffer, `commands, `echo
      ensures var e := FeedAll(old(Abstract()), buffer);
              lineBuffer == (if atModeEnabled then e else old(Abstract())).line &&
              commands == (if atModeEnabled then e else old(Abstract())).commands &&
              echo == if atModeEnabled && received then e.echo else old(echo)
    {
      if atModeEnabled {
        for i := 0 to |buffer|
          invariant var e := FeedAll(old(Abstract()), buffer[..i]);
                    lineBuffer == e.line && commands == e.commands && echo == if received then e.echo else old(echo)
        {
          assert buffer[..i + 1][..i] == buffer[..i];
          FeedEcho(FeedAll(old(Abstract()), buffer[..i]), echo, buffer[i]);
          HandleChar(buffer[i], received);
        }
        assert buffer[..|buffer|] == buffer;
      }
    }

    /**
     `_serialLoop`. Each of the arrivals is what can be read before the stream has nothing to read for a moment.
     */
    method SerialLoop(arrivals: seq<string>)
      requires atModeEnabled
      modifies `lineBuffer, `commands, `echo
      ensures Abstract() == FeedAll(old(Abstract()), Flatten(arrivals))
    {
      for k := 0 to |arrivals|
        invariant Abstract() == FeedAll(old(Abstract()), Flatten(arrivals[..k]))
      {
        assert arrivals[..k + 1] == arrivals[..k] + [arrivals[k]];
        FeedPieces(old(Abstract()), arrivals[..k], arrivals[k]);
        ReadArrival(arrivals[k]);
      }
      assert arrivals[..|arrivals|] == arrivals;
    }

    method ReadArrival(stream: string)
      requires atModeEnabled
      modifies `lineBuffer, `commands, `echo
      ensures Abstract() == FeedAll(old(Abstract()), stream)
    {
      var read := 0;
      while read < |stream|
        invariant read <= |stream| && Abstract() == FeedAll(old(Abstract()), stream[..read])
      {
        var buf := ReadChunk(stream, read);
        ghost var next := read + |buf|;
        ghost var e := Abstract();
        FeedPart(old(Abstract()), stream, read, next);
        assert stream[read..next] == buf;
        SerialInputHandler(true, buf);
        assert Abstract() == FeedAll(e, buf);
        read := read + |buf|;
      }
      assert stream[..|stream|] == stream;
    }

    /** Fills the buffer of the read loop; 128 bytes at most. */
    static method ReadChunk(stream: string, read: nat) returns (chunk: string)
      requires read < |stream|
      ensures 0 < |chunk| <= 128 && read + |chunk| <= |stream| && chunk == stream[read..read + |chunk|]
    {
      var buf := new char[CHUNK_SIZE];
      var len := 0;
      while len < buf.Length && read + len < |stream|
        invariant len <= buf.Length && read + len <= |stream| && buf[..len] == stream[read..read + len]
      {
        buf[len] := stream[read + len];
        len := len + 1;
      }
      chunk := buf[..len];
    }
  }

  lemma FeedPart(e: Editor, stream: string, read: nat, next: nat)
    requires read <= next <= |stream|
    ensures FeedAll(e, stream[..next]) == FeedAll(FeedAll(e, stream[..read]), stream[read..next])
  {
    FeedConcat(e, stream[..read], stream[read..next]);
    assert stream[..next] == stream[..read] + stream[read..next];
  }

  /** Line and commands do not depend on the echo. */
  lemma FeedEcho(e: Editor, echo: string, c: char)
    ensures Feed(e.(echo := echo), c).line == Feed(e, c).line
    ensures Feed(e.(echo := echo), c).commands == Feed(e, c).commands
  {
  }

  /** Two streams with the same bytes lead to the same commands, whatever the times they arrive at. */
  method SameBytesSameCommands(a: seq<string>, b: seq<string>) returns (commandsA: seq<string>, commandsB: seq<string>)
    requires Flatten(a) == Flatten(b)
    ensures commandsA == commandsB
  {
    var first := new AtMode(true);
    var second := new AtMode(true);
    first.SerialLoop(a);
    second.SerialLoop(b);
    commandsA, commandsB := first.commands, second.commands;
  }

  // ---------------------------------------------------------------- what is dispatched

  predicate IsPlain(s: string) {
    forall i :: 0 <= i < |s| ==> s[i] != '\t' && s[i] != '\U{0008}' && s[i] != '\n' && s[i] != '\r'
  }

  /** A line is cut to pieces of the maximum length; the rest, shorter and possibly empty, is the last. */
  function Pieces(line: string): (pieces: seq<string>)
    ensures |pieces| > 0
  {
    if |line| < INPUT_BUFFER_MAX then [line] else [line[..INPUT_BUFFER_MAX]] + Pieces(line[INPUT_BUFFER_MAX..])
  }

  lemma {:induction false} PiecesOfLine(line: string)
    ensures Flatten(Pieces(line)) == line
    ensures |Pieces(line)[|Pieces(line)| - 1]| < 512
    ensures forall i :: 0 <= i < |Pieces(line)| - 1 ==> |Pieces(line)[i]| == 512
    decreases |line|
  {
    if |line| < INPUT_BUFFER_MAX {
      FlattenSingleton(line);
    } else {
      PiecesOfLine(line[INPUT_BUFFER_MAX..]);
      assert line == line[..INPUT_BUFFER_MAX] + line[INPUT_BUFFER_MAX..];
    }
  }

  lemma {:induction false} TypeShort(e: Editor, s: string)
    requires IsPlain(s) && |e.line| + |s| < INPUT_BUFFER_MAX
    ensures FeedAll(e, s) == Editor(e.line + s, e.commands, e.echo + s)
  {
    if |s| == 0 {
      NothingAdded(e.line);
      NothingAdded(e.echo);
    } else {
      var init := s[..|s| - 1];
      TypeShort(e, init);
      assert s == init + [s[|s| - 1]];
      Assoc(e.line, init, [s[|s| - 1]]);
      Assoc(e.echo, init, [s[|s| - 1]]);
    }
  }

  lemma TypeFresh(e: Editor, s: string)
    requires IsPlain(s) && |e.line| == 0 && |s| < INPUT_BUFFER_MAX
    ensures FeedAll(e, s) == Editor(s, e.commands, e.echo + s)
  {
    TypeShort(e, s);
    assert e.line + s == s;
  }

  lemma FillLine(e: Editor, c: char)
    requires |e.line| == INPUT_BUFFER_MAX - 1 && c != TAB && c != BACKSPACE && c != '\n' && c != '\r'
    ensures Feed(e, c) == Editor("", e.commands + [e.line + [c]], (e.echo + [c]) + "\n")
  {
  }

  /** A piece of the maximum length is dispatched when its last byte comes. */
  lemma TypePiece(e: Editor, s: string)
    requires IsPlain(s) && |e.line| == 0 && |s| == INPUT_BUFFER_MAX
    ensures FeedAll(e, s) == Editor("", e.commands + [s], e.echo + (s + "\n"))
  {
    var init, c := s[..|s| - 1], s[|s| - 1];
    TypeFresh(e, init);
    FillLine(Editor(init, e.commands, e.echo + init), c);
    assert s == init + [c];
    Assoc(e.echo, init, [c]);
    Assoc(e.echo, s, "\n");
  }

  lemma TypeLast(e: Editor, s: string)
    requires IsPlain(s) && |e.line| == 0 && |s| < INPUT_BUFFER_MAX
    ensures FeedAll(e, s + "\n") == Editor("", e.commands + [s], e.echo + (s + "\n"))
  {
    TypeFresh(e, s);
    assert (s + "\n")[..|s|] == s;
    Assoc(e.echo, s, "\n");
  }

  lemma TypeNext(start: Editor, typed: string, e: Editor, last: string)
    requires FeedAll(start, typed) == e && |e.line| == 0 && IsPlain(last) && |last| < INPUT_BUFFER_MAX
    ensures FeedAll(start, typed + (last + "\n")) == Editor("", e.commands + [last], e.echo + (last + "\n"))
  {
    FeedConcat(start, typed, last + "\n");
    TypeLast(e, last);
  }

  lemma TypedOne(line: string)
    ensures Typed([line]) == line + "\n"
  {
    assert [line][..0] == [];
  }

  lemma {:induction false} TypedConcat(a: seq<string>, b: seq<string>)
    ensures Typed(a + b) == Typed(a) + Typed(b)
  {
    if |b| == 0 {
      NothingAdded(a);
      NothingAdded(Typed(a));
    } else {
      var init, last := b[..|b| - 1], b[|b| - 1];
      TypedConcat(a, init);
      assert (a + b)[..|a + b| - 1] == a + init;
      Assoc(Typed(a), Typed(init), last + "\n");
    }
  }

  /** A plain line of any length is dispatched as its pieces, and shown as they are. */
  lemma {:induction false} LineIsDispatched(e: Editor, line: string)
    requires IsPlain(line) && |e.line| == 0
    ensures FeedAll(e, line + "\n") == Editor("", e.commands + Pieces(line), e.echo + Typed(Pieces(line)))
    decreases |line|
  {
    if |line| < INPUT_BUFFER_MAX {
      TypeLast(e, line);
      TypedOne(line);
    } else {
      var piece, rest := line[..INPUT_BUFFER_MAX], line[INPUT_BUFFER_MAX..];
      TypePiece(e, piece);
      assert line + "\n" == piece + (rest + "\n");
      FeedConcat(e, piece, rest + "\n");
      LineIsDispatched(FeedAll(e, piece), rest);
      Assoc(e.commands, [piece], Pieces(rest));
      TypedConcat([piece], Pieces(rest));
      TypedOne(piece);
      Assoc(e.echo, piece + "\n", Typed(Pieces(rest)));
    }
  }

  /** Lines typed one after the other. */
  function Typed(lines: seq<string>): string {
    if |lines| == 0 then "" else Typed(lines[..|lines| - 1]) + (lines[|lines| - 1] + "\n")
  }

  predicate AllShortAndPlain(lines: seq<string>) {
    forall line :: line in lines ==> IsPlain(line) && |line| < 512
  }

  /** Plain lines below the maximum length are the commands, and are shown as they are typed. */
  lemma {:induction false} LinesAreCommands(lines: seq<string>)
    requires AllShortAndPlain(lines)
    ensures FeedAll(Editor("", [], ""), Typed(lines)) == Editor("", lines, Typed(lines))
  {
    if |lines| > 0 {
      var init, last := lines[..|lines| - 1], lines[|lines| - 1];
      assert last in lines && lines == init + [last];
      LinesAreCommands(init);
      TypeNext(Editor("", [], ""), Typed(init), Editor("", init, Typed(init)), last);
    }
  }

  /** No command is longer than the maximum, whatever is typed. */
  lemma {:induction false} CommandsFit(e: Editor, s: string)
    requires |e.line| < 512 && forall command :: command in e.commands ==> |command| <= 512
    ensures forall command :: command in FeedAll(e, s).commands ==> |command| <= 512
  {
    if |s| > 0 {
      CommandsFit(e, s[..|s| - 1]);
    }
  }

  lemma FeedOne(e: Editor, c: char)
    ensures FeedAll(e, [c]) == Feed(e, c)
  {
    assert [c][..0] == "";
  }

  /** Backspace takes back the byte before it, and on the screen writes a blank over it; an empty line stays empty. */
  lemma BackspaceTakesBack(e: Editor, c: char)
    requires IsPlain([c]) && |e.line| + 1 < 512
    ensures FeedAll(e, [c, '\U{0008}']) == Editor(e.line, e.commands, e.echo + [c] + "\U{0008} \U{0008}")
    ensures |e.line| == 0 ==> FeedAll(e, "\U{0008}").line == ""
  {
    FeedConcat(e, [c], [BACKSPACE]);
    assert [c] + [BACKSPACE] == [c, BACKSPACE];
    FeedOne(e, c);
    FeedOne(Feed(e, c), BACKSPACE);
    FeedOne(e, BACKSPACE);
    assert [c][0] != TAB;
    assert Feed(e, c).line[..|e.line|] == e.line;
  }

  /** A carriage return is shown and nothing else. */
  lemma ReturnIsShown(e: Editor)
    ensures FeedAll(e, "\r") == e.(echo := e.echo + "\r")
  {
    FeedOne(e, '\r');
  }

  /** A tab types AT+ at the start of a line and nothing elsewhere. */
  lemma TabTypesPrefix(e: Editor)
    ensures FeedAll(e, "\t") == if |e.line| == 0 then FeedAll(e, "AT+") else e
  {
    FeedOne(e, TAB);
    if |e.line| == 0 {
      TypeShort(e, "AT+");
      assert e.line + "AT+" == "AT+";
    }
  }

  function WithoutReturns(s: string): string {
    if |s| == 0 then ""
    else
      var before, c := WithoutReturns(s[..|s| - 1]), s[|s| - 1];
      if c == '\r' then before else before + [c]
  }

  /** Carriage returns, wherever they are, change neither the line nor the commands. */
  lemma {:induction false} ReturnsAreIgnored(e: Editor, s: string)
    ensures FeedAll(e, s).line == FeedAll(e, WithoutReturns(s)).line
    ensures FeedAll(e, s).commands == FeedAll(e, WithoutReturns(s)).commands
  {
    if |s| > 0 {
      var before, c := s[..|s| - 1], s[|s| - 1];
      ReturnsAreIgnored(e, before);
      if c != '\r' {
        var a, b := FeedAll(e, before), FeedAll(e, WithoutReturns(before));
        FeedEcho(b, a.echo, c);
        assert b.(echo := a.echo) == a;
        assert WithoutReturns(s)[..|WithoutReturns(s)| - 1] == WithoutReturns(before);
      }
    }
  }
}
