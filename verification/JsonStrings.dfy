/**
 Names inside JSON texts: src/async_web_response.cpp puts a backslash in front of the quotation marks of a network name
 and nothing else. The reader is written from section 7 of RFC 8259; a name comes back exactly when that is enough.
 */
module JsonStrings {
  import opened Util

  const QUOTE: char := '"'
  const BACKSLASH: char := '\\'

  /** `replace("\"", "\\\"")`. */
  function Escaped(s: string): (text: string) {
    if |s| == 0 then ""
    else if s[0] == QUOTE then [BACKSLASH, QUOTE] + Escaped(s[1..])
    else [s[0]] + Escaped(s[1..])
  }

  function Hex(c: char): Option<nat> {
    if '0' <= c <= '9' then Some(c as nat - '0' as nat)
    else if 'a' <= c <= 'f' then Some(c as nat - 'a' as nat + 10)
    else if 'A' <= c <= 'F' then Some(c as nat - 'A' as nat + 10)
    else None
  }

  /** What stands for another character behind a backslash. */
  function Unescaped(c: char): Option<char> {
    match c
    case '"' => Some('"')
    case '\\' => Some('\\')
    case '/' => Some('/')
    case 'b' => Some(8 as char)
    case 'f' => Some(12 as char)
    case 'n' => Some('\n')
    case 'r' => Some('\r')
    case 't' => Some('\t')
    case _ => None
  }

  predicate IsCodeUnit(s: string) {
    |s| >= 4 && Hex(s[0]).Some? && Hex(s[1]).Some? && Hex(s[2]).Some? && Hex(s[3]).Some?
  }

  function CodeUnit(s: string): nat
    requires IsCodeUnit(s)
  {
    ((Hex(s[0]).value * 16 + Hex(s[1]).value) * 16 + Hex(s[2]).value) * 16 + Hex(s[3]).value
  }

  /** One character of a string, and how much text it takes: characters below 32 are not allowed. */
  function Next(s: string): (next: Option<(nat, nat)>)
    requires |s| > 0
    ensures next.Some? ==> 0 < next.value.1 <= |s|
  {
    if s[0] as nat < 0x20 || s[0] == QUOTE then None
    else if s[0] != BACKSLASH then Some((s[0] as nat, 1))
    else if |s| >= 2 && s[1] == 'u' then if IsCodeUnit(s[2..]) then Some((CodeUnit(s[2..]), 6)) else None
    else if |s| >= 2 && Unescaped(s[1]).Some? then Some((Unescaped(s[1]).value as nat, 2))
    else None
  }

  datatype Result = Result(codes: seq<nat>, rest: string)

  /** The characters up to the closing quotation mark, as numbers, and what is behind it. */
  function ReadString(s: string): (r: Option<Result>)
    ensures r.Some? ==> |r.value.rest| < |s|
    decreases |s|
  {
    if |s| == 0 then None
    else if s[0] == QUOTE then Some(Result([], s[1..]))
    else
      match Next(s)
      case None => None
      case Some((code, taken)) =>
        match ReadString(s[taken..])
        case None => None
        case Some(r) => Some(Result([code] + r.codes, r.rest))
  }

  function Codes(s: string): (codes: seq<nat>)
    ensures |codes| == |s|
  {
    if |s| == 0 then [] else [s[0] as nat] + Codes(s[1..])
  }

  /** No backslash and no control character. */
  predicate IsSimple(s: string) {
    |s| == 0 || (s[0] != BACKSLASH && s[0] as nat >= 0x20 && IsSimple(s[1..]))
  }

  /** A name in a text: escaped, in front of the closing quotation mark. */
  function Text(s: string, tail: string): (text: string)
    ensures |text| > |tail|
  {
    Escaped(s) + ([QUOTE] + tail)
  }

  lemma TextOfFirst(s: string, tail: string)
    requires |s| > 0
    ensures Text(s, tail) == if s[0] == QUOTE then [BACKSLASH, QUOTE] + Text(s[1..], tail)
                             else [s[0]] + Text(s[1..], tail)
  {
    Assoc(if s[0] == QUOTE then [BACKSLASH, QUOTE] else [s[0]], Escaped(s[1..]), [QUOTE] + tail);
  }

  lemma ReadNext(front: string, behind: string, code: nat)
    requires |front| > 0 && front[0] != QUOTE && Next(front + behind) == Some((code, |front|))
    ensures ReadString(front + behind) ==
            match ReadString(behind) case None => None case Some(r) => Some(Result([code] + r.codes, r.rest))
  {
    assert (front + behind)[|front|..] == behind;
  }

  /** A character other than a backslash takes its own place. */
  lemma ReadFirst(s: string, tail: string)
    requires |s| > 0 && s[0] != BACKSLASH && s[0] as nat >= 0x20
    ensures ReadString(Text(s, tail)) ==
            match ReadString(Text(s[1..], tail))
            case None => None
            case Some(r) => Some(Result([s[0] as nat] + r.codes, r.rest))
  {
    TextOfFirst(s, tail);
    ReadNext(if s[0] == QUOTE then [BACKSLASH, QUOTE] else [s[0]], Text(s[1..], tail), s[0] as nat);
  }

  lemma HexIsOrdinary(s: string, tail: string)
    requires Hex(Text(s, tail)[0]).Some?
    ensures |s| > 0 && Text(s, tail) == [s[0]] + Text(s[1..], tail)
  {
    if |s| > 0 {
      TextOfFirst(s, tail);
    }
  }

  lemma CodeUnitIsOrdinary(s: string, tail: string)
    requires IsCodeUnit(Text(s, tail))
    ensures |s| >= 4 && Text(s, tail)[4..] == Text(s[4..], tail)
  {
    HexIsOrdinary(s, tail);
    HexIsOrdinary(s[1..], tail);
    HexIsOrdinary(s[2..], tail);
    HexIsOrdinary(s[3..], tail);
    assert s[1..][1..] == s[2..] && s[2..][1..] == s[3..] && s[3..][1..] == s[4..];
  }

  /** A backslash takes at least one more character of the name with it. */
  lemma BackslashTakesMore(s: string, tail: string, codes: seq<nat>) returns (k: nat)
    requires |s| > 0 && s[0] == BACKSLASH && ReadString(Text(s, tail)) == Some(Result(codes, tail))
    ensures 2 <= k <= |s| && |codes| > 0
    ensures ReadString(Text(s[k..], tail)) == Some(Result(codes[1..], tail))
  {
    var text, behind := Text(s, tail), Text(s[1..], tail);
    TextOfFirst(s, tail);
    assert text[1..] == behind && text[2..] == behind[1..];
    if |s| == 1 {
      assert false;
    }
    TextOfFirst(s[1..], tail);
    if s[1] == QUOTE {
      assert false;
    }
    assert behind[1..] == Text(s[2..], tail);
    if s[1] == 'u' {
      CodeUnitIsOrdinary(s[2..], tail);
      k := 6;
      assert text[6..] == text[2..][4..] && s[2..][4..] == s[6..];
    } else {
      k := 2;
    }
  }

  /** What is read of a name is not longer, and is shorter when a backslash comes first. */
  lemma {:induction false} NotLonger(s: string, tail: string, codes: seq<nat>)
    requires ReadString(Text(s, tail)) == Some(Result(codes, tail))
    ensures |codes| <= |s| && (|s| > 0 && s[0] == BACKSLASH ==> |codes| < |s|)
    decreases |s|
  {
    if |s| > 0 {
      if s[0] == BACKSLASH {
        var k := BackslashTakesMore(s, tail, codes);
        NotLonger(s[k..], tail, codes[1..]);
      } else if s[0] as nat < 0x20 {
        TextOfFirst(s, tail);
      } else {
        ReadFirst(s, tail);
        NotLonger(s[1..], tail, codes[1..]);
      }
    }
  }

  /** A name in a text is read as it is exactly when it has no backslash and no control character. */
  lemma {:induction false} NameComesBackExactly(s: string, tail: string)
    ensures ReadString(Text(s, tail)) == Some(Result(Codes(s), tail)) <==> IsSimple(s)
  {
    if |s| == 0 {
      NothingAdded([QUOTE] + tail);
      assert ([QUOTE] + tail)[1..] == tail;
    } else {
      if s[0] == BACKSLASH {
        if ReadString(Text(s, tail)) == Some(Result(Codes(s), tail)) {
          NotLonger(s, tail, Codes(s));
        }
      } else if s[0] as nat < 0x20 {
        TextOfFirst(s, tail);
      } else {
        ReadFirst(s, tail);
        NameComesBackExactly(s[1..], tail);
        var r := ReadString(Text(s[1..], tail));
        assert r.Some? ==> ([s[0] as nat] + r.value.codes)[1..] == r.value.codes;
      }
    }
  }

  lemma NoQuoteFirst(s: string)
    ensures |s| > 0 ==> Escaped(s)[0] == if s[0] == QUOTE then BACKSLASH else s[0]
    ensures |Escaped(s)| > 0 <==> |s| > 0
  {
  }

  /** Different names are written differently. */
  lemma {:induction false} EscapedDiffers(a: string, b: string)
    requires Escaped(a) == Escaped(b)
    ensures a == b
  {
    NoQuoteFirst(a);
    NoQuoteFirst(b);
    if |a| > 0 {
      NoQuoteFirst(a[1..]);
      NoQuoteFirst(b[1..]);
      assert a[0] == QUOTE ==> Escaped(a)[1] == QUOTE;
      assert b[0] == QUOTE ==> Escaped(b)[1] == QUOTE;
      var n := if a[0] == QUOTE then 2 else 1;
      assert Escaped(a)[n..] == Escaped(a[1..]) && Escaped(b)[n..] == Escaped(b[1..]);
      EscapedDiffers(a[1..], b[1..]);
      assert a == [a[0]] + a[1..] && b == [b[0]] + b[1..];
    }
  }
}
