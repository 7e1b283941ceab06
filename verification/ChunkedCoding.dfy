/**
 The chunked transfer coding of section 4.1 of RFC 7230 (section 7.1 of RFC 9112).
 The encoder is the one the response engine applies to each buffer; the decoder is
 written from the grammar and knows nothing about the engine.
 */
module ChunkedCoding {
  import opened Util

  const CRLF: string := "\r\n"

  function HexDigit(d: nat): (c: char)
    requires d < 16
    ensures HexDigitValue(c) == Some(d)
  {
    "0123456789abcdef"[d]
  }

  /** The value of a HEXDIG of either case. */
  function HexDigitValue(c: char): (v: Option<nat>)
    ensures v.Some? ==> v.value < 16
  {
    if '0' <= c <= '9' then Some((c - '0') as nat)
    else if 'a' <= c <= 'f' then Some((c - 'a') as nat + 10)
    else if 'A' <= c <= 'F' then Some((c - 'A') as nat + 10)
    else None
  }

  predicate AllHex(s: string) {
    |s| > 0 ==> HexDigitValue(s[0]).Some? && AllHex(s[1..])
  }

  lemma {:induction false} AllHexSnoc(a: string, c: char)
    requires AllHex(a) && HexDigitValue(c).Some?
    ensures AllHex(a + [c])
  {
    if |a| == 0 {
      NothingAdded([c]);
    } else {
      AllHexSnoc(a[1..], c);
      assert (a + [c])[1..] == a[1..] + [c];
    }
  }

  /** What printf's "%x" prints: lower case, no leading zero. */
  function Hex(n: nat): (s: string)
    ensures |s| > 0
  {
    if n < 16 then [HexDigit(n)] else Hex(n / 16) + [HexDigit(n % 16)]
  }

  lemma {:induction false} HexIsHex(n: nat)
    ensures AllHex(Hex(n))
  {
    if n >= 16 {
      HexIsHex(n / 16);
      AllHexSnoc(Hex(n / 16), HexDigit(n % 16));
    }
  }

  /** Only small letters are printed, and no zero in front of another digit. */
  lemma {:induction false} HexIsPrinted(n: nat)
    ensures forall c :: c in Hex(n) ==> c in "0123456789abcdef"
    ensures Hex(n)[0] == '0' ==> n == 0
  {
    if n >= 16 {
      HexIsPrinted(n / 16);
    }
  }

  /** The value of a run of hex digits. */
  function HexValue(s: string): nat {
    if |s| == 0 then 0
    else 16 * HexValue(s[..|s| - 1]) + match HexDigitValue(s[|s| - 1]) case Some(d) => d case None => 0
  }

  lemma {:induction false} HexRoundTrip(n: nat)
    ensures HexValue(Hex(n)) == n
  {
    if n < 16 {
      assert HexValue([HexDigit(n)]) == 16 * HexValue([HexDigit(n)][..0]) + n;
    } else {
      HexRoundTrip(n / 16);
      assert Hex(n)[..|Hex(n)| - 1] == Hex(n / 16);
    }
  }

  /** How many digits a size takes: at most four exactly for sizes up to 0xffff. */
  lemma {:induction false} HexLength(n: nat)
    ensures |Hex(n)| <= 1 <==> n <= 0xf
    ensures |Hex(n)| <= 2 <==> n <= 0xff
    ensures |Hex(n)| <= 3 <==> n <= 0xfff
    ensures |Hex(n)| <= 4 <==> n <= 0xffff
  {
    if n >= 16 {
      HexLength(n / 16);
    }
  }

  function Chunk(data: string): string {
    Hex(|data|) + CRLF + data + CRLF
  }

  function Chunks(parts: seq<string>): string {
    if |parts| == 0 then "" else Chunk(parts[0]) + Chunks(parts[1..])
  }

  /** Length of the longest run of hex digits at the start of `s`. */
  function HexRun(s: string): (k: nat)
    ensures k <= |s|
  {
    if |s| > 0 && HexDigitValue(s[0]).Some? then 1 + HexRun(s[1..]) else 0
  }

  /** Carriage return and line feed. */
  predicate IsLineEnd(s: string, i: nat)
    requires i + 2 <= |s|
  {
    s[i] == '\r' && s[i + 1] == '\n'
  }

  datatype Decoded = Decoded(body: string, rest: string)

  /** Reads one chunk: its data and what follows it; None if `s` ends or is malformed before that. */
  function NextChunk(s: string): (r: Option<Decoded>)
    ensures r.Some? ==> |r.value.rest| < |s|
  {
    var k := HexRun(s);
    var n := HexValue(s[..k]);
    if k == 0 || |s| < k + n + 4 || !IsLineEnd(s, k) || !IsLineEnd(s, k + 2 + n) then None
    else Some(Decoded(s[k + 2..k + 2 + n], s[k + 4 + n..]))
  }

  /** Reads chunks up to and including the last (zero-sized) one. */
  function Dechunk(s: string): Option<Decoded>
    decreases |s|
  {
    match NextChunk(s)
    case None => None
    case Some(c) =>
      if |c.body| == 0 then Some(c)
      else match Dechunk(c.rest)
           case None => None
           case Some(d) => Some(Decoded(c.body + d.body, d.rest))
  }

  lemma {:induction false} HexRunIsHex(s: string)
    ensures AllHex(s[..HexRun(s)])
  {
    if |s| > 0 && HexDigitValue(s[0]).Some? {
      HexRunIsHex(s[1..]);
      assert s[..HexRun(s)][1..] == s[1..][..HexRun(s[1..])];
    }
  }

  lemma {:induction false} HexRunStops(digits: string, tail: string)
    requires AllHex(digits)
    requires |tail| > 0 && HexDigitValue(tail[0]).None?
    ensures HexRun(digits + tail) == |digits|
  {
    if |digits| == 0 {
      assert digits + tail == tail;
    } else {
      assert (digits + tail)[1..] == digits[1..] + tail;
      HexRunStops(digits[1..], tail);
    }
  }

  lemma ChunkLayout(digits: string, data: string, tail: string, s: string)
    requires s == digits + CRLF + data + CRLF + tail
    ensures var k, n := |digits|, |data|;
            && |s| >= k + n + 4
            && s[..k] == digits
            && s[k..k + 2] == CRLF
            && s[k + 2..k + 2 + n] == data
            && s[k + 2 + n..k + 4 + n] == CRLF
            && s[k + 4 + n..] == tail
  {
  }

  lemma HexRunOfChunk(digits: string, data: string, tail: string, s: string)
    requires AllHex(digits)
    requires s == digits + CRLF + data + CRLF + tail
    ensures HexRun(s) == |digits|
  {
    var after := CRLF + data + CRLF + tail;
    assert s == digits + after;
    HexRunStops(digits, after);
  }

  lemma NextChunkOfLayout(digits: string, data: string, tail: string, s: string)
    requires |digits| > 0 && AllHex(digits) && HexValue(digits) == |data|
    requires s == digits + CRLF + data + CRLF + tail
    ensures NextChunk(s) == Some(Decoded(data, tail))
  {
    HexRunOfChunk(digits, data, tail, s);
    ChunkLayout(digits, data, tail, s);
  }

  lemma NextChunkInvertsChunk(data: string, tail: string)
    ensures NextChunk(Chunk(data) + tail) == Some(Decoded(data, tail))
  {
    HexIsHex(|data|);
    HexRoundTrip(|data|);
    NextChunkOfLayout(Hex(|data|), data, tail, Chunk(data) + tail);
  }

  lemma {:induction false} ChunksSnoc(parts: seq<string>, data: string)
    ensures Chunks(parts + [data]) == Chunks(parts) + Chunk(data)
  {
    if |parts| == 0 {
      NothingAdded([data]);
      NothingAdded(Chunk(data));
    } else {
      ChunksSnoc(parts[1..], data);
      assert (parts + [data])[1..] == parts[1..] + [data];
      Assoc(Chunk(parts[0]), Chunks(parts[1..]), Chunk(data));
    }
  }

  /** Decoding non-empty chunks followed by the last chunk gives back their concatenation. */
  lemma {:induction false} DechunkInvertsChunks(parts: seq<string>, rest: string)
    requires forall i :: 0 <= i < |parts| ==> |parts[i]| > 0
    ensures Dechunk(Chunks(parts) + Chunk("") + rest) == Some(Decoded(Flatten(parts), rest))
  {
    if |parts| == 0 {
      NothingAdded(Chunk(""));
      NextChunkInvertsChunk("", rest);
    } else {
      var tail := Chunks(parts[1..]) + Chunk("") + rest;
      Assoc(Chunk(parts[0]), Chunks(parts[1..]), Chunk(""));
      Assoc(Chunk(parts[0]), Chunks(parts[1..]) + Chunk(""), rest);
      NextChunkInvertsChunk(parts[0], tail);
      DechunkInvertsChunks(parts[1..], rest);
    }
  }

  /** The same for a list that carries the last chunk as its final, empty part. */
  lemma DechunkInvertsFills(parts: seq<string>)
    requires |parts| > 0 && |parts[|parts| - 1]| == 0
    requires forall i :: 0 <= i < |parts| - 1 ==> |parts[i]| > 0
    ensures Dechunk(Chunks(parts)) == Some(Decoded(Flatten(parts), ""))
  {
    var body := parts[..|parts| - 1];
    assert parts == body + [""];
    ChunksSnoc(body, "");
    FlattenSnoc(body, "");
    NothingAdded(Flatten(body));
    NothingAdded(Chunks(parts));
    DechunkInvertsChunks(body, "");
  }

  lemma NextChunkStable(s: string, more: string)
    requires NextChunk(s).Some?
    ensures NextChunk(s + more) == Some(Decoded(NextChunk(s).value.body, NextChunk(s).value.rest + more))
  {
    var k := HexRun(s);
    var n := HexValue(s[..k]);
    var c := NextChunk(s).value;
    assert s == s[..k] + CRLF + c.body + CRLF + c.rest by {
      assert s == s[..k] + s[k..k + 2] + s[k + 2..k + 2 + n] + s[k + 2 + n..k + 4 + n] + s[k + 4 + n..];
    }
    HexRunIsHex(s);
    NextChunkOfLayout(s[..k], c.body, c.rest + more, s + more);
  }

  /** More input never changes what has been decoded. */
  lemma {:induction false} DechunkStable(s: string, more: string)
    requires Dechunk(s).Some?
    ensures Dechunk(s + more) == Some(Decoded(Dechunk(s).value.body, Dechunk(s).value.rest + more))
    decreases |s|
  {
    NextChunkStable(s, more);
    var c := NextChunk(s).value;
    if |c.body| > 0 {
      DechunkStable(c.rest, more);
    }
  }

  /** A receiver that has seen only part of a complete message never takes it for a complete one. */
  lemma DechunkRejectsTruncation(parts: seq<string>, seen: string)
    requires forall i :: 0 <= i < |parts| ==> |parts[i]| > 0
    requires seen < Chunks(parts) + Chunk("")
    ensures Dechunk(seen).None?
  {
    var all := Chunks(parts) + Chunk("");
    var more := all[|seen|..];
    assert all == seen + more;
    NothingAdded(all);
    DechunkInvertsChunks(parts, "");
    if Dechunk(seen).Some? {
      DechunkStable(seen, more);
      assert false;
    }
  }
}
