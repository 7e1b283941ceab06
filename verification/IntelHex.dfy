/**
 The reader of lib/KFCBaseLibrary/src/IntelHexFormat.cpp. The file is a string of octets. What its records hold is
 stated by a parser on the text; the object delivers exactly that in pieces of any size, for every file, broken ones
 included. The parser in turn inverts an encoder written from the format's specification.
 */
module IntelHex {
  import opened Util

  type nibble = x: nat | x < 16

  datatype ErrorEnum = NONE | FAILED_TO_OPEN | READ_ERROR | INVALID_CHECKSUM | RECORD_TYPE_NOT_SUPPORTED
                     | INVALID_CHARACTER | EOF_BEFORE_END

  function Code(error: ErrorEnum): int {
    match error
    case NONE => 0
    case FAILED_TO_OPEN => 1
    case READ_ERROR => 2
    case INVALID_CHECKSUM => 3
    case RECORD_TYPE_NOT_SUPPORTED => 4
    case INVALID_CHARACTER => 5
    case EOF_BEFORE_END => 6
  }

  /** An error is told by a positive number of its own. */
  lemma CodesTellErrors(a: ErrorEnum, b: ErrorEnum)
    ensures Code(a) > 0 <==> a != NONE
    ensures Code(a) == Code(b) <==> a == b
  {
  }

  const RT_DATA: byte := 0x00
  const RT_EOF: byte := 0x01

  // ---------------------------------------------------------------- characters

  predicate IsSpace(c: char) {
    c == ' ' || '\t' <= c <= '\r'
  }

  function HexValue(c: char): Option<nibble> {
    if '0' <= c <= '9' then Some((c as int - '0' as int))
    else if 'a' <= c <= 'f' then Some((c as int - 'a' as int + 10))
    else if 'A' <= c <= 'F' then Some((c as int - 'A' as int + 10))
    else None
  }

  lemma DigitsExactly(c: char)
    ensures HexValue(c).Some? <==> c in "0123456789abcdefABCDEF"
  {
    if HexValue(c).Some? {
      var i := if c <= '9' then c as int - '0' as int
               else if c >= 'a' then c as int - 'a' as int + 10 else c as int - 'A' as int + 16;
      assert "0123456789abcdefABCDEF"[i] == c;
    }
  }

  /** Two hexadecimal digits. */
  function HexByte(s: string, pos: nat): Option<byte> {
    if |s| < pos + 2 then None
    else
      match (HexValue(s[pos]), HexValue(s[pos + 1]))
      case (Some(high), Some(low)) => Some(high as nat * 16 + low as nat)
      case _ => None
  }

  function HexBytes(s: string, pos: nat, n: nat): (r: Option<seq<byte>>)
    ensures r.Some? ==> |r.value| == n && (n > 0 ==> pos + 2 * n <= |s|)
  {
    if n == 0 then Some([])
    else
      match (HexBytes(s, pos, n - 1), HexByte(s, pos + 2 * (n - 1)))
      case (Some(bytes), Some(last)) => Some(bytes + [last])
      case _ => None
  }

  lemma {:induction false} HexBytesFails(s: string, pos: nat, k: nat, n: nat)
    requires k <= n && HexBytes(s, pos, k).None?
    ensures HexBytes(s, pos, n).None?
  {
    if k < n {
      HexBytesFails(s, pos, k, n - 1);
    }
  }

  function Sum(bytes: seq<byte>): nat {
    if |bytes| == 0 then 0 else Sum(bytes[..|bytes| - 1]) + bytes[|bytes| - 1]
  }

  // ---------------------------------------------------------------- what the text says

  datatype Record = Data(address: uint16, bytes: seq<byte>) | Eof

  datatype Parsed = Parsed(record: Record, next: nat) | Failure(error: ErrorEnum)

  function SkipSpace(s: string, pos: nat): (p: nat)
    requires pos <= |s|
    ensures pos <= p <= |s| && (p == |s| || !IsSpace(s[p]))
    decreases |s| - pos
  {
    if pos < |s| && IsSpace(s[pos]) then SkipSpace(s, pos + 1) else pos
  }

  /** The record behind a colon: count, address and type, data, and a check byte that makes the sum of all bytes 0. */
  function ParseFields(s: string, pos: nat): (r: Parsed)
    requires pos <= |s|
    ensures r.Parsed? ==> pos < r.next <= |s|
  {
    match HexBytes(s, pos, 4)
    case None => Failure(READ_ERROR)
    case Some(header) => ParseBody(s, pos + 8, header)
  }

  /** Data and check byte. */
  function ParseBody(s: string, pos: nat, header: seq<byte>): (r: Parsed)
    requires pos <= |s| && |header| == 4
    ensures r.Parsed? ==> pos < r.next <= |s|
  {
    var end := pos + 2 * header[0] as nat;
    match (HexBytes(s, pos, header[0]), HexByte(s, end))
    case (Some(data), Some(check)) => Checked(header, data, check, end + 2)
    case _ => Failure(READ_ERROR)
  }

  function Checked(header: seq<byte>, data: seq<byte>, check: byte, next: nat): (r: Parsed)
    requires |header| == 4
    ensures r.Parsed? ==> r.next == next
  {
    if (Sum(header) + Sum(data) + check) % 0x100 != 0 then Failure(INVALID_CHECKSUM)
    else if header[3] == RT_EOF then Parsed(Eof, next)
    else if header[3] == RT_DATA then Parsed(Data(header[1] as nat * 0x100 + header[2] as nat, data), next)
    else Failure(RECORD_TYPE_NOT_SUPPORTED)
  }

  function ParseRecord(s: string, pos: nat): (r: Parsed)
    requires pos <= |s|
    ensures r.Parsed? ==> pos < r.next <= |s|
  {
    var p := SkipSpace(s, pos);
    if p == |s| then Failure(EOF_BEFORE_END)
    else if s[p] != ':' then Failure(INVALID_CHARACTER)
    else ParseFields(s, p + 1)
  }

  /** A byte and the address it is for. */
  datatype Placed = Placed(address: uint16, value: byte)

  /** Bytes from an address on; addresses have 16 bits. */
  function Place(address: uint16, bytes: seq<byte>): (placed: seq<Placed>)
    ensures |placed| == |bytes|
    decreases |bytes|
  {
    if |bytes| == 0 then []
    else [Placed(address, bytes[0])] + Place((address + 1) % 0x1_0000, bytes[1..])
  }

  /** The bytes of all records up to the EOF record, or to the first failure. */
  function Bytes(s: string, pos: nat): seq<Placed>
    requires pos <= |s|
    decreases |s| - pos
  {
    match ParseRecord(s, pos)
    case Parsed(Data(address, bytes), next) => Place(address, bytes) + Bytes(s, next)
    case _ => []
  }

  datatype Outcome = AtEof | Failed(error: ErrorEnum)

  /** What is behind those bytes. */
  function Ending(s: string, pos: nat): Outcome
    requires pos <= |s|
    decreases |s| - pos
  {
    match ParseRecord(s, pos)
    case Parsed(Data(_, _), next) => Ending(s, next)
    case Parsed(Eof, _) => AtEof
    case Failure(error) => Failed(error)
  }

  function Larger(a: uint16, b: uint16): uint16 { if a < b then b else a }

  /** Where data from an address on ends. */
  function EndOf(address: uint16, bytes: seq<byte>): uint16 { (address + |bytes|) % 0x1_0000 }

  /** The largest end of a record, from `sofar` on. */
  function EndAddress(s: string, pos: nat, sofar: uint16): uint16
    requires pos <= |s|
    decreases |s| - pos
  {
    match ParseRecord(s, pos)
    case Parsed(Data(address, bytes), next) =>
      EndAddress(s, next, Larger(sofar, EndOf(address, bytes)))
    case _ => sofar
  }

  /** Each byte is for the address behind that of the byte before it, in 16 bits. */
  lemma {:induction false} PlacedAt(address: uint16, bytes: seq<byte>, i: nat)
    requires i < |bytes|
    ensures Place(address, bytes)[i] == Placed((address + i) % 0x1_0000, bytes[i])
    decreases |bytes|
  {
    if i > 0 {
      AddressMovesOn(address, i);
      PlacedAt((address + 1) % 0x1_0000, bytes[1..], i - 1);
    }
  }

  lemma AddressMovesOn(address: nat, k: nat)
    requires k > 0
    ensures ((address + 1) % 0x1_0000 + (k - 1)) % 0x1_0000 == (address + k) % 0x1_0000
  {
  }

  lemma {:induction false} PlaceSplit(address: uint16, bytes: seq<byte>, k: nat)
    requires k <= |bytes|
    decreases |bytes|
    ensures Place(address, bytes) == Place(address, bytes[..k]) + Place((address + k) % 0x1_0000, bytes[k..])
  {
    if k == 0 {
      assert bytes[0..] == bytes;
      NothingAdded(Place(address, bytes));
    } else {
      var next := (address + 1) % 0x1_0000;
      PlaceSplit(next, bytes[1..], k - 1);
      assert bytes[1..][..k - 1] == bytes[..k][1..] && bytes[1..][k - 1..] == bytes[k..];
      AddressMovesOn(address, k);
      Assoc([Placed(address, bytes[0])], Place(next, bytes[..k][1..]), Place((address + k) % 0x1_0000, bytes[k..]));
    }
  }

  // ---------------------------------------------------------------- the reader

  class IntelHexFormat {
    const file: string
    var position: nat
    var eof: bool
    var error: ErrorEnum
    var endAddress: uint16
    var recordAddress: uint16
    var recordData: seq<byte>

    ghost predicate Valid()
      reads this
    {
      position <= |file| && |recordData| <= 0xff
    }

    /** What is still to be delivered: the rest of the record at hand, and the records behind it. */
    ghost function Pending(): seq<Placed>
      requires Valid()
      reads this
    {
      Place(recordAddress, recordData) + if eof then [] else Bytes(file, position)
    }

    ghost function Outlook(): Outcome
      requires Valid()
      reads this
    {
      if eof then AtEof else Ending(file, position)
    }

    /** `open` of a file that exists. */
    constructor (file: string)
      ensures Valid() && this.file == file && position == 0 && error == NONE && !eof && endAddress == 0
      ensures |recordData| == 0
    {
      this.file, position, eof, error, endAddress := file, 0, false, NONE, 0;
      recordAddress, recordData := 0, [];
    }

    method Reset()
      modifies `position, `eof, `error, `recordData
      ensures Valid() && position == 0 && error == NONE && !eof && |recordData| == 0
    {
      eof, error, recordData, position := false, NONE, [], 0;
    }

    /** The next octet of the file, or -1. */
    method ReadChar() returns (c: int)
      requires Valid()
      modifies `position
      ensures Valid()
      ensures old(position) < |file| ==> position == old(position) + 1 && c == file[old(position)] as int
      ensures old(position) == |file| ==> position == old(position) && c == -1
    {
      if position < |file| {
        c := file[position] as int;
        position := position + 1;
      } else {
        c := -1;
      }
    }

    method ReadHexByte() returns (value: int)
      requires Valid()
      modifies `position
      ensures Valid()
      ensures match HexByte(file, old(position))
              case Some(b) => value == b && position == old(position) + 2
              case None => value == -1
    {
      var start := position;
      var highByte := ReadChar();
      var lowByte := ReadChar();
      if highByte == -1 || lowByte == -1 {
        return -1;
      }
      var high, low := HexValue(file[start]), HexValue(file[start + 1]);
      if high.None? || low.None? {
        return -1;
      }
      return high.value as nat * 16 + low.value as nat;
    }

    /** The next `n` bytes; the check sum has 8 bits. */
    method ReadHexBytes(n: nat, checksum: byte) returns (ok: bool, bytes: seq<byte>, checksum': byte)
      requires Valid()
      modifies `position
      ensures Valid()
      ensures match HexBytes(file, old(position), n)
              case Some(all) => ok && bytes == all && position == old(position) + 2 * n &&
                                checksum' as nat == (checksum as nat + Sum(bytes)) % 0x100
              case None => !ok
    {
      bytes, checksum' := [], checksum;
      var count := n;
      while count > 0
        invariant Valid() && |bytes| + count == n && position == old(position) + 2 * |bytes|
        invariant HexBytes(file, old(position), |bytes|) == Some(bytes)
        invariant checksum' as nat == (checksum as nat + Sum(bytes)) % 0x100
      {
        count := count - 1;
        var value := ReadHexByte();
        if value == -1 {
          HexBytesFails(file, old(position), |bytes| + 1, n);
          return false, [], 0;
        }
        SumNext(bytes, value);
        CarriedSum(checksum' as nat, checksum as nat + Sum(bytes), value);
        bytes := bytes + [value];
        checksum' := (checksum' as nat + value) % 0x100;
      }
      ok := true;
    }

    method ReadRecord(store: bool) returns (ok: bool)
      requires Valid() && !eof
      modifies `position, `eof, `error, `endAddress, `recordAddress, `recordData
      ensures Valid()
      ensures Taken(ParseRecord(file, old(position)), store, ok, old(error), old(endAddress), old(recordAddress),
                    old(recordData))
    {
      while position < |file|
        invariant Valid() && !eof && error == old(error) && endAddress == old(endAddress)
        invariant recordAddress == old(recordAddress) && recordData == old(recordData)
        invariant SkipSpace(file, old(position)) == SkipSpace(file, position)
      {
        var c := ReadChar();
        if c == ':' as int {
          ok := ReadFields(store);
          return;
        } else if IsSpace(c as char) {
        } else {
          error := INVALID_CHARACTER;
          return false;
        }
      }
      error := EOF_BEFORE_END;
      return false;
    }

    /** The state after a record was taken from the file. */
    ghost predicate Taken(parsed: Parsed, store: bool, ok: bool, error: ErrorEnum, endAddress: uint16,
                          recordAddress: uint16, recordData: seq<byte>)
      reads this
    {
      && (parsed.Failure? ==> !ok && !eof && this.error == parsed.error)
      && (parsed.Parsed? ==> ok && position == parsed.next && this.error == error && eof == parsed.record.Eof?)
      && (if parsed.Parsed? && parsed.record.Data? && store
          then this.recordAddress == parsed.record.address && this.recordData == parsed.record.bytes
          else this.recordAddress == recordAddress && this.recordData == recordData)
      && (this.endAddress ==
          if parsed.Parsed? && parsed.record.Data? && !store
          then Larger(endAddress, EndOf(parsed.record.address, parsed.record.bytes)) else endAddress)
    }

    /** Behind the colon. */
    method ReadFields(store: bool) returns (ok: bool)
      requires Valid() && !eof
      modifies `position, `eof, `error, `endAddress, `recordAddress, `recordData
      ensures Valid()
      ensures Taken(ParseFields(file, old(position)), store, ok, old(error), old(endAddress), old(recordAddress),
                    old(recordData))
    {
      var header, data, value, checksum;
      ok, header, data, value, checksum := ReadParts();
      if !ok {
        error := READ_ERROR;
        return;
      }
      ok := TakeRecord(header, data, value, checksum, store);
    }

    /** All hexadecimal digits of a record; the checksum is that of all bytes but the check byte. */
    method ReadParts() returns (ok: bool, header: seq<byte>, data: seq<byte>, check: byte, checksum: byte)
      requires Valid()
      modifies `position
      ensures Valid()
      ensures ok ==> |header| == 4 && |data| == header[0] as nat
      ensures ok ==> checksum as nat == (Sum(header) + Sum(data)) % 0x100
      ensures ParseFields(file, old(position)) ==
              if ok then Checked(header, data, check, position) else Failure(READ_ERROR)
    {
      data, check := [], 0;
      ok, header, checksum := ReadHexBytes(4, 0);
      if !ok {
        return;
      }
      ok, data, check, checksum := ReadBody(header, checksum);
    }

    /** The data of a record, and its check byte. */
    method ReadBody(header: seq<byte>, sum: byte) returns (ok: bool, data: seq<byte>, check: byte, checksum: byte)
      requires Valid() && |header| == 4 && sum as nat == Sum(header) % 0x100
      modifies `position
      ensures Valid()
      ensures ok ==> |data| == header[0] as nat && checksum as nat == (Sum(header) + Sum(data)) % 0x100
      ensures ParseBody(file, old(position), header) ==
              if ok then Checked(header, data, check, position) else Failure(READ_ERROR)
    {
      check := 0;
      ok, data, checksum := ReadHexBytes(header[0], sum);
      if !ok {
        return;
      }
      CarriedSum(sum, Sum(header), Sum(data));
      var value := ReadHexByte();
      if value == -1 {
        ok := false;
      } else {
        check := value;
      }
    }

    /** A record was read up to the end; `checksum` is the sum of all but its check byte. */
    method TakeRecord(header: seq<byte>, data: seq<byte>, check: byte, checksum: byte, store: bool) returns (ok: bool)
      requires Valid() && !eof && |header| == 4 && |data| == header[0] as nat
      requires checksum as nat == (Sum(header) + Sum(data)) % 0x100
      modifies `eof, `error, `endAddress, `recordAddress, `recordData
      ensures Valid()
      ensures Taken(Checked(header, data, check, position), store, ok, old(error), old(endAddress), old(recordAddress),
                    old(recordData))
    {
      CheckByte(checksum, Sum(header) + Sum(data), check);
      if check as nat != (0x100 - checksum as nat) % 0x100 {
        error := INVALID_CHECKSUM;
        return false;
      }
      if header[3] == RT_EOF {
        eof := true;
        return true;
      } else if header[3] != RT_DATA {
        error := RECORD_TYPE_NOT_SUPPORTED;
        return false;
      }
      var address: uint16 := header[1] as nat * 0x100 + header[2] as nat;
      if store {
        recordAddress, recordData := address, data;
      } else {
        endAddress := Larger(endAddress, (address + |data|) % 0x1_0000);
      }
      return true;
    }

    /** Reads the whole file without keeping anything, up to the EOF record. */
    method Validate() returns (ok: bool)
      requires Valid()
      modifies this
      ensures Valid()
      ensures ok <==> Ending(file, 0).AtEof?
      ensures ok ==> position == 0 && error == NONE && !eof && |recordData| == 0
      ensures !ok ==> Failed(error) == Ending(file, 0)
      ensures endAddress == EndAddress(file, 0, 0)
    {
      endAddress := 0;
      Reset();
      while !eof
        invariant Valid() && error == NONE && Outlook() == Ending(file, 0)
        invariant if eof then endAddress == EndAddress(file, 0, 0)
                  else EndAddress(file, position, endAddress) == EndAddress(file, 0, 0)
        decreases !eof, |file| - position
      {
        ok := ReadRecord(false);
        if !ok {
          return;
        }
      }
      Reset();
      return true;
    }

    /** Gives the first bytes of the record at hand and keeps the others. */
    method Deliver(buffer: array<byte>) returns (read: nat, address: uint16)
      requires Valid() && |recordData| > 0
      modifies buffer, `recordAddress, `recordData
      ensures Valid() && address == old(recordAddress)
      ensures read <= buffer.Length && (buffer.Length > 0 ==> read > 0)
      ensures buffer[read..] == old(buffer[read..])
      ensures Place(old(recordAddress), old(recordData)) ==
              Place(address, buffer[..read]) + Place(recordAddress, recordData)
    {
      address, read := recordAddress, |recordData|;
      if read > buffer.Length {
        read := buffer.Length;
      }
      PlaceSplit(recordAddress, recordData, read);
      for i := 0 to read
        modifies buffer
        invariant buffer[..i] == recordData[..i] && buffer[read..] == old(buffer[read..])
      {
        buffer[i] := recordData[i];
      }
      recordData := recordData[read..];
      recordAddress := (recordAddress + read) % 0x1_0000;
    }

    /** Delivers the next piece, of at most the buffer's length; `address0` is kept if there is none. */
    method ReadBytes(buffer: array<byte>, address0: uint16) returns (result: int, address: uint16)
      requires Valid()
      modifies buffer, `position, `eof, `error, `endAddress, `recordAddress, `recordData
      ensures Valid()
      ensures old(error) != NONE ==> result == Code(old(error)) && error == old(error)
      ensures old(error) == NONE ==> -1 <= result <= buffer.Length
      ensures old(error) == NONE && result >= 0 ==> error == NONE && Outlook() == old(Outlook())
      ensures old(error) == NONE && result >= 0 ==> old(Pending()) == Place(address, buffer[..result]) + Pending()
      ensures old(error) == NONE && buffer.Length > 0 ==> (result > 0 <==> |old(Pending())| > 0)
      ensures old(error) == NONE && |old(Pending())| == 0 ==> result == if old(Outlook()).AtEof? then 0 else -1
      ensures result == -1 ==> |old(Pending())| == 0 && Failed(error) == old(Outlook())
      ensures old(error) != NONE || |old(Pending())| == 0 ==> address == address0
    {
      address := address0;
      if error != NONE {
        return Code(error), address;
      }
      var more := true;
      while more
        invariant Valid() && (more ==> error == NONE)
        invariant more ==> Pending() == old(Pending()) && Outlook() == old(Outlook())
        invariant !more ==> !eof && |old(Pending())| == 0 && Failed(error) == old(Outlook())
        decreases more, |file| - position
      {
        if |recordData| > 0 {
          ghost var record, rest := Place(recordAddress, recordData), if eof then [] else Bytes(file, position);
          result, address := Deliver(buffer);
          Assoc(Place(address, buffer[..result]), Place(recordAddress, recordData), rest);
          return;
        } else if eof {
          return 0, address;
        }
        NothingAdded(Bytes(file, position));
        more := ReadRecord(true);
        NothingAdded(Place(recordAddress, recordData));
      }
      return -1, address;
    }
  }

  /** A sum may be cut to 8 bits before more is added. */
  lemma CarriedSum(cut: nat, sum: nat, value: nat)
    requires cut == sum % 0x100
    ensures (cut + value) % 0x100 == (sum + value) % 0x100
  {
  }

  /** The two's complement of the sum is the byte that makes it 0. */
  lemma CheckByte(cut: nat, sum: nat, check: nat)
    requires cut == sum % 0x100 && check < 0x100
    ensures check == (0x100 - cut) % 0x100 <==> (sum + check) % 0x100 == 0
  {
  }

  lemma SumNext(bytes: seq<byte>, value: byte)
    ensures Sum(bytes + [value]) == Sum(bytes) + value
  {
    assert (bytes + [value])[..|bytes|] == bytes;
  }

  lemma {:induction false} SumConcat(a: seq<byte>, b: seq<byte>)
    ensures Sum(a + b) == Sum(a) + Sum(b)
  {
    if |b| == 0 {
      NothingAdded(a);
    } else {
      assert (a + b)[..|a + b| - 1] == a + b[..|b| - 1];
      SumConcat(a, b[..|b| - 1]);
    }
  }

  // ---------------------------------------------------------------- delivery of a whole file

  /** Reads pieces of at most the given lengths; `failed` is the error that ended it, if any. */
  method ReadPieces(hex: IntelHexFormat, lengths: seq<nat>) returns (delivered: seq<Placed>, failed: Option<ErrorEnum>)
    requires hex.Valid() && hex.error == NONE
    modifies hex
    ensures delivered <= old(hex.Pending())
    ensures failed.None? ==> hex.Valid() && old(hex.Pending()) == delivered + hex.Pending()
    ensures failed.Some? ==> delivered == old(hex.Pending()) && old(hex.Outlook()) == Failed(failed.value)
    ensures (forall length :: length in lengths ==> length > 0) && |lengths| >= |old(hex.Pending())| ==>
              delivered == old(hex.Pending())
    ensures old(hex.Outlook()).AtEof? ==> failed.None?
  {
    delivered, failed := [], None;
    NothingAdded(hex.Pending());
    for i := 0 to |lengths|
      invariant hex.Valid() && hex.error == NONE && hex.Outlook() == old(hex.Outlook())
      invariant old(hex.Pending()) == delivered + hex.Pending()
      invariant (forall length :: length in lengths ==> length > 0) ==> |delivered| >= i || |hex.Pending()| == 0
    {
      var buffer := new byte[lengths[i]];
      ghost var pending := hex.Pending();
      var result, address := hex.ReadBytes(buffer, 0);
      if result < 0 {
        assert lengths[i] in lengths;
        NothingAdded(delivered);
        return delivered, Some(hex.error);
      }
      Assoc(delivered, Place(address, buffer[..result]), hex.Pending());
      assert lengths[i] in lengths;
      delivered := delivered + Place(address, buffer[..result]);
    }
    NothingAdded(delivered);
  }

  /** A file found valid is delivered without an error, whatever the lengths asked for. */
  method ValidateAndRead(file: string, lengths: seq<nat>)
    returns (valid: bool, delivered: seq<Placed>, failed: Option<ErrorEnum>)
    ensures valid <==> Ending(file, 0).AtEof?
    ensures valid ==> failed.None? && delivered <= Bytes(file, 0)
    ensures valid && (forall length :: length in lengths ==> length > 0) && |lengths| >= |Bytes(file, 0)| ==>
              delivered == Bytes(file, 0)
  {
    var hex := new IntelHexFormat(file);
    valid := hex.Validate();
    delivered, failed := [], None;
    if valid {
      NothingAdded(Bytes(file, 0));
      delivered, failed := ReadPieces(hex, lengths);
    }
  }

  // ---------------------------------------------------------------- the format

  function HexDigit(n: nibble): char {
    if n < 10 then '0' + n as char else 'A' + (n as int - 10) as char
  }

  function HexPair(value: byte): (text: string)
    ensures |text| == 2
  {
    [HexDigit(value / 16), HexDigit(value % 16)]
  }

  function HexText(bytes: seq<byte>): (text: string)
    ensures |text| == 2 * |bytes|
  {
    if |bytes| == 0 then "" else HexText(bytes[..|bytes| - 1]) + HexPair(bytes[|bytes| - 1])
  }

  /** The two's complement of the sum of the bytes in front of it, in 8 bits. */
  function CheckOf(header: seq<byte>, data: seq<byte>): byte {
    (0x100 - (Sum(header) + Sum(data)) % 0x100) % 0x100
  }

  function Header(kind: byte, address: uint16, n: byte): (header: seq<byte>)
    ensures |header| == 4 && header[0] == n && header[3] == kind
    ensures header[1] as nat * 0x100 + header[2] as nat == address
  {
    [n, address / 0x100, address % 0x100, kind]
  }

  function FieldsText(header: seq<byte>, data: seq<byte>, check: byte): string {
    HexText(header) + (HexText(data) + HexPair(check))
  }

  /** The general record format, and any white space in front. */
  function RecordText(space: string, kind: byte, address: uint16, bytes: seq<byte>): string
    requires |bytes| <= 0xff
  {
    var header := Header(kind, address, |bytes|);
    (space + ":") + FieldsText(header, bytes, CheckOf(header, bytes))
  }

  datatype Item = Item(space: string, address: uint16, bytes: seq<byte>)

  predicate Encodable(items: seq<Item>) {
    forall item :: item in items ==> |item.bytes| <= 0xff && AllSpace(item.space)
  }

  /** Blank, tab, line feed, vertical tab, form feed and carriage return. */
  const WHITE_SPACE: set<char> := {' ', '\t', '\n', '\U{000B}', '\U{000C}', '\r'}

  predicate AllSpace(space: string) {
    forall c :: c in space ==> c in WHITE_SPACE
  }

  /** Data records. */
  function ItemsText(items: seq<Item>): string
    requires Encodable(items)
  {
    if |items| == 0 then ""
    else RecordText(items[0].space, RT_DATA, items[0].address, items[0].bytes) + ItemsText(items[1..])
  }

  /** Data records and the End of File record. */
  function FileText(items: seq<Item>, space: string): string
    requires Encodable(items)
  {
    ItemsText(items) + RecordText(space, RT_EOF, 0, [])
  }

  function Content(items: seq<Item>): seq<Placed> {
    if |items| == 0 then [] else Place(items[0].address, items[0].bytes) + Content(items[1..])
  }

  lemma DigitValue(n: nibble)
    ensures HexValue(HexDigit(n)) == Some(n)
  {
  }

  lemma HexByteOfText(s: string, pos: nat, value: byte)
    requires At(s, pos, HexPair(value))
    ensures HexByte(s, pos) == Some(value)
  {
    var text := HexPair(value);
    assert s[pos + 0] == text[0] && s[pos + 1] == text[1];
    DigitValue(value / 16);
    DigitValue(value % 16);
  }

  lemma {:induction false} HexBytesOfText(s: string, pos: nat, bytes: seq<byte>)
    requires At(s, pos, HexText(bytes))
    ensures HexBytes(s, pos, |bytes|) == Some(bytes)
  {
    if |bytes| > 0 {
      var init, last := bytes[..|bytes| - 1], bytes[|bytes| - 1];
      AtConcat(s, pos, HexText(init), HexPair(last));
      HexBytesOfText(s, pos, init);
      HexByteOfText(s, pos + 2 * |init|, last);
      assert bytes == init + [last];
    }
  }

  lemma {:induction false} SkipSpaceOfText(s: string, pos: nat, space: string)
    requires At(s, pos, space + ":") && AllSpace(space)
    ensures SkipSpace(s, pos) == pos + |space| < |s| && s[pos + |space|] == ':'
    decreases |space|
  {
    AtConcat(s, pos, space, ":");
    assert s[pos + |space| + 0] == ":"[0];
    if |space| > 0 {
      assert s[pos + 0] == space[0] && space[0] in space;
      assert space + ":" == [space[0]] + (space[1..] + ":");
      AtConcat(s, pos, [space[0]], space[1..] + ":");
      SkipSpaceOfText(s, pos + 1, space[1..]);
    }
  }

  /** Fields whose texts follow each other are read as they are; the check byte decides. */
  lemma FieldsOfText(s: string, pos: nat, header: seq<byte>, data: seq<byte>, check: byte)
    requires |header| == 4 && |data| == header[0] as nat && At(s, pos, FieldsText(header, data, check))
    ensures pos + 10 + 2 * |data| <= |s|
    ensures ParseFields(s, pos) == Checked(header, data, check, pos + 10 + 2 * |data|)
  {
    FieldsAt(s, pos, header, data, check);
    HexBytesOfText(s, pos, header);
    BodyOfText(s, pos + 8, header, data, check);
  }

  lemma BodyOfText(s: string, pos: nat, header: seq<byte>, data: seq<byte>, check: byte)
    requires |header| == 4 && |data| == header[0] as nat
    requires At(s, pos, HexText(data)) && At(s, pos + 2 * |data|, HexPair(check))
    ensures pos + 2 + 2 * |data| <= |s|
    ensures ParseBody(s, pos, header) == Checked(header, data, check, pos + 2 + 2 * |data|)
  {
    HexBytesOfText(s, pos, data);
    HexByteOfText(s, pos + 2 * |data|, check);
  }

  lemma FieldsAt(s: string, pos: nat, header: seq<byte>, data: seq<byte>, check: byte)
    requires |header| == 4 && At(s, pos, FieldsText(header, data, check))
    ensures At(s, pos, HexText(header)) && At(s, pos + 8, HexText(data))
    ensures At(s, pos + 8 + 2 * |data|, HexPair(check))
  {
    AtConcat(s, pos, HexText(header), HexText(data) + HexPair(check));
    AtConcat(s, pos + 8, HexText(data), HexPair(check));
  }

  lemma CheckOfAccepted(header: seq<byte>, data: seq<byte>)
    ensures (Sum(header) + Sum(data) + CheckOf(header, data)) % 0x100 == 0
  {
    var sum := Sum(header) + Sum(data);
    CheckByte(sum % 0x100, sum, CheckOf(header, data));
  }

  lemma RecordBehindSpace(s: string, pos: nat, space: string)
    requires At(s, pos, space + ":") && AllSpace(space)
    ensures pos + |space| < |s| && ParseRecord(s, pos) == ParseFields(s, pos + |space| + 1)
  {
    SkipSpaceOfText(s, pos, space);
  }

  lemma RecordOfFields(s: string, pos: nat, space: string, header: seq<byte>, data: seq<byte>, check: byte)
    requires |header| == 4 && |data| == header[0] as nat && AllSpace(space)
    requires At(s, pos, space + ":") && At(s, pos + |space| + 1, FieldsText(header, data, check))
    ensures pos <= |s| && ParseRecord(s, pos) == Checked(header, data, check, pos + |space| + 11 + 2 * |data|)
  {
    RecordBehindSpace(s, pos, space);
    FieldsOfText(s, pos + |space| + 1, header, data, check);
  }

  /** What is read from a record in the general format: types 2 to 5 of the specification are not supported. */
  function ReadAs(kind: byte, address: uint16, bytes: seq<byte>, next: nat): Parsed {
    match kind
    case 0 => Parsed(Data(address, bytes), next)
    case 1 => Parsed(Eof, next)
    case _ => Failure(RECORD_TYPE_NOT_SUPPORTED)
  }

  lemma CheckedAsWritten(kind: byte, address: uint16, bytes: seq<byte>, next: nat)
    requires |bytes| <= 0xff
    ensures var header := Header(kind, address, |bytes|);
            Checked(header, bytes, CheckOf(header, bytes), next) == ReadAs(kind, address, bytes, next)
  {
    CheckOfAccepted(Header(kind, address, |bytes|), bytes);
  }

  /** A record in the general record format is read as what it encodes. */
  lemma RecordOfText(s: string, pos: nat, space: string, kind: byte, address: uint16, bytes: seq<byte>)
    requires |bytes| <= 0xff && AllSpace(space)
    requires At(s, pos, RecordText(space, kind, address, bytes))
    ensures pos <= |s|
    ensures ParseRecord(s, pos) == ReadAs(kind, address, bytes, pos + |RecordText(space, kind, address, bytes)|)
  {
    var header := Header(kind, address, |bytes|);
    AtConcat(s, pos, space + ":", FieldsText(header, bytes, CheckOf(header, bytes)));
    RecordOfFields(s, pos, space, header, bytes, CheckOf(header, bytes));
    CheckedAsWritten(kind, address, bytes, pos + |space| + 11 + 2 * |bytes|);
  }

  lemma FirstRecordOfText(s: string, pos: nat, items: seq<Item>) returns (next: nat)
    requires |items| > 0 && Encodable(items) && At(s, pos, ItemsText(items))
    ensures pos <= |s| && ParseRecord(s, pos) == Parsed(Data(items[0].address, items[0].bytes), next)
    ensures Encodable(items[1..]) && At(s, next, ItemsText(items[1..]))
    ensures next + |ItemsText(items[1..])| == pos + |ItemsText(items)|
  {
    var item := items[0];
    assert item in items;
    var text := RecordText(item.space, RT_DATA, item.address, item.bytes);
    AtConcat(s, pos, text, ItemsText(items[1..]));
    RecordOfText(s, pos, item.space, RT_DATA, item.address, item.bytes);
    next := pos + |text|;
  }

  /** Data records are read as what they encode, and what is behind them decides the rest. */
  lemma {:induction false} ItemsOfText(s: string, pos: nat, items: seq<Item>) returns (next: nat)
    requires Encodable(items) && At(s, pos, ItemsText(items))
    ensures next == pos + |ItemsText(items)| && pos <= next <= |s|
    ensures Bytes(s, pos) == Content(items) + Bytes(s, next) && Ending(s, pos) == Ending(s, next)
    decreases |items|
  {
    if |items| == 0 {
      next := pos;
      NothingAdded(Bytes(s, pos));
    } else {
      var second := FirstRecordOfText(s, pos, items);
      next := ItemsOfText(s, second, items[1..]);
      Assoc(Place(items[0].address, items[0].bytes), Content(items[1..]), Bytes(s, next));
    }
  }

  function End(item: Item): uint16 { EndOf(item.address, item.bytes) }

  function LargestEnd(items: seq<Item>, sofar: uint16): uint16 {
    if |items| == 0 then sofar else LargestEnd(items[1..], Larger(sofar, End(items[0])))
  }

  lemma EndAddressNext(s: string, pos: nat, item: Item, next: nat, sofar: uint16) returns (larger: uint16)
    requires pos <= |s| && ParseRecord(s, pos) == Parsed(Data(item.address, item.bytes), next)
    ensures larger == Larger(sofar, End(item)) && EndAddress(s, pos, sofar) == EndAddress(s, next, larger)
  {
    larger := Larger(sofar, End(item));
  }

  lemma {:induction false} EndAddressAt(s: string, pos: nat, items: seq<Item>, sofar: uint16) returns (next: nat)
    requires Encodable(items) && At(s, pos, ItemsText(items))
    ensures next == pos + |ItemsText(items)| && pos <= next <= |s|
    ensures EndAddress(s, pos, sofar) == EndAddress(s, next, LargestEnd(items, sofar))
    decreases |items|
  {
    if |items| == 0 {
      next := pos;
    } else {
      var second := FirstRecordOfText(s, pos, items);
      var larger := EndAddressNext(s, pos, items[0], second, sofar);
      next := EndAddressAt(s, second, items[1..], larger);
    }
  }

  lemma AtStart(a: string, b: string, c: string) returns (s: string)
    ensures s == a + (b + c) && At(s, 0, a) && At(s, |a|, b)
  {
    s := a + (b + c);
  }

  lemma OneMoreByte(front: seq<byte>, b: byte, bytes: seq<byte>)
    requires bytes == front + [b]
    ensures Sum(bytes) == Sum(front) + b && HexText(bytes) == HexText(front) + HexPair(b)
  {
    assert bytes[..|bytes| - 1] == front;
  }

  lemma EofHeader(header: seq<byte>)
    requires header == [0, 0, 0, 1]
    ensures Sum(header) == 1 && HexText(header) == "00000001"
  {
    OneMoreByte([], 0, [0]);
    OneMoreByte([0], 0, [0, 0]);
    OneMoreByte([0, 0], 0, [0, 0, 0]);
    OneMoreByte([0, 0, 0], 1, header);
    assert HexPair(0) == "00" && HexPair(1) == "01";
    assert HexText([0, 0]) == "0000" && HexText([0, 0, 0]) == "000000";
  }

  /** The End of File record as the specification shows it. */
  lemma EofRecordText()
    ensures RecordText("", RT_EOF, 0, []) == ":00000001FF"
  {
    var header := Header(RT_EOF, 0, 0);
    EofHeader(header);
    assert HexPair(CheckOf(header, [])) == "FF";
  }

  /** A file is read up to the end of its data records; then something else follows. */
  lemma BehindItems(items: seq<Item>, last: string, rest: string) returns (s: string, next: nat)
    requires Encodable(items)
    ensures s == ItemsText(items) + (last + rest) && next == |ItemsText(items)| <= |s| && At(s, next, last)
    ensures Bytes(s, 0) == Content(items) + Bytes(s, next) && Ending(s, 0) == Ending(s, next)
    ensures EndAddress(s, 0, 0) == EndAddress(s, next, LargestEnd(items, 0))
  {
    s := AtStart(ItemsText(items), last, rest);
    next := ItemsOfText(s, 0, items);
    next := EndAddressAt(s, 0, items, 0);
  }

  lemma LastRecord(items: seq<Item>, space: string, rest: string) returns (s: string, next: nat)
    requires Encodable(items) && AllSpace(space)
    ensures s == FileText(items, space) + rest && next <= |s| && ParseRecord(s, next).Parsed?
    ensures ParseRecord(s, next).record == Eof
    ensures Bytes(s, 0) == Content(items) + Bytes(s, next) && Ending(s, 0) == Ending(s, next)
    ensures EndAddress(s, 0, 0) == EndAddress(s, next, LargestEnd(items, 0))
  {
    var last := RecordText(space, RT_EOF, 0, []);
    s, next := BehindItems(items, last, rest);
    RecordOfText(s, next, space, RT_EOF, 0, []);
    Assoc(ItemsText(items), last, rest);
  }

  /** A file in the format is valid and read as its content, also with more text behind the End of File record. */
  lemma FileRoundTrip(items: seq<Item>, space: string, rest: string)
    requires Encodable(items) && AllSpace(space)
    ensures Bytes(FileText(items, space) + rest, 0) == Content(items)
    ensures Ending(FileText(items, space) + rest, 0) == AtEof
  {
    var s, next := LastRecord(items, space, rest);
    NothingAdded(Content(items));
  }

  // ---------------------------------------------------------------- refusals

  lemma FailureAt(s: string, pos: nat, error: ErrorEnum)
    requires pos <= |s| && ParseRecord(s, pos) == Failure(error)
    ensures |Bytes(s, pos)| == 0 && Ending(s, pos) == Failed(error)
  {
  }

  lemma OtherTypeAt(s: string, pos: nat, space: string, kind: byte, address: uint16, bytes: seq<byte>)
    requires AllSpace(space) && |bytes| <= 0xff && kind > 1 && At(s, pos, RecordText(space, kind, address, bytes))
    ensures pos <= |s| && |Bytes(s, pos)| == 0 && Ending(s, pos) == Failed(RECORD_TYPE_NOT_SUPPORTED)
  {
    RecordOfText(s, pos, space, kind, address, bytes);
    FailureAt(s, pos, RECORD_TYPE_NOT_SUPPORTED);
  }

  /** A record of another type, as for extended addresses, ends the reading behind the records before it. */
  lemma OtherTypeIsRefused(items: seq<Item>, space: string, kind: byte, address: uint16, bytes: seq<byte>, rest: string)
    requires Encodable(items) && AllSpace(space) && |bytes| <= 0xff && kind > 1
    ensures var s := ItemsText(items) + (RecordText(space, kind, address, bytes) + rest);
            Bytes(s, 0) == Content(items) && Ending(s, 0) == Failed(RECORD_TYPE_NOT_SUPPORTED)
  {
    var s, next := BehindItems(items, RecordText(space, kind, address, bytes), rest);
    OtherTypeAt(s, next, space, kind, address, bytes);
    NothingAdded(Content(items));
  }

  lemma {:induction false} SkipsSpace(s: string, pos: nat, space: string)
    requires At(s, pos, space) && AllSpace(space)
    requires pos + |space| == |s| || !IsSpace(s[pos + |space|])
    ensures pos <= |s| && SkipSpace(s, pos) == pos + |space|
    decreases |space|
  {
    if |space| > 0 {
      assert s[pos + 0] == space[0] && space[0] in space;
      assert space == [space[0]] + space[1..];
      AtConcat(s, pos, [space[0]], space[1..]);
      SkipsSpace(s, pos + 1, space[1..]);
    }
  }

  lemma WhiteSpaceExactly(c: char)
    ensures IsSpace(c) <==> c in WHITE_SPACE
  {
    if IsSpace(c) && c != ' ' {
      assert c == 9 as char || c == 10 as char || c == 11 as char || c == 12 as char || c == 13 as char;
    }
  }

  lemma ForeignCharacterAt(s: string, pos: nat, space: string, c: char)
    requires At(s, pos, space + [c]) && AllSpace(space) && c !in WHITE_SPACE && c != ':'
    ensures pos <= |s| && |Bytes(s, pos)| == 0 && Ending(s, pos) == Failed(INVALID_CHARACTER)
  {
    AtConcat(s, pos, space, [c]);
    assert s[pos + |space| + 0] == [c][0];
    WhiteSpaceExactly(c);
    SkipsSpace(s, pos, space);
    FailureAt(s, pos, INVALID_CHARACTER);
  }

  /** So does a character between records that is neither white space nor the colon of a record. */
  lemma ForeignCharacterIsRefused(items: seq<Item>, space: string, c: char, rest: string)
    requires Encodable(items) && AllSpace(space) && c !in WHITE_SPACE && c != ':'
    ensures var s := ItemsText(items) + ((space + [c]) + rest);
            Bytes(s, 0) == Content(items) && Ending(s, 0) == Failed(INVALID_CHARACTER)
  {
    var s, next := BehindItems(items, space + [c], rest);
    ForeignCharacterAt(s, next, space, c);
    NothingAdded(Content(items));
  }

  /** And so does the end of the file where no End of File record was. */
  lemma MissingEofIsRefused(items: seq<Item>, space: string)
    requires Encodable(items) && AllSpace(space)
    ensures var s := ItemsText(items) + space;
            Bytes(s, 0) == Content(items) && Ending(s, 0) == Failed(EOF_BEFORE_END)
  {
    NothingAdded(space);
    var s, next := BehindItems(items, space, "");
    SkipsSpace(s, next, space);
    NothingAdded(Content(items));
  }

  predicate IsDigitAt(s: string, i: nat) { i < |s| && HexValue(s[i]).Some? }

  predicate DigitsAt(s: string, pos: nat, n: nat) {
    forall i :: pos <= i < pos + n ==> IsDigitAt(s, i)
  }

  lemma {:induction false} HexBytesExactly(s: string, pos: nat, n: nat)
    ensures HexBytes(s, pos, n).Some? <==> DigitsAt(s, pos, 2 * n)
  {
    if n > 0 {
      HexBytesExactly(s, pos, n - 1);
      HexByteExactly(s, pos + 2 * (n - 1));
      DigitsInTwo(s, pos, 2 * (n - 1), 2);
    }
  }

  lemma HexByteExactly(s: string, pos: nat)
    ensures HexByte(s, pos).Some? <==> DigitsAt(s, pos, 2)
  {
    if DigitsAt(s, pos, 2) {
      assert IsDigitAt(s, pos) && IsDigitAt(s, pos + 1);
    }
  }

  /** How many data bytes the first two digits announce. */
  function Announced(s: string, pos: nat): nat
    requires DigitsAt(s, pos, 2)
  {
    assert IsDigitAt(s, pos) && IsDigitAt(s, pos + 1);
    HexValue(s[pos]).value as nat * 16 + HexValue(s[pos + 1]).value as nat
  }

  /** READ_ERROR is what comes of a digit that is missing, or is none: of header, announced data, and check byte. */
  lemma ReadErrorExactly(s: string, pos: nat)
    requires pos <= |s|
    ensures ParseFields(s, pos) == Failure(READ_ERROR) <==>
            !DigitsAt(s, pos, 8) || !DigitsAt(s, pos, 10 + 2 * Announced(s, pos))
  {
    HexBytesExactly(s, pos, 4);
    if DigitsAt(s, pos, 8) {
      var header := FirstOfHexBytes(s, pos, 4);
      BodyFailsExactly(s, pos + 8, header);
      DigitsInTwo(s, pos, 8, 2 * header[0] as nat + 2);
    }
  }

  lemma {:induction false} FirstOfHexBytes(s: string, pos: nat, n: nat) returns (bytes: seq<byte>)
    requires n > 0 && HexBytes(s, pos, n).Some? && DigitsAt(s, pos, 2)
    ensures HexBytes(s, pos, n) == Some(bytes) && |bytes| == n && bytes[0] as nat == Announced(s, pos)
  {
    bytes := HexBytes(s, pos, n).value;
    if n > 1 {
      var init := FirstOfHexBytes(s, pos, n - 1);
    }
  }

  lemma DigitsInTwo(s: string, pos: nat, a: nat, b: nat)
    ensures DigitsAt(s, pos, a + b) <==> DigitsAt(s, pos, a) && DigitsAt(s, pos + a, b)
  {
  }

  lemma BodyFailsExactly(s: string, pos: nat, header: seq<byte>)
    requires pos <= |s| && |header| == 4
    ensures ParseBody(s, pos, header) == Failure(READ_ERROR) <==> !DigitsAt(s, pos, 2 * header[0] as nat + 2)
  {
    var n := header[0] as nat;
    HexBytesExactly(s, pos, n);
    HexByteExactly(s, pos + 2 * n);
    DigitsInTwo(s, pos, 2 * n, 2);
  }

  // ---------------------------------------------------------------- the end address

  lemma {:induction false} LargestEndIsLargest(items: seq<Item>, sofar: uint16)
    ensures sofar <= LargestEnd(items, sofar)
    ensures forall i :: 0 <= i < |items| ==> End(items[i]) <= LargestEnd(items, sofar)
    ensures LargestEnd(items, sofar) == sofar ||
            exists i :: 0 <= i < |items| && End(items[i]) == LargestEnd(items, sofar)
  {
    if |items| > 0 {
      var tail, next := items[1..], Larger(sofar, End(items[0]));
      LargestEndIsLargest(tail, next);
      forall i | 0 <= i < |items| ensures End(items[i]) <= LargestEnd(items, sofar) {
        assert i > 0 ==> items[i] == tail[i - 1];
      }
      if LargestEnd(items, sofar) != sofar && LargestEnd(items, sofar) != End(items[0]) {
        var i :| 0 <= i < |tail| && End(tail[i]) == LargestEnd(items, sofar);
        assert items[i + 1] == tail[i];
      }
    }
  }

  /** The end address is the largest end of a record, or 0 without records. */
  lemma EndAddressIsLargest(items: seq<Item>, space: string, rest: string)
    requires Encodable(items) && AllSpace(space)
    ensures var end := EndAddress(FileText(items, space) + rest, 0, 0);
            (forall i :: 0 <= i < |items| ==> (items[i].address + |items[i].bytes|) % 0x1_0000 <= end) &&
            (end == 0 || exists i :: 0 <= i < |items| && (items[i].address + |items[i].bytes|) % 0x1_0000 == end)
  {
    var s, next := LastRecord(items, space, rest);
    LargestEndIsLargest(items, 0);
    assert forall i :: 0 <= i < |items| ==> End(items[i]) == (items[i].address + |items[i].bytes|) % 0x1_0000;
  }

  // ---------------------------------------------------------------- check sums and letters

  /** A record is refused for its check sum exactly when the check byte is not that of the bytes before it. */
  lemma ChecksumRefusedExactly(s: string, pos: nat, header: seq<byte>, data: seq<byte>, check: byte)
    requires |header| == 4 && |data| == header[0] as nat && At(s, pos, FieldsText(header, data, check))
    ensures pos <= |s|
    ensures ParseFields(s, pos) == Failure(INVALID_CHECKSUM) <==> check != CheckOf(header, data)
  {
    FieldsOfText(s, pos, header, data, check);
    var sum := Sum(header) + Sum(data);
    CheckByte(sum % 0x100, sum, check);
  }

  function Capital(c: char): char {
    if 'a' <= c <= 'f' then (c as int - 'a' as int + 'A' as int) as char else c
  }

  /** A text with its small hexadecimal digits written as capital ones. */
  function Capitals(s: string): (capitals: string)
    ensures |capitals| == |s| && forall i :: 0 <= i < |s| ==> capitals[i] == Capital(s[i])
  {
    seq(|s|, i requires 0 <= i < |s| => Capital(s[i]))
  }

  predicate ReadsSame(c: char, d: char) {
    HexValue(c) == HexValue(d) && IsSpace(c) == IsSpace(d) && (c == ':' <==> d == ':')
  }

  predicate ReadSame(s: string, t: string) {
    |s| == |t| && forall i :: 0 <= i < |s| ==> ReadsSame(s[i], t[i])
  }

  lemma HexByteOfSame(s: string, t: string, pos: nat)
    requires ReadSame(s, t)
    ensures HexByte(s, pos) == HexByte(t, pos)
  {
    if pos + 2 <= |s| {
      assert ReadsSame(s[pos], t[pos]) && ReadsSame(s[pos + 1], t[pos + 1]);
    }
  }

  lemma {:induction false} HexBytesOfSame(s: string, t: string, pos: nat, n: nat)
    requires ReadSame(s, t)
    ensures HexBytes(s, pos, n) == HexBytes(t, pos, n)
  {
    if n > 0 {
      HexBytesOfSame(s, t, pos, n - 1);
      HexByteOfSame(s, t, pos + 2 * (n - 1));
    }
  }

  lemma {:induction false} SkipSpaceOfSame(s: string, t: string, pos: nat)
    requires ReadSame(s, t) && pos <= |s|
    ensures SkipSpace(s, pos) == SkipSpace(t, pos)
    decreases |s| - pos
  {
    if pos < |s| {
      assert ReadsSame(s[pos], t[pos]);
      if IsSpace(s[pos]) {
        SkipSpaceOfSame(s, t, pos + 1);
      }
    }
  }

  lemma BodyOfSame(s: string, t: string, pos: nat, header: seq<byte>)
    requires ReadSame(s, t) && pos <= |s| && |header| == 4
    ensures ParseBody(s, pos, header) == ParseBody(t, pos, header)
  {
    HexBytesOfSame(s, t, pos, header[0]);
    HexByteOfSame(s, t, pos + 2 * header[0] as nat);
  }

  lemma FieldsOfSame(s: string, t: string, pos: nat)
    requires ReadSame(s, t) && pos <= |s|
    ensures ParseFields(s, pos) == ParseFields(t, pos)
  {
    HexBytesOfSame(s, t, pos, 4);
    if HexBytes(s, pos, 4).Some? {
      BodyOfSame(s, t, pos + 8, HexBytes(s, pos, 4).value);
    }
  }

  lemma RecordOfSame(s: string, t: string, pos: nat)
    requires ReadSame(s, t) && pos <= |s|
    ensures ParseRecord(s, pos) == ParseRecord(t, pos)
  {
    SkipSpaceOfSame(s, t, pos);
    var p := SkipSpace(s, pos);
    if p < |s| {
      assert ReadsSame(s[p], t[p]);
      FieldsOfSame(s, t, p + 1);
    }
  }

  lemma {:induction false} FileOfSame(s: string, t: string, pos: nat)
    requires ReadSame(s, t) && pos <= |s|
    ensures Bytes(s, pos) == Bytes(t, pos) && Ending(s, pos) == Ending(t, pos)
    decreases |s| - pos
  {
    RecordOfSame(s, t, pos);
    match ParseRecord(s, pos) {
      case Parsed(Data(_, _), next) => FileOfSame(s, t, next);
      case _ =>
    }
  }

  /** Digits may be small or capital letters: every file is read the same with capital ones. */
  lemma LettersDoNotMatter(s: string)
    ensures Bytes(Capitals(s), 0) == Bytes(s, 0) && Ending(Capitals(s), 0) == Ending(s, 0)
  {
    forall i | 0 <= i < |s| ensures ReadsSame(s[i], Capitals(s)[i]) {
    }
    FileOfSame(s, Capitals(s), 0);
  }

  lemma {:induction false} SumReplaced(bytes: seq<byte>, i: nat, value: byte)
    requires i < |bytes|
    ensures Sum(bytes[i := value]) == Sum(bytes) - bytes[i] as int + value as int
  {
    var last := |bytes| - 1;
    if i < last {
      SumReplaced(bytes[..last], i, value);
      assert bytes[i := value][..last] == bytes[..last][i := value];
    } else {
      assert bytes[i := value][..last] == bytes[..last];
    }
  }

  /** A record with one data byte replaced by another value is refused. */
  lemma WrongByteIsRefused(s: string, pos: nat, kind: byte, address: uint16, bytes: seq<byte>, i: nat, value: byte)
    requires i < |bytes| <= 0xff && value != bytes[i]
    requires var header := Header(kind, address, |bytes|);
             At(s, pos, FieldsText(header, bytes[i := value], CheckOf(header, bytes)))
    ensures ParseFields(s, pos) == Failure(INVALID_CHECKSUM)
  {
    var header := Header(kind, address, |bytes|);
    FieldsOfText(s, pos, header, bytes[i := value], CheckOf(header, bytes));
    CheckOfAccepted(header, bytes);
    SumReplaced(bytes, i, value);
    NotBothMultiples(Sum(header) + Sum(bytes) + CheckOf(header, bytes), value as int - bytes[i] as int);
  }

  lemma NotBothMultiples(sum: int, change: int)
    requires sum % 0x100 == 0 && -0x100 < change < 0x100 && change != 0
    ensures (sum + change) % 0x100 != 0
  {
  }
}
