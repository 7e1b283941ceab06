/** The part of the configuration store that the plugins use: a binary value that reads back as it was written. */
module Configuration {
  import opened Util

  class BinaryParameter {
    var data: seq<byte>

    constructor ()
      ensures data == []
    {
      data := [];
    }

    /** Stores as many bytes as the length says, which has 16 bits. */
    method SetBinary(data: seq<byte>, length: uint16)
      requires length <= |data|
      modifies this
      ensures this.data == data[..length]
    {
      this.data := data[..length];
    }

    function GetBinary(): seq<byte>
      reads this
    {
      data
    }
  }

  /** What is stored of a buffer whose length is cut to 16 bits. */
  function Stored(buffer: seq<byte>): (stored: seq<byte>)
    ensures stored <= buffer && |stored| == |buffer| % 0x1_0000
  {
    buffer[..|buffer| % 0x1_0000]
  }
}
