/** The programmer's range checks and the typed failures that replace its
    `Error(...)` calls (which print and end the process) and the Python
    exceptions its protocol code can raise. */
module Validate {

  /** Highest address of the 32 KiB device. */
  const MAX_ADDRESS := 0x7fff
  /** Number of addressable bytes. */
  const ADDRESS_SPACE := 0x8000
  /** Largest payload of a single read or write request. */
  const MAX_CHUNK_SIZE := 256

  datatype Error =
    | InvalidAddress(address: int)          // check_address
    | InvalidData(data: int)                // check_data
    | InvalidChunkSize(size: int)           // check_chunk_size
    | SizeMismatch(length: int, size: int)  // data vector and chunk size disagree
    | UnexpectedTermination(reply: string)  // a write was not answered with "OE"
    | IncorrectData(address: int)           // read-back differs from what was written
    | MalformedReply(reply: string)         // `int(val, 16)` raised on a reply token
    | NotAByte                              // `bytearray(dump)` met a value above 0xff

  /** Success or the error that aborts the operation. */
  datatype Outcome = Pass | Fail(error: Error)

  datatype Result<+T> = Ok(value: T) | Err(error: Error)

  /** `check_address`: an address is accepted exactly when it names one of the
      device's cells. */
  function CheckAddress(address: int): (r: Outcome)
    ensures r.Pass? <==> 0 <= address < ADDRESS_SPACE
    ensures r.Fail? ==> r.error == InvalidAddress(address)
  {
    if address < 0 || address > MAX_ADDRESS then Fail(InvalidAddress(address)) else Pass
  }

  /** `check_data`: a value is accepted exactly when it fits in one byte. */
  function CheckData(data: int): (r: Outcome)
    ensures r.Pass? <==> 0 <= data < 0x100
    ensures r.Fail? ==> r.error == InvalidData(data)
  {
    if data < 0 || data > 0xff then Fail(InvalidData(data)) else Pass
  }

  /** `check_chunk_size`: a size is accepted exactly when it is a possible
      payload length, empty up to the protocol maximum. */
  function CheckChunkSize(size: int): (r: Outcome)
    ensures r.Pass? <==> 0 <= size <= MAX_CHUNK_SIZE
    ensures r.Fail? ==> r.error == InvalidChunkSize(size)
  {
    if size < 0 || size > MAX_CHUNK_SIZE then Fail(InvalidChunkSize(size)) else Pass
  }

  /** Every value of `data` fits in one byte. */
  predicate AreBytes(data: seq<int>) {
    forall i :: 0 <= i < |data| ==> 0 <= data[i] < 0x100
  }

  lemma AreBytesExtend(data: seq<int>, j: int)
    requires 0 <= j < |data| && AreBytes(data[..j]) && 0 <= data[j] < 0x100
    ensures AreBytes(data[..j + 1])
  {
    assert forall k :: 0 <= k < j ==> data[..j + 1][k] == data[..j][k];
  }

  /** `check_data` applied to every element in order: it passes exactly when
      every element is a byte. */
  function CheckBytes(data: seq<int>): (r: Outcome)
    ensures r.Pass? <==> AreBytes(data)
  {
    if |data| == 0 then Pass
    else if CheckData(data[0]).Fail? then CheckData(data[0])
    else
      assert AreBytes(data) <==> AreBytes(data[1..]) by {
        assert forall i :: 0 < i < |data| ==> data[i] == data[1..][i - 1];
      }
      CheckBytes(data[1..])
  }

  /** The error `CheckBytes` reports names the first element out of range. */
  lemma {:induction false} CheckBytesFirstInvalid(data: seq<int>, j: int)
    requires 0 <= j < |data| && !(0 <= data[j] < 0x100)
    requires AreBytes(data[..j])
    ensures CheckBytes(data) == Fail(InvalidData(data[j]))
    decreases j
  {
    if j > 0 {
      assert 0 <= data[..j][0] < 0x100;
      assert data[1..][..j - 1] == data[..j][1..];
      CheckBytesFirstInvalid(data[1..], j - 1);
    }
  }
}
