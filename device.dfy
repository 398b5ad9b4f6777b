/** A reference device for the far end of the serial link: a 32 KiB memory
    that decodes each request line, performs it on its cells and answers with
    the reply line the programmer expects. Every exchange is a pure function
    of the memory and the request. */
module Device {
  import opened Common
  import opened Protocol
  import opened Validate

  /** The device's cells by address; a cell that was never written reads as
      the erased value. */
  type Memory = map<int, Byte>

  const ERASED: Byte := 0xff

  function Cell(memory: Memory, address: int): Byte {
    if address in memory then memory[address] else ERASED
  }

  /** The `size` cells starting at `address`, in address order. */
  function Cells(memory: Memory, address: int, size: nat): (r: seq<Byte>)
    ensures |r| == size
  {
    seq<Byte>(size, i requires 0 <= i < size => Cell(memory, address + i))
  }

  /** The memory after `data` is written from `address` on: those cells hold
      the data, every other cell is unchanged. */
  function Store(memory: Memory, address: int, data: seq<Byte>): (r: Memory)
    ensures forall a :: Cell(r, a) == if address <= a < address + |data| then data[a - address] else Cell(memory, a)
    decreases |data|
  {
    if |data| == 0 then memory else Store(memory[address := data[0]], address + 1, data[1..])
  }

  /** One request/reply exchange: the new memory and the reply line. */
  function Serve(memory: Memory, line: string): (Memory, string) {
    match DecodeRequest(line)
    case Some(Read(address, size)) => (memory, EncodeReply(Cells(memory, address, size)))
    case Some(Write(address, data)) => (Store(memory, address, data), "OE")
    case None => (memory, "ER")
  }

  /** Consecutive runs of cells read one after the other are the longer run. */
  lemma CellsSplit(memory: Memory, address: int, n: nat, k: nat)
    ensures Cells(memory, address, n + k) == Cells(memory, address, n) + Cells(memory, address + n, k)
  {
    var whole := Cells(memory, address, n + k);
    var parts := Cells(memory, address, n) + Cells(memory, address + n, k);
    forall i | 0 <= i < n + k
      ensures whole[i] == parts[i]
    {
      if i >= n {
        assert parts[i] == Cells(memory, address + n, k)[i - n];
      }
    }
  }

  /** A write request stores its bytes and is acknowledged with "OE". */
  lemma ServeWrite(memory: Memory, address: nat, data: seq<Byte>)
    ensures Serve(memory, WriteRequest(address, |data|, data)) == (Store(memory, address, data), "OE")
  {
    DecodeWriteRequest(address, data);
  }

  /** A read request of at least one byte leaves the memory alone and its
      reply parses to the cells read, in address order. */
  lemma ServeRead(memory: Memory, address: nat, size: nat)
    requires size >= 1
    ensures Serve(memory, ReadRequest(address, size)).0 == memory
    ensures ParseReply(Serve(memory, ReadRequest(address, size)).1) == Ok(Cells(memory, address, size))
  {
    DecodeReadRequest(address, size);
    ReplyRoundTrip(Cells(memory, address, size));
  }

  /** A read of no cells is answered with an empty line, which the
      programmer's reply parser rejects as malformed. */
  lemma ServeEmptyRead(memory: Memory, address: nat)
    ensures Serve(memory, ReadRequest(address, 0)) == (memory, "")
    ensures ParseReply(Serve(memory, ReadRequest(address, 0)).1) == Err(MalformedReply(""))
  {
    DecodeReadRequest(address, 0);
    assert Cells(memory, address, 0) == [];
    EmptyReplyIsMalformed();
  }

  /** Reading back a chunk just written returns the written bytes. */
  lemma WriteReadRoundTrip(memory: Memory, address: nat, data: seq<Byte>)
    requires |data| >= 1
    ensures var (written, ack) := Serve(memory, WriteRequest(address, |data|, data));
            ack == "OE" && ParseReply(Serve(written, ReadRequest(address, |data|)).1) == Ok(data)
  {
    ServeWrite(memory, address, data);
    var written := Store(memory, address, data);
    ServeRead(written, address, |data|);
    assert Cells(written, address, |data|) == data;
  }
}
