/** The host-side programmer: single-chunk reads and writes over the serial
    link, and the bulk operations built from them (fill, memory dump, and
    programming a file's bytes with read-back verification). */
module Programmer {
  import opened Common
  import opened Validate
  import opened Protocol
  import opened Device
  import opened Chunking
  import opened Bulk
  import opened HexText
  import opened Replay

  /** The checks of `write_chunk`, in the order it makes them: address, chunk
      size, data length against the size, then every data value. */
  function WriteCheck(address: int, size: int, data: seq<int>): (r: Outcome)
    ensures r.Pass? <==> 0 <= address < ADDRESS_SPACE && 0 <= size <= MAX_CHUNK_SIZE && |data| == size
                         && forall i :: 0 <= i < |data| ==> 0 <= data[i] < 0x100
  {
    if CheckAddress(address).Fail? then CheckAddress(address)
    else if CheckChunkSize(size).Fail? then CheckChunkSize(size)
    else if |data| != size then Fail(SizeMismatch(|data|, size))
    else CheckBytes(data)
  }

  /** For a chunk of bytes whose size is its length, `write_chunk`'s checks
      reduce to the address and size checks that `read_chunk` makes too. */
  lemma WriteCheckOfChunk(chunk: Chunk)
    ensures WriteCheck(chunk.address, |chunk.data|, chunk.data) == ChunkCheck(chunk)
  {
    assert CheckBytes(chunk.data).Pass?;
  }

  /** The inner loop of `write_chunk`: the request head followed by one
      ", <hex>" field per data element, in order. */
  method RequestText(address: int, size: int, data: seq<int>) returns (text: string)
    requires |data| == size
    ensures text == WriteRequest(address, size, data)
  {
    text := "W, " + Hex(address) + ", " + Hex(size);
    assert text == WriteRequest(address, size, data[..0]);
    var i := 0;
    while i < size
      invariant 0 <= i <= size
      invariant text == WriteRequest(address, size, data[..i])
    {
      WriteRequestSnoc(address, size, data, i);
      text := text + ", " + Hex(data[i]);
      i := i + 1;
    }
    assert data[..size] == data;
  }

  /** The request of `write_chunk`: for each element of the data, in order,
      the element is checked and the whole request is built afresh. An empty
      data vector leaves the request unassigned (`None`). */
  method BuildWriteRequest(address: int, size: int, data: seq<int>) returns (r: Result<Option<string>>)
    requires |data| == size
    ensures CheckBytes(data).Fail? ==> r == Err(CheckBytes(data).error)
    ensures CheckBytes(data).Pass? ==> r == Ok(WriteRequestAsWritten(address, size, data))
  {
    var request: Option<string> := None;
    var j := 0;
    while j < |data|
      invariant 0 <= j <= |data|
      invariant AreBytes(data[..j])
      invariant request == if j == 0 then None else Some(WriteRequest(address, size, data))
    {
      var check := CheckData(data[j]);
      if check.Fail? {
        CheckBytesFirstInvalid(data, j);
        return Err(check.error);
      }
      AreBytesExtend(data, j);
      var text := RequestText(address, size, data);
      request := Some(text);
      j := j + 1;
    }
    assert data[..j] == data;
    r := Ok(request);
  }

  class Programmer {
    const port: string
    const baudrate: int
    const timeout: int
    /** The device at the other end of the link. */
    const link: Link
    /** The device's memory. */
    var device: Memory
    /** Every exchange on the link so far, oldest first. */
    var log: seq<Exchange>

    constructor (port: string, baudrate: int, timeout: int, link: Link, device: Memory)
      ensures this.port == port && this.baudrate == baudrate && this.timeout == timeout
      ensures this.link == link && this.device == device && log == []
    {
      this.port, this.baudrate, this.timeout := port, baudrate, timeout;
      this.link, this.device := link, device;
      log := [];
    }

    function LastReply(): string
      reads this
      requires |log| > 0
    {
      log[|log| - 1].reply
    }

    /** Exactly one exchange happened: `request` was sent and the link
        answered with the last reply, updating the device as it does. */
    twostate predicate Sent(request: string)
      reads this
    {
      |log| > 0 && log == old(log) + [Exchange(request, LastReply())]
      && (device, LastReply()) == link(old(device), request)
    }

    /** Write a request line to the link and read its reply line back. */
    method Transfer(request: string) returns (reply: string)
      modifies this
      ensures Sent(request) && reply == LastReply()
    {
      var (next, line) := link(device, request);
      device, reply := next, line;
      log := log + [Exchange(request, reply)];
    }

    /** `read_chunk`: checks the address and the size, sends a read request
        and parses the reply; a failed check sends nothing. */
    method ReadChunk(address: int, size: int) returns (r: Result<seq<nat>>)
      modifies this
      ensures CheckAddress(address).Fail? ==> r == Err(InvalidAddress(address)) && unchanged(this)
      ensures CheckAddress(address).Pass? && CheckChunkSize(size).Fail? ==>
                r == Err(InvalidChunkSize(size)) && unchanged(this)
      ensures CheckAddress(address).Pass? && CheckChunkSize(size).Pass? ==>
                Sent(ReadRequest(address, size)) && r == ParseReply(LastReply())
      ensures link == Serve && CheckAddress(address).Pass? && 1 <= size <= MAX_CHUNK_SIZE ==>
                r == Ok(Cells(old(device), address, size)) && device == old(device)
      ensures link == Serve && CheckAddress(address).Pass? && size == 0 ==>
                r == Err(MalformedReply("")) && device == old(device)
    {
      var check := CheckAddress(address);
      if check.Fail? {
        return Err(check.error);
      }
      check := CheckChunkSize(size);
      if check.Fail? {
        return Err(check.error);
      }
      var line := Transfer(ReadRequest(address, size));
      r := ParseReply(line);
      assert link == Serve && size >= 1 ==> r == Ok(Cells(old(device), address, size)) && device == old(device) by {
        if link == Serve && size >= 1 {
          ServeRead(old(device), address, size);
        }
      }
      assert link == Serve && size == 0 ==> r == Err(MalformedReply("")) && device == old(device) by {
        if link == Serve && size == 0 {
          ServeEmptyRead(old(device), address);
        }
      }
    }

    /** `read_from_address`: a read of one byte. */
    method ReadFromAddress(address: int) returns (r: Result<seq<nat>>)
      modifies this
      ensures CheckAddress(address).Fail? ==> r == Err(InvalidAddress(address)) && unchanged(this)
      ensures CheckAddress(address).Pass? ==> Sent(ReadRequest(address, 1)) && r == ParseReply(LastReply())
      ensures link == Serve && CheckAddress(address).Pass? ==>
                r == Ok([Cell(old(device), address)]) && device == old(device)
    {
      r := ReadChunk(address, 1);
      assert Cells(old(device), address, 1) == [Cell(old(device), address)];
    }

    /** `write_chunk`: the checks, in order, then one write request, whose
        reply must be exactly "OE". An empty chunk sends nothing. */
    method WriteChunk(address: int, size: int, data: seq<int>) returns (r: Outcome)
      modifies this
      ensures WriteCheck(address, size, data).Fail? ==> r == WriteCheck(address, size, data) && unchanged(this)
      ensures WriteCheck(address, size, data).Pass? && size == 0 ==> r == Pass && unchanged(this)
      ensures WriteCheck(address, size, data).Pass? && size > 0 ==>
                Sent(WriteRequest(address, size, data))
                && r == if LastReply() == "OE" then Pass else Fail(UnexpectedTermination(LastReply()))
      ensures link == Serve && WriteCheck(address, size, data).Pass? && size > 0 ==>
                r == Pass && device == Store(old(device), address, data)
    {
      var check := CheckAddress(address);
      if check.Fail? {
        return check;
      }
      check := CheckChunkSize(size);
      if check.Fail? {
        return check;
      }
      if |data| != size {
        return Fail(SizeMismatch(|data|, size));
      }
      var built := BuildWriteRequest(address, size, data);
      match built {
        case Err(e) =>
          return Fail(e);
        case Ok(None) =>
          // The source would raise here, `string` never having been assigned.
          return Pass;
        case Ok(Some(request)) =>
          var line := Transfer(request);
          if line != "OE" {
            r := Fail(UnexpectedTermination(line));
          } else {
            r := Pass;
          }
          assert link == Serve ==> line == "OE" && device == Store(old(device), address, data) by {
            if link == Serve {
              ServeWrite(old(device), address, data);
            }
          }
      }
    }

    /** `write_to_address`: a write of one byte. */
    method WriteToAddress(address: int, value: int) returns (r: Outcome)
      modifies this
      ensures WriteCheck(address, 1, [value]).Fail? ==> r == WriteCheck(address, 1, [value]) && unchanged(this)
      ensures WriteCheck(address, 1, [value]).Pass? ==>
                Sent(WriteRequest(address, 1, [value]))
                && r == if LastReply() == "OE" then Pass else Fail(UnexpectedTermination(LastReply()))
      ensures link == Serve && WriteCheck(address, 1, [value]).Pass? ==>
                r == Pass && forall a :: Cell(device, a) == if a == address then value else Cell(old(device), a)
    {
      r := WriteChunk(address, 1, [value]);
    }

    /** Write step `i` of a plan after the steps before it succeeded:
        `write_chunk` on the chunk, its exchange judged as the plan's write
        step judges it. `next` is the exchange, if one happened. */
    method WriteStepAt(plan: seq<Chunk>, i: int, ghost start: Memory, ghost done: seq<Exchange>)
      returns (r: Outcome, ghost next: seq<Exchange>)
      requires 0 <= i < |plan| && |plan[i].data| > 0
      requires |done| == i && Succeeded(WriteThenVerify(plan), done)
      requires Replayed(link, start, done, device)
      modifies this
      ensures log == old(log) + next && Replayed(link, start, done + next, device)
      ensures r.Pass? ==> |next| == 1 && Succeeded(WriteThenVerify(plan), done + next)
      ensures r.Fail? ==> Ran(WriteThenVerify(plan), done + next, r)
      ensures link == Serve && ChunkCheck(plan[i]).Pass? ==>
                r == Pass && device == Store(old(device), plan[i].address, plan[i].data)
    {
      ghost var steps := WriteThenVerify(plan);
      var chunk := plan[i];
      assert steps[i] == WriteStep(chunk);
      WriteCheckOfChunk(chunk);
      r := WriteChunk(chunk.address, |chunk.data|, chunk.data);
      if ChunkCheck(chunk).Fail? {
        RejectedAt(steps, done, r);
        assert done + [] == done;
        next := [];
      } else {
        next := [log[|log| - 1]];
        ReplayedSent(link, start, done, old(device), next[0].request, next[0].reply, device);
        StepTaken(steps, done, next[0], r);
      }
    }

    /** The writing loop of `fill` and of the file programming: each chunk
        of the plan is written in order, and the first failure ends it. */
    method WriteAll(plan: seq<Chunk>) returns (r: Outcome, ghost done: seq<Exchange>)
      requires NonEmpty(plan)
      modifies this
      ensures log == old(log) + done && Replayed(link, old(device), done, device)
      ensures r.Pass? ==> |done| == |plan| && Succeeded(WriteThenVerify(plan), done)
      ensures r.Fail? ==> Ran(WriteThenVerify(plan), done, r)
      ensures link == Serve && Checked(plan) ==> r == Pass && device == ApplyPlan(old(device), plan)
    {
      done := [];
      r := Pass;
      var i := 0;
      while i < |plan|
        invariant 0 <= i <= |plan|
        invariant log == old(log) + done && |done| == i
        invariant Replayed(link, old(device), done, device)
        invariant Succeeded(WriteThenVerify(plan), done) && r == Pass
      {
        ghost var next;
        r, next := WriteStepAt(plan, i, old(device), done);
        AppendAssociates(old(log), done, next);
        done := done + next;
        if r.Fail? {
          break;
        }
        i := i + 1;
      }
      if r.Pass? && link == Serve {
        ServedPlan(plan, old(device), done, device);
      }
    }

    /** A verify step of a plan whose chunk passed its checks when it was
        written: `read_chunk` on the chunk, its reply judged as the plan's
        verify step judges it. */
    method VerifyChunkStep(chunk: Chunk) returns (r: Outcome)
      requires ChunkCheck(chunk).Pass?
      modifies this
      ensures Sent(StepRequest(VerifyStep(chunk))) && r == StepOutcome(VerifyStep(chunk), LastReply())
      ensures link == Serve && |chunk.data| > 0 ==> device == old(device)
      ensures link == Serve && |chunk.data| > 0 ==>
                (Cells(old(device), chunk.address, |chunk.data|) == chunk.data ==> r == Pass)
    {
      var found := ReadChunk(chunk.address, |chunk.data|);
      r := match found
        case Err(e) => Fail(e)
        case Ok(values) => if values != chunk.data then Fail(IncorrectData(chunk.address)) else Pass;
    }

    /** The verifying loop of `fill` and of the file programming: each chunk
        of the plan is read back in order and compared with what was meant
        to be written; the first failure ends it. */
    method VerifyAll(plan: seq<Chunk>, ghost written: seq<Exchange>) returns (r: Outcome, ghost done: seq<Exchange>)
      requires |written| == |plan| && Succeeded(WriteThenVerify(plan), written)
      modifies this
      ensures log == old(log) + done && Replayed(link, old(device), done, device)
      ensures Ran(WriteThenVerify(plan), written + done, r)
      ensures link == Serve && Checked(plan) && NonEmpty(plan) && ReadsBack(old(device), plan) ==>
                r == Pass && device == old(device)
    {
      done := [];
      r := Pass;
      var i := 0;
      while i < |plan|
        invariant 0 <= i <= |plan|
        invariant log == old(log) + done && |done| == i
        invariant Replayed(link, old(device), done, device)
        invariant Succeeded(WriteThenVerify(plan), written + done) && r == Pass
        invariant link == Serve && NonEmpty(plan) ==> device == old(device)
      {
        WrittenChecked(plan, written + done, i);
        ghost var before := device;
        r := VerifyChunkStep(plan[i]);
        ghost var next := log[|log| - 1];
        ReplayedSent(link, old(device), done, before, next.request, next.reply, device);
        assert WriteThenVerify(plan)[|plan| + i] == VerifyStep(plan[i]);
        StepTaken(WriteThenVerify(plan), written + done, next, r);
        AppendAssociates(old(log), done, [next]);
        AppendAssociates(written, done, [next]);
        done := done + [next];
        if r.Fail? {
          break;
        }
        i := i + 1;
      }
      if r.Pass? {
        Completed(WriteThenVerify(plan), written + done);
      }
    }

    /** `fill`: the value is checked, then written into each 256-byte chunk
        of the address space in turn (chunk k at address 256 * k), then each
        chunk is read back and compared, the first failure ending it all. */
    method Fill(value: int) returns (r: Outcome)
      modifies this
      ensures CheckData(value).Fail? ==> r == CheckData(value) && unchanged(this)
      ensures CheckData(value).Pass? ==>
                |old(log)| <= |log| && log[..|old(log)|] == old(log)
                && Ran(WriteThenVerify(FillPlan(value)), log[|old(log)|..], r)
      ensures Replayed(link, old(device), log[|old(log)|..], device)
      ensures link == Serve && CheckData(value).Pass? ==>
                r == Pass && forall a :: Cell(device, a) == if 0 <= a < ADDRESS_SPACE then value else Cell(old(device), a)
    {
      r := CheckData(value);
      if r.Fail? {
        assert log[|old(log)|..] == [];
        return;
      }
      var plan := FillPlan(value);
      FillPlanChecked(value);
      ghost var exchanges;
      r, exchanges := WriteAll(plan);
      ghost var stored := device;
      if r.Pass? {
        FillReadBack(old(device), value);
        ghost var checked;
        r, checked := VerifyAll(plan, exchanges);
        ReplayedConcat(link, old(device), exchanges, stored, checked, device);
        AppendAssociates(old(log), exchanges, checked);
        exchanges := exchanges + checked;
      }
      AppendedParts(old(log), exchanges);
      assert link == Serve ==> forall a :: Cell(stored, a) == if 0 <= a < ADDRESS_SPACE then value else Cell(old(device), a) by {
        FillCoverage(old(device), value);
      }
    }

    /** Read number `chunk` of the memory dump, after the reads before it
        gave `dump`. `next` is its exchange. */
    method DumpRead(chunk: int, ghost done: seq<Exchange>, ghost dump: seq<nat>)
      returns (data: Result<seq<nat>>, ghost next: Exchange)
      requires 0 <= chunk < DUMP_CHUNKS && |done| == chunk
      requires DumpRequests(done) && Concatenated(done) == Ok(dump)
      modifies this
      ensures log == old(log) + [next] && Replayed(link, old(device), [next], device)
      ensures data.Err? ==> Dumped(done + [next], Err(data.error))
      ensures data.Ok? ==> DumpRequests(done + [next]) && Concatenated(done + [next]) == Ok(dump + data.value)
      ensures link == Serve ==>
                data == Ok(Cells(old(device), DUMP_CHUNK_SIZE * chunk, DUMP_CHUNK_SIZE)) && device == old(device)
    {
      var address := DUMP_CHUNK_SIZE * chunk;
      DumpAddressInRange(chunk);
      data := ReadChunk(address, DUMP_CHUNK_SIZE);
      next := log[|log| - 1];
      ReplayedSent(link, old(device), [], old(device), next.request, next.reply, device);
      assert [] + [next] == [next];
      if data.Err? {
        DumpStopped(done, next, dump, data.error);
      } else {
        DumpExtended(done, next, dump, data.value);
      }
    }

    /** `memory_dump`: the whole memory read 16 bytes at a time, from
        address 0 up, the values of every reply appended in order and the
        result turned into a bytearray. A reply that does not parse ends
        the dump with its error. */
    method MemoryDump() returns (r: Result<seq<Byte>>)
      modifies this
      ensures |old(log)| <= |log| && log[..|old(log)|] == old(log)
      ensures Dumped(log[|old(log)|..], r) && Replayed(link, old(device), log[|old(log)|..], device)
      ensures link == Serve ==> r == Ok(Cells(old(device), 0, ADDRESS_SPACE)) && device == old(device)
    {
      var dump: seq<nat> := [];
      ghost var done: seq<Exchange> := [];
      var chunk := 0;
      while chunk < DUMP_CHUNKS
        invariant 0 <= chunk <= DUMP_CHUNKS
        invariant log == old(log) + done && |done| == chunk
        invariant DumpRequests(done) && Concatenated(done) == Ok(dump)
        invariant Replayed(link, old(device), done, device)
        invariant link == Serve ==> device == old(device) && dump == Cells(old(device), 0, DUMP_CHUNK_SIZE * chunk)
      {
        var data;
        ghost var next;
        ghost var before := device;
        data, next := DumpRead(chunk, done, dump);
        ReplayedConcat(link, old(device), done, before, [next], device);
        AppendAssociates(old(log), done, [next]);
        done := done + [next];
        if data.Err? {
          AppendedParts(old(log), done);
          return Err(data.error);
        }
        assert link == Serve ==> dump + data.value == Cells(old(device), 0, DUMP_CHUNK_SIZE * (chunk + 1)) by {
          if link == Serve {
            DumpCellsStep(old(device), chunk);
          }
        }
        dump := Append(dump, data.value);
        chunk := chunk + 1;
      }
      AppendedParts(old(log), done);
      DumpAddressInRange(0);
      r := ToByteArray(dump);
    }

    /** Programming a file: the bytes are cut into chunks, the chunks are
        written one after the other from address 0, then read back and
        compared; the first failure ends it all. */
    method ProgramFile(data: seq<Byte>) returns (r: Outcome)
      modifies this
      ensures |old(log)| <= |log| && log[..|old(log)|] == old(log)
      ensures Ran(WriteThenVerify(ProgramPlan(Chunks(data))), log[|old(log)|..], r)
      ensures Replayed(link, old(device), log[|old(log)|..], device)
      ensures |data| > ADDRESS_SPACE ==> r.Fail?
      ensures link == Serve && |data| <= ADDRESS_SPACE ==>
                r == Pass && forall a :: Cell(device, a) == if 0 <= a < |data| then data[a] else Cell(old(device), a)
    {
      var chunks := SplitIntoChunks(data);
      var plan := PlaceChunks(chunks);
      ProgramPlanChecked(data);
      ghost var exchanges;
      r, exchanges := WriteAll(plan);
      ghost var stored := device;
      if r.Pass? {
        ProgramReadBack(old(device), data);
        ghost var checked;
        r, checked := VerifyAll(plan, exchanges);
        ReplayedConcat(link, old(device), exchanges, stored, checked, device);
        AppendAssociates(old(log), exchanges, checked);
        exchanges := exchanges + checked;
      }
      AppendedParts(old(log), exchanges);
      if |data| > ADDRESS_SPACE {
        OversizedFails(data, exchanges, r);
      }
      assert link == Serve && |data| <= ADDRESS_SPACE ==>
               forall a :: Cell(stored, a) == if 0 <= a < |data| then data[a] else Cell(old(device), a) by {
        ProgramCoverage(old(device), data);
      }
    }
  }

  /** The inner loop of `memory_dump`: each value read is appended to the
      dump, in order. */
  method Append(dump: seq<nat>, values: seq<nat>) returns (extended: seq<nat>)
    ensures extended == dump + values
  {
    extended := dump;
    for j := 0 to |values|
      invariant extended == dump + values[..j]
    {
      assert values[..j + 1] == values[..j] + [values[j]];
      extended := extended + [values[j]];
    }
    assert values[..|values|] == values;
  }

  /** The addresses of the programming loops: each chunk starts where the
      previous one ended, the first at address 0. */
  method PlaceChunks(chunks: seq<seq<Byte>>) returns (plan: seq<Chunk>)
    ensures plan == ProgramPlan(chunks)
  {
    plan := [];
    var address := 0;
    var i := 0;
    while i < |chunks|
      invariant 0 <= i <= |chunks|
      invariant address == Offset(chunks, i)
      invariant plan == ProgramPlan(chunks)[..i]
    {
      plan := plan + [Chunk(address, chunks[i])];
      ChunkAtOffset(chunks, i);
      address := address + |chunks[i]|;
      i := i + 1;
    }
  }
}
