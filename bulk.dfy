/** What the bulk operations of the programmer (fill, program from file,
    memory dump) send and when they stop, stated over the log of exchanges
    on the serial link; and what they leave in a device's memory. */
module Bulk {
  import opened Common
  import opened Validate
  import opened Protocol
  import opened Device
  import opened Chunking

  /** One request written to the link and the reply line read back for it. */
  datatype Exchange = Exchange(request: string, reply: string)

  /** A piece of a bulk transfer: where it goes and the bytes it holds. */
  datatype Chunk = Chunk(address: int, data: seq<Byte>)

  /** A step of a bulk write: write a chunk, or read it back to verify it. */
  datatype Step = WriteStep(chunk: Chunk) | VerifyStep(chunk: Chunk)

  /** Every chunk written in order, then every chunk read back in the same order. */
  function WriteThenVerify(plan: seq<Chunk>): (steps: seq<Step>)
    ensures |steps| == 2 * |plan|
    ensures forall i :: 0 <= i < |plan| ==> steps[i] == WriteStep(plan[i])
    ensures forall i :: 0 <= i < |plan| ==> steps[|plan| + i] == VerifyStep(plan[i])
  {
    seq(|plan|, i requires 0 <= i < |plan| => WriteStep(plan[i]))
      + seq(|plan|, i requires 0 <= i < |plan| => VerifyStep(plan[i]))
  }

  /** The checks `read_chunk` and `write_chunk` make before sending anything:
      the address, then the size. (The size always equals the data length
      and every element is a byte, so their other checks pass.) */
  function ChunkCheck(chunk: Chunk): Outcome {
    if CheckAddress(chunk.address).Fail? then CheckAddress(chunk.address) else CheckChunkSize(|chunk.data|)
  }

  function StepRequest(step: Step): string {
    match step
    case WriteStep(c) => WriteRequest(c.address, |c.data|, c.data)
    case VerifyStep(c) => ReadRequest(c.address, |c.data|)
  }

  /** How a step's reply is judged: a write must be answered "OE"; a read must
      parse and equal the chunk, else the chunk's address is reported. */
  function StepOutcome(step: Step, reply: string): Outcome {
    match step
    case WriteStep(_) => if reply == "OE" then Pass else Fail(UnexpectedTermination(reply))
    case VerifyStep(c) =>
      match ParseReply(reply)
      case Err(e) => Fail(e)
      case Ok(found) => if found == c.data then Pass else Fail(IncorrectData(c.address))
  }

  /** A write step passes exactly on the reply "OE" and otherwise reports
      the reply; a verify step passes exactly when the reply parses to the
      chunk's bytes, and otherwise reports the malformed reply or the
      chunk's address. */
  lemma StepOutcomeCases(chunk: Chunk, reply: string)
    ensures StepOutcome(WriteStep(chunk), reply).Pass? <==> reply == "OE"
    ensures StepOutcome(WriteStep(chunk), reply).Fail? ==>
              StepOutcome(WriteStep(chunk), reply).error == UnexpectedTermination(reply)
    ensures StepOutcome(VerifyStep(chunk), reply).Pass? <==> ParseReply(reply) == Ok(chunk.data)
    ensures StepOutcome(VerifyStep(chunk), reply).Fail? ==>
              StepOutcome(VerifyStep(chunk), reply).error in {MalformedReply(reply), IncorrectData(chunk.address)}
  {
  }

  /** No chunk of the plan is empty. */
  predicate NonEmpty(plan: seq<Chunk>) {
    forall i :: 0 <= i < |plan| ==> |plan[i].data| > 0
  }

  /** Every chunk of the plan passes the address and size checks. */
  predicate Checked(plan: seq<Chunk>) {
    forall i :: 0 <= i < |plan| ==> ChunkCheck(plan[i]).Pass?
  }

  /** Reading each chunk's cells from `memory` gives back the chunk's bytes. */
  predicate ReadsBack(memory: Memory, plan: seq<Chunk>) {
    forall i :: 0 <= i < |plan| ==> Cells(memory, plan[i].address, |plan[i].data|) == plan[i].data
  }

  /** The exchanges are the first steps, in order; each was sent after its
      checks passed and each succeeded. */
  ghost predicate Succeeded(steps: seq<Step>, exchanges: seq<Exchange>) {
    |exchanges| <= |steps| &&
    forall i :: 0 <= i < |exchanges| ==>
      ChunkCheck(steps[i].chunk).Pass? && exchanges[i].request == StepRequest(steps[i])
      && StepOutcome(steps[i], exchanges[i].reply).Pass?
  }

  /** The steps were carried out in order up to the first failure and no
      further: either all of them succeeded and the result is Pass, or the
      next one failed its checks and nothing was sent for it, or the last
      exchange failed; the result is then that failure. */
  ghost predicate Ran(steps: seq<Step>, exchanges: seq<Exchange>, r: Outcome) {
    (Succeeded(steps, exchanges) && |exchanges| == |steps| && r == Pass)
    || (Succeeded(steps, exchanges) && |exchanges| < |steps|
        && ChunkCheck(steps[|exchanges|].chunk).Fail? && r == ChunkCheck(steps[|exchanges|].chunk))
    || (|exchanges| > 0 && Succeeded(steps, exchanges[..|exchanges| - 1]) && |exchanges| <= |steps|
        && var last := |exchanges| - 1;
        ChunkCheck(steps[last].chunk).Pass? && exchanges[last].request == StepRequest(steps[last])
        && StepOutcome(steps[last], exchanges[last].reply).Fail?
        && r == StepOutcome(steps[last], exchanges[last].reply))
  }

  lemma SucceededExtend(steps: seq<Step>, exchanges: seq<Exchange>, next: Exchange)
    requires Succeeded(steps, exchanges) && |exchanges| < |steps|
    requires ChunkCheck(steps[|exchanges|].chunk).Pass? && next.request == StepRequest(steps[|exchanges|])
    requires StepOutcome(steps[|exchanges|], next.reply).Pass?
    ensures Succeeded(steps, exchanges + [next])
  {
    var all := exchanges + [next];
    forall i | 0 <= i < |all|
      ensures ChunkCheck(steps[i].chunk).Pass? && all[i].request == StepRequest(steps[i])
              && StepOutcome(steps[i], all[i].reply).Pass?
    {
      if i < |exchanges| {
        assert all[i] == exchanges[i];
      } else {
        assert i == |exchanges| && all[i] == next;
      }
    }
  }

  lemma FailedAt(steps: seq<Step>, exchanges: seq<Exchange>, next: Exchange, r: Outcome)
    requires Succeeded(steps, exchanges) && |exchanges| < |steps|
    requires ChunkCheck(steps[|exchanges|].chunk).Pass? && next.request == StepRequest(steps[|exchanges|])
    requires StepOutcome(steps[|exchanges|], next.reply).Fail? && r == StepOutcome(steps[|exchanges|], next.reply)
    ensures Ran(steps, exchanges + [next], r)
  {
    assert (exchanges + [next])[..|exchanges|] == exchanges;
  }

  lemma RejectedAt(steps: seq<Step>, exchanges: seq<Exchange>, r: Outcome)
    requires Succeeded(steps, exchanges) && |exchanges| < |steps|
    requires ChunkCheck(steps[|exchanges|].chunk).Fail? && r == ChunkCheck(steps[|exchanges|].chunk)
    ensures Ran(steps, exchanges, r)
  {
  }

  lemma Completed(steps: seq<Step>, exchanges: seq<Exchange>)
    requires Succeeded(steps, exchanges) && |exchanges| == |steps|
    ensures Ran(steps, exchanges, Pass)
  {
  }

  /** One more step carried out: its request went out after its checks
      passed, and its reply was judged; the run goes on or has ended. */
  lemma StepTaken(steps: seq<Step>, done: seq<Exchange>, next: Exchange, r: Outcome)
    requires Succeeded(steps, done) && |done| < |steps|
    requires ChunkCheck(steps[|done|].chunk).Pass? && next.request == StepRequest(steps[|done|])
    requires r == StepOutcome(steps[|done|], next.reply)
    ensures r.Pass? ==> Succeeded(steps, done + [next])
    ensures r.Fail? ==> Ran(steps, done + [next], r)
  {
    if r.Pass? {
      SucceededExtend(steps, done, next);
    } else {
      FailedAt(steps, done, next, r);
    }
  }

  /** A bulk write that passes has written every chunk, had every write
      acknowledged, and read every chunk back exactly as intended. */
  lemma PassMeansVerified(plan: seq<Chunk>, exchanges: seq<Exchange>)
    requires Ran(WriteThenVerify(plan), exchanges, Pass)
    ensures |exchanges| == 2 * |plan|
    ensures forall i :: 0 <= i < |plan| ==>
      exchanges[i] == Exchange(WriteRequest(plan[i].address, |plan[i].data|, plan[i].data), "OE")
    ensures forall i :: 0 <= i < |plan| ==>
      exchanges[|plan| + i].request == ReadRequest(plan[i].address, |plan[i].data|)
      && ParseReply(exchanges[|plan| + i].reply) == Ok(plan[i].data)
  {
    var steps := WriteThenVerify(plan);
    forall i | 0 <= i < |plan|
      ensures exchanges[|plan| + i].request == ReadRequest(plan[i].address, |plan[i].data|)
      ensures ParseReply(exchanges[|plan| + i].reply) == Ok(plan[i].data)
    {
      assert steps[|plan| + i] == VerifyStep(plan[i]);
      assert StepOutcome(steps[|plan| + i], exchanges[|plan| + i].reply).Pass?;
    }
    forall i | 0 <= i < |plan|
      ensures exchanges[i] == Exchange(WriteRequest(plan[i].address, |plan[i].data|, plan[i].data), "OE")
    {
      assert steps[i] == WriteStep(plan[i]);
      assert StepOutcome(steps[i], exchanges[i].reply).Pass?;
    }
  }

  /** A chunk written successfully passed its checks. */
  lemma WrittenChecked(plan: seq<Chunk>, exchanges: seq<Exchange>, i: int)
    requires Succeeded(WriteThenVerify(plan), exchanges) && 0 <= i < |plan| && i < |exchanges|
    ensures ChunkCheck(plan[i]).Pass?
  {
    assert WriteThenVerify(plan)[i] == WriteStep(plan[i]);
  }

  /** A bulk write passes only if every one of its chunks passed the
      address and size checks. */
  lemma PassMeansChecked(plan: seq<Chunk>, exchanges: seq<Exchange>)
    requires Ran(WriteThenVerify(plan), exchanges, Pass)
    ensures Checked(plan)
  {
    forall i | 0 <= i < |plan|
      ensures ChunkCheck(plan[i]).Pass?
    {
      assert WriteThenVerify(plan)[i] == WriteStep(plan[i]);
    }
  }

  /** The payloads of a memory dump's replies laid end to end, or the error of
      the first reply that does not parse. */
  function Concatenated(exchanges: seq<Exchange>): Result<seq<nat>> {
    if |exchanges| == 0 then Ok([])
    else match Concatenated(exchanges[..|exchanges| - 1])
      case Err(e) => Err(e)
      case Ok(previous) =>
        match ParseReply(exchanges[|exchanges| - 1].reply)
        case Err(e) => Err(e)
        case Ok(values) => Ok(previous + values)
  }

  /** Python's `bytearray(values)`: fails unless every value is a byte. */
  function ToByteArray(values: seq<nat>): (r: Result<seq<Byte>>)
    ensures r.Ok? <==> forall i :: 0 <= i < |values| ==> values[i] < 0x100
    ensures r.Ok? ==> r.value == values
  {
    if forall i :: 0 <= i < |values| ==> values[i] < 0x100 then Ok(values) else Err(NotAByte)
  }

  /** Bytes read per request by the memory dump. */
  const DUMP_CHUNK_SIZE := 0x10
  /** Number of read requests of the memory dump: 0x8000 / 0x10 = 2048. */
  const DUMP_CHUNKS := ADDRESS_SPACE / DUMP_CHUNK_SIZE

  /** The dump's reads cover the address space exactly. */
  lemma DumpAddressInRange(k: int)
    ensures DUMP_CHUNKS == 2048 && DUMP_CHUNK_SIZE * DUMP_CHUNKS == ADDRESS_SPACE
    ensures 0 <= k < DUMP_CHUNKS ==> 0 <= DUMP_CHUNK_SIZE * k <= ADDRESS_SPACE - DUMP_CHUNK_SIZE
  {
  }

  /** The cells of the dump's first `k` reads, then those of read `k`, are
      the cells of its first `k + 1` reads. */
  lemma DumpCellsStep(memory: Memory, k: nat)
    ensures Cells(memory, 0, DUMP_CHUNK_SIZE * k) + Cells(memory, DUMP_CHUNK_SIZE * k, DUMP_CHUNK_SIZE)
            == Cells(memory, 0, DUMP_CHUNK_SIZE * (k + 1))
  {
    CellsSplit(memory, 0, DUMP_CHUNK_SIZE * k, DUMP_CHUNK_SIZE);
  }

  /** The memory dump's read number `k`: 16 bytes from address 16 * k. */
  function DumpRequest(k: int): string {
    ReadRequest(DUMP_CHUNK_SIZE * k, DUMP_CHUNK_SIZE)
  }

  /** The exchanges are the memory dump's first reads, in order. */
  predicate DumpRequests(exchanges: seq<Exchange>) {
    |exchanges| <= DUMP_CHUNKS && forall k :: 0 <= k < |exchanges| ==> exchanges[k].request == DumpRequest(k)
  }

  /** A memory dump ran to its end: either every read was made and every
      reply parsed, and the result is the bytearray of their values in
      order; or the reads stopped at the first reply that did not parse,
      and the result is its error. */
  ghost predicate Dumped(exchanges: seq<Exchange>, r: Result<seq<Byte>>) {
    DumpRequests(exchanges)
    && ((|exchanges| == DUMP_CHUNKS && Concatenated(exchanges).Ok?
         && r == ToByteArray(Concatenated(exchanges).value))
        || (|exchanges| > 0 && Concatenated(exchanges[..|exchanges| - 1]).Ok?
            && Concatenated(exchanges).Err? && r == Err(Concatenated(exchanges).error)))
  }

  /** One more read of the dump whose reply parsed extends the values read. */
  lemma DumpExtended(done: seq<Exchange>, next: Exchange, dump: seq<nat>, values: seq<nat>)
    requires DumpRequests(done) && |done| < DUMP_CHUNKS && next.request == DumpRequest(|done|)
    requires Concatenated(done) == Ok(dump) && ParseReply(next.reply) == Ok(values)
    ensures DumpRequests(done + [next]) && Concatenated(done + [next]) == Ok(dump + values)
  {
    DumpRequestsExtended(done, next);
    ConcatenatedStep(done, next);
  }

  lemma DumpRequestsExtended(done: seq<Exchange>, next: Exchange)
    requires DumpRequests(done) && |done| < DUMP_CHUNKS && next.request == DumpRequest(|done|)
    ensures DumpRequests(done + [next])
  {
    var all := done + [next];
    forall k | 0 <= k < |all|
      ensures all[k].request == DumpRequest(k)
    {
      if k < |done| {
        assert all[k] == done[k];
      } else {
        assert k == |done| && all[k] == next;
      }
    }
  }

  /** `Concatenated` of one more exchange: the earlier result, then the last reply. */
  lemma ConcatenatedStep(done: seq<Exchange>, next: Exchange)
    ensures Concatenated(done + [next]) ==
              match Concatenated(done)
              case Err(e) => Err(e)
              case Ok(previous) =>
                match ParseReply(next.reply)
                case Err(e) => Err(e)
                case Ok(values) => Ok(previous + values)
  {
    AppendedParts(done, [next]);
  }

  /** A read of the dump whose reply does not parse ends it with that error. */
  lemma DumpStopped(done: seq<Exchange>, next: Exchange, dump: seq<nat>, e: Error)
    requires DumpRequests(done) && |done| < DUMP_CHUNKS && next.request == DumpRequest(|done|)
    requires Concatenated(done) == Ok(dump) && ParseReply(next.reply) == Err(e)
    ensures Dumped(done + [next], Err(e))
  {
    DumpRequestsExtended(done, next);
    ConcatenatedStep(done, next);
    AppendedParts(done, [next]);
  }

  /** After the last read, the result is the bytearray of everything read. */
  lemma DumpFinished(done: seq<Exchange>, dump: seq<nat>)
    requires DumpRequests(done) && |done| == DUMP_CHUNKS && Concatenated(done) == Ok(dump)
    ensures Dumped(done, ToByteArray(dump))
  {
  }

  /** The memory after every chunk of a plan was stored, in plan order. */
  function ApplyPlan(memory: Memory, plan: seq<Chunk>): Memory {
    if |plan| == 0 then memory
    else Store(ApplyPlan(memory, plan[..|plan| - 1]), plan[|plan| - 1].address, plan[|plan| - 1].data)
  }

  /** `fill`'s buffer: one chunk of the fill value. */
  function Uniform(value: Byte): (buffer: seq<Byte>)
    ensures |buffer| == MAX_CHUNK_SIZE
  {
    seq(MAX_CHUNK_SIZE, _ => value)
  }

  /** `fill`'s chunks: 0x8000 / 256 = 128 of them, chunk k at address 256 * k. */
  function FillPlan(value: Byte): (plan: seq<Chunk>)
    ensures |plan| == ADDRESS_SPACE / MAX_CHUNK_SIZE == 128
  {
    seq(ADDRESS_SPACE / MAX_CHUNK_SIZE, k requires 0 <= k < ADDRESS_SPACE / MAX_CHUNK_SIZE =>
      Chunk(MAX_CHUNK_SIZE * k, Uniform(value)))
  }

  /** Every chunk of `fill` passes the checks of `write_chunk`. */
  lemma FillPlanChecked(value: Byte)
    ensures Checked(FillPlan(value)) && NonEmpty(FillPlan(value))
  {
    forall k | 0 <= k < |FillPlan(value)|
      ensures ChunkCheck(FillPlan(value)[k]).Pass? && |FillPlan(value)[k].data| == MAX_CHUNK_SIZE
    {
      var c := FillPlan(value)[k];
      assert c == Chunk(MAX_CHUNK_SIZE * k, Uniform(value));
      assert MAX_CHUNK_SIZE * k <= MAX_CHUNK_SIZE * 127;
      assert CheckAddress(c.address).Pass? && CheckChunkSize(|c.data|).Pass?;
    }
  }

  /** The file chunks with the addresses the programming loop gives them:
      each chunk starts where the previous ones end. */
  function ProgramPlan(chunks: seq<seq<Byte>>): (plan: seq<Chunk>)
    ensures |plan| == |chunks|
  {
    seq(|chunks|, i requires 0 <= i < |chunks| => Chunk(Offset(chunks, i), chunks[i]))
  }

  lemma {:induction false} FillCoverageUpTo(memory: Memory, value: Byte, k: nat)
    requires k <= |FillPlan(value)|
    ensures forall a :: Cell(ApplyPlan(memory, FillPlan(value)[..k]), a)
                          == if 0 <= a < MAX_CHUNK_SIZE * k then value else Cell(memory, a)
  {
    if k > 0 {
      var plan := FillPlan(value);
      FillCoverageUpTo(memory, value, k - 1);
      assert plan[..k][..k - 1] == plan[..k - 1];
      var c := plan[k - 1];
      assert c.address == MAX_CHUNK_SIZE * (k - 1) && c.data == Uniform(value);
      assert ApplyPlan(memory, plan[..k]) == Store(ApplyPlan(memory, plan[..k - 1]), c.address, c.data);
    }
  }

  /** `fill`'s chunks cover the whole address space: afterwards every cell
      holds the fill value, and nothing outside it was touched. */
  lemma FillCoverage(memory: Memory, value: Byte)
    ensures forall a :: Cell(ApplyPlan(memory, FillPlan(value)), a)
                          == if 0 <= a < ADDRESS_SPACE then value else Cell(memory, a)
  {
    var plan := FillPlan(value);
    FillCoverageUpTo(memory, value, |plan|);
    assert plan[..|plan|] == plan;
  }

  /** After `fill`'s chunks are stored, every chunk of the address space
      reads back as the fill buffer. */
  lemma FillReadBack(memory: Memory, value: Byte)
    ensures ReadsBack(ApplyPlan(memory, FillPlan(value)), FillPlan(value))
  {
    var plan := FillPlan(value);
    var filled := ApplyPlan(memory, plan);
    FillCoverage(memory, value);
    forall k | 0 <= k < |plan|
      ensures Cells(filled, plan[k].address, |plan[k].data|) == plan[k].data
    {
      assert plan[k] == Chunk(MAX_CHUNK_SIZE * k, Uniform(value));
      assert MAX_CHUNK_SIZE * k + MAX_CHUNK_SIZE <= ADDRESS_SPACE by {
        assert MAX_CHUNK_SIZE * k <= MAX_CHUNK_SIZE * 127;
      }
      forall j | 0 <= j < MAX_CHUNK_SIZE
        ensures Cells(filled, MAX_CHUNK_SIZE * k, MAX_CHUNK_SIZE)[j] == value
      {
        assert 0 <= MAX_CHUNK_SIZE * k + j < ADDRESS_SPACE;
      }
    }
  }

  lemma {:induction false} FlattenPrefix(chunks: seq<seq<Byte>>, k: nat)
    requires k <= |chunks|
    ensures Offset(chunks, k) <= |Flatten(chunks)|
    ensures Flatten(chunks)[..Offset(chunks, k)] == Flatten(chunks[..k])
  {
    if k == |chunks| {
      assert chunks[..k] == chunks;
    } else {
      var n := |chunks|;
      FlattenPrefix(chunks[..n - 1], k);
      assert chunks[..n - 1][..k] == chunks[..k];
    }
  }

  /** Chunk k sits in the flattened data right at its offset, and the next
      offset is that offset plus the chunk's length. */
  lemma ChunkAtOffset(chunks: seq<seq<Byte>>, k: nat)
    requires k < |chunks|
    ensures Offset(chunks, k + 1) == Offset(chunks, k) + |chunks[k]| <= |Flatten(chunks)|
    ensures Flatten(chunks)[Offset(chunks, k)..Offset(chunks, k + 1)] == chunks[k]
  {
    assert chunks[..k + 1][..k] == chunks[..k];
    FlattenPrefix(chunks, k + 1);
  }

  lemma {:induction false} ProgramCoverageUpTo(memory: Memory, chunks: seq<seq<Byte>>, k: nat)
    requires k <= |chunks|
    ensures Offset(chunks, k) <= |Flatten(chunks)|
    ensures forall a :: Cell(ApplyPlan(memory, ProgramPlan(chunks)[..k]), a)
                          == if 0 <= a < Offset(chunks, k) then Flatten(chunks)[a] else Cell(memory, a)
  {
    FlattenPrefix(chunks, k);
    if k > 0 {
      var plan := ProgramPlan(chunks);
      ProgramCoverageUpTo(memory, chunks, k - 1);
      assert plan[..k][..k - 1] == plan[..k - 1];
      ChunkAtOffset(chunks, k - 1);
    }
  }

  /** Programming a file's chunks leaves the file's bytes at addresses
      0 .. |data| - 1, and nothing else touched. */
  lemma ProgramCoverage(memory: Memory, data: seq<Byte>)
    ensures forall a :: Cell(ApplyPlan(memory, ProgramPlan(Chunks(data))), a)
                          == if 0 <= a < |data| then data[a] else Cell(memory, a)
  {
    var chunks := Chunks(data);
    var plan := ProgramPlan(chunks);
    ProgramCoverageUpTo(memory, chunks, |chunks|);
    assert chunks[..|chunks|] == chunks;
    assert plan[..|plan|] == plan;
    ChunksFlatten(data);
  }

  /** After a file's chunks are stored, each chunk reads back as itself. */
  lemma ProgramReadBack(memory: Memory, data: seq<Byte>)
    ensures ReadsBack(ApplyPlan(memory, ProgramPlan(Chunks(data))), ProgramPlan(Chunks(data)))
  {
    var plan := ProgramPlan(Chunks(data));
    var stored := ApplyPlan(memory, plan);
    ProgramCoverage(memory, data);
    forall i | 0 <= i < |plan|
      ensures Cells(stored, plan[i].address, |plan[i].data|) == plan[i].data
    {
      ChunkLayout(data, i);
      StoredChunk(memory, stored, data, i);
    }
  }

  /** Chunk i of a file, read from a memory holding the file at 0.., is
      itself. */
  lemma StoredChunk(memory: Memory, stored: Memory, data: seq<Byte>, i: nat)
    requires forall a :: Cell(stored, a) == if 0 <= a < |data| then data[a] else Cell(memory, a)
    requires i < |Chunks(data)|
    ensures Cells(stored, i * MAX_CHUNK_SIZE, |Chunks(data)[i]|) == Chunks(data)[i]
  {
    var chunk := Chunks(data)[i];
    ChunkLayout(data, i);
    assert i * MAX_CHUNK_SIZE + |chunk| <= |data|;
    forall j | 0 <= j < |chunk|
      ensures Cells(stored, i * MAX_CHUNK_SIZE, |chunk|)[j] == chunk[j]
    {
      assert chunk[j] == data[i * MAX_CHUNK_SIZE + j];
    }
  }

  /** A file's chunks are never empty, and when the file fits in the address
      space they all pass the checks of `write_chunk`. */
  lemma ProgramPlanChecked(data: seq<Byte>)
    ensures NonEmpty(ProgramPlan(Chunks(data)))
    ensures |data| <= ADDRESS_SPACE ==> Checked(ProgramPlan(Chunks(data)))
  {
    var plan := ProgramPlan(Chunks(data));
    ChunksFlatten(data);
    forall i | 0 <= i < |plan|
      ensures |plan[i].data| > 0
      ensures |data| <= ADDRESS_SPACE ==> ChunkCheck(plan[i]).Pass?
    {
      ChunkLayout(data, i);
      assert i * MAX_CHUNK_SIZE < |data|;
    }
  }

  /** A file longer than the address space has a chunk starting past the last
      address: chunk number 0x8000 / 256 starts at 0x8000. */
  lemma OversizedChunk(data: seq<Byte>)
    requires |data| > ADDRESS_SPACE
    ensures ADDRESS_SPACE / MAX_CHUNK_SIZE < |ProgramPlan(Chunks(data))|
    ensures ChunkCheck(ProgramPlan(Chunks(data))[ADDRESS_SPACE / MAX_CHUNK_SIZE]) == Fail(InvalidAddress(ADDRESS_SPACE))
  {
    var k := ADDRESS_SPACE / MAX_CHUNK_SIZE;
    var reminder := |data| % MAX_CHUNK_SIZE;
    var complete := (|data| - reminder) / MAX_CHUNK_SIZE;
    assert complete * MAX_CHUNK_SIZE == |data| - reminder;
    assert |Chunks(data)| == complete + if reminder != 0 then 1 else 0;
    ChunkLayout(data, k);
  }

  /** A file larger than the memory is never programmed successfully: the
      chunk that starts past the last address fails its address check. */
  lemma OversizedFails(data: seq<Byte>, exchanges: seq<Exchange>, r: Outcome)
    requires |data| > ADDRESS_SPACE
    requires Ran(WriteThenVerify(ProgramPlan(Chunks(data))), exchanges, r)
    ensures r.Fail?
  {
    if r.Pass? {
      OversizedChunk(data);
      PassMeansChecked(ProgramPlan(Chunks(data)), exchanges);
    }
  }
}
