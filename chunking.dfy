/** How "program from binary file" cuts the file's bytes into chunks of at
    most MAX_CHUNK_SIZE bytes: every full chunk first, then the remainder. */
module Chunking {
  import opened Common
  import opened Validate

  /** The chunks as the split is evidently meant to produce them: chunk i is
      the slice [i * 256, (i + 1) * 256) of the data, and a shorter last chunk
      holds the remaining bytes when there are any. */
  function Chunks(data: seq<Byte>): (chunks: seq<seq<Byte>>)
  {
    var reminder := |data| % MAX_CHUNK_SIZE;
    var complete := (|data| - reminder) / MAX_CHUNK_SIZE;
    assert complete * MAX_CHUNK_SIZE == |data| - reminder;
    seq(complete, i requires 0 <= i < complete => data[i * MAX_CHUNK_SIZE..(i + 1) * MAX_CHUNK_SIZE])
      + (if reminder != 0 then [data[|data| - reminder..]] else [])
  }

  /** The split as written: the full chunks are taken with a tuple subscript
      `data[a, b]`, which Python rejects with a TypeError, so the split fails
      (`None`) as soon as there is one full chunk to take. */
  function SplitAsWritten(data: seq<Byte>): (r: Option<seq<seq<Byte>>>)
  {
    var reminder := |data| % MAX_CHUNK_SIZE;
    var complete := (|data| - reminder) / MAX_CHUNK_SIZE;
    if complete > 0 then None
    else Some(if reminder != 0 then [data[|data| - reminder..]] else [])
  }

  /** All chunks laid end to end. */
  function Flatten(chunks: seq<seq<Byte>>): seq<Byte> {
    if |chunks| == 0 then [] else Flatten(chunks[..|chunks| - 1]) + chunks[|chunks| - 1]
  }

  /** Where chunk i is written: the total length of the chunks before it. */
  function Offset(chunks: seq<seq<Byte>>, i: nat): nat
    requires i <= |chunks|
  {
    |Flatten(chunks[..i])|
  }

  /** The source's own split of lines 184-192, with the intended slice: full
      chunks are appended one by one, then the remainder if it is non-zero. */
  method SplitIntoChunks(data: seq<Byte>) returns (chunks: seq<seq<Byte>>)
    ensures chunks == Chunks(data)
  {
    var reminder := |data| % MAX_CHUNK_SIZE;
    var completeChunks := (|data| - reminder) / MAX_CHUNK_SIZE;
    assert completeChunks * MAX_CHUNK_SIZE == |data| - reminder;
    chunks := [];
    var i := 0;
    while i < completeChunks
      invariant 0 <= i <= completeChunks
      invariant chunks == Chunks(data)[..i]
    {
      chunks := chunks + [data[i * MAX_CHUNK_SIZE..(i + 1) * MAX_CHUNK_SIZE]];
      i := i + 1;
    }
    if reminder != 0 {
      chunks := chunks + [data[|data| - reminder..]];
    }
  }

  /** The as-written split fails on every file of at least one full chunk. */
  lemma SplitAsWrittenFailsOnFullChunk(data: seq<Byte>)
    requires |data| >= MAX_CHUNK_SIZE
    ensures SplitAsWritten(data) == None
  {
  }

  /** A file shorter than one chunk never reaches the tuple subscript, and
      there the as-written split agrees with the intended one. */
  lemma SplitAsWrittenShortFile(data: seq<Byte>)
    requires |data| < MAX_CHUNK_SIZE
    ensures SplitAsWritten(data) == Some(Chunks(data))
  {
    var reminder := |data| % MAX_CHUNK_SIZE;
    assert reminder == |data|;
    assert (|data| - reminder) / MAX_CHUNK_SIZE == 0;
    assert Chunks(data) == (if reminder != 0 then [data[|data| - reminder..]] else []);
    assert SplitAsWritten(data) == Some(if reminder != 0 then [data[|data| - reminder..]] else []);
  }

  lemma {:induction false} FlattenFullChunks(data: seq<Byte>, k: nat)
    requires k * MAX_CHUNK_SIZE <= |data|
    ensures k <= |Chunks(data)|
    ensures Flatten(Chunks(data)[..k]) == data[..k * MAX_CHUNK_SIZE]
  {
    var chunks := Chunks(data);
    assert k <= |chunks| by {
      var reminder := |data| % MAX_CHUNK_SIZE;
      assert (|data| - reminder) / MAX_CHUNK_SIZE * MAX_CHUNK_SIZE == |data| - reminder;
    }
    if k > 0 {
      FlattenFullChunks(data, k - 1);
      assert chunks[..k][..k - 1] == chunks[..k - 1];
      assert chunks[k - 1] == data[(k - 1) * MAX_CHUNK_SIZE..k * MAX_CHUNK_SIZE];
      assert data[..k * MAX_CHUNK_SIZE] == data[..(k - 1) * MAX_CHUNK_SIZE] + data[(k - 1) * MAX_CHUNK_SIZE..k * MAX_CHUNK_SIZE];
    }
  }

  /** Laid end to end, the chunks give back the file exactly. */
  lemma ChunksFlatten(data: seq<Byte>)
    ensures Flatten(Chunks(data)) == data
  {
    var chunks := Chunks(data);
    var reminder := |data| % MAX_CHUNK_SIZE;
    var complete := (|data| - reminder) / MAX_CHUNK_SIZE;
    assert complete * MAX_CHUNK_SIZE == |data| - reminder;
    FlattenFullChunks(data, complete);
    if reminder == 0 {
      assert chunks[..complete] == chunks;
    } else {
      assert chunks[..complete + 1][..complete] == chunks[..complete];
      assert chunks[..complete + 1] == chunks;
      assert data == data[..complete * MAX_CHUNK_SIZE] + data[|data| - reminder..];
    }
  }

  /** Chunk i starts at byte i * 256 of the file and of the device, holds the
      next 256 bytes or, for the last one, what remains; no chunk is empty. */
  lemma ChunkLayout(data: seq<Byte>, i: nat)
    requires i < |Chunks(data)|
    ensures (i + 1) * MAX_CHUNK_SIZE <= |data| ==> Chunks(data)[i] == data[i * MAX_CHUNK_SIZE..(i + 1) * MAX_CHUNK_SIZE]
    ensures (i + 1) * MAX_CHUNK_SIZE > |data| ==> i == |Chunks(data)| - 1 && Chunks(data)[i] == data[i * MAX_CHUNK_SIZE..]
    ensures 1 <= |Chunks(data)[i]| <= MAX_CHUNK_SIZE
    ensures Offset(Chunks(data), i) == i * MAX_CHUNK_SIZE
  {
    var chunks := Chunks(data);
    var reminder := |data| % MAX_CHUNK_SIZE;
    var complete := (|data| - reminder) / MAX_CHUNK_SIZE;
    assert complete * MAX_CHUNK_SIZE == |data| - reminder;
    if i < complete {
      assert (i + 1) * MAX_CHUNK_SIZE <= complete * MAX_CHUNK_SIZE;
    } else {
      assert i == complete;
    }
    FlattenFullChunks(data, i);
  }

  /** The file of 300 bytes: one chunk of 256 at address 0 and one of 44 at 256. */
  lemma ThreeHundredBytes(data: seq<Byte>)
    requires |data| == 300
    ensures Chunks(data) == [data[..256], data[256..]]
    ensures Offset(Chunks(data), 0) == 0 && Offset(Chunks(data), 1) == 256
  {
    ChunkLayout(data, 0);
    ChunkLayout(data, 1);
  }
}
