/** The serial link as the device at its far end sees it: every request
    changes the device's memory and draws a reply, and a log of exchanges
    is faithful when each reply is the one the device gave. Over a faithful
    log, the specifications of the bulk operations pin down a single run. */
module Replay {
  import opened Common
  import opened Validate
  import opened Device
  import opened Bulk
  import opened Protocol

  /** The far end of the serial link (the firmware and the chip behind it):
      from the device's memory and a request line, its new memory and the
      reply line, already cut free of its terminator. */
  type Link = (Memory, string) -> (Memory, string)

  /** The memory the device holds after handling the requests of
      `exchanges` in order, starting from `memory`. */
  ghost function After(link: Link, memory: Memory, exchanges: seq<Exchange>): Memory
    decreases |exchanges|
  {
    if |exchanges| == 0 then memory
    else link(After(link, memory, exchanges[..|exchanges| - 1]), exchanges[|exchanges| - 1].request).0
  }

  /** Exchange `i`'s reply is the device's reply to its request, in the
      memory the exchanges before it left. */
  ghost predicate Answered(link: Link, before: Memory, exchanges: seq<Exchange>, i: int)
    requires 0 <= i < |exchanges|
  {
    link(After(link, before, exchanges[..i]), exchanges[i].request).1 == exchanges[i].reply
  }

  /** The log is what the link answered: every reply is the device's reply
      to its request, and `after` is the memory the last request left. */
  ghost predicate Replayed(link: Link, before: Memory, exchanges: seq<Exchange>, after: Memory) {
    After(link, before, exchanges) == after
    && forall i :: 0 <= i < |exchanges| ==> Answered(link, before, exchanges, i)
  }

  /** A faithful log stays faithful when the next request is sent and its
      reply logged. */
  lemma ReplayedSent(link: Link, before: Memory, done: seq<Exchange>, middle: Memory,
                     request: string, reply: string, after: Memory)
    requires Replayed(link, before, done, middle)
    requires link(middle, request) == (after, reply)
    ensures Replayed(link, before, done + [Exchange(request, reply)], after)
  {
    var all := done + [Exchange(request, reply)];
    assert all[..|done|] == done;
    forall i | 0 <= i < |all|
      ensures Answered(link, before, all, i)
    {
      if i < |done| {
        assert Answered(link, before, done, i);
        assert all[..i] == done[..i] && all[i] == done[i];
      }
    }
  }

  /** Any prefix of a faithful log is faithful. */
  lemma ReplayedPrefix(link: Link, before: Memory, exchanges: seq<Exchange>, after: Memory, k: nat)
    requires Replayed(link, before, exchanges, after) && k <= |exchanges|
    ensures Replayed(link, before, exchanges[..k], After(link, before, exchanges[..k]))
  {
    var prefix := exchanges[..k];
    forall i | 0 <= i < k
      ensures Answered(link, before, prefix, i)
    {
      assert Answered(link, before, exchanges, i);
      assert prefix[..i] == exchanges[..i];
    }
  }

  /** Two faithful logs, the second starting where the first left the
      memory, make one faithful log. */
  lemma {:induction false} ReplayedConcat(link: Link, before: Memory, first: seq<Exchange>, middle: Memory,
                                          second: seq<Exchange>, after: Memory)
    requires Replayed(link, before, first, middle) && Replayed(link, middle, second, after)
    ensures Replayed(link, before, first + second, after)
    decreases |second|
  {
    if |second| == 0 {
      assert first + second == first;
    } else {
      var last := |second| - 1;
      var shorter := second[..last];
      ReplayedPrefix(link, middle, second, after, last);
      ReplayedConcat(link, before, first, middle, shorter, After(link, middle, shorter));
      assert Answered(link, middle, second, last);
      ReplayedSent(link, before, first + shorter, After(link, middle, shorter),
                   second[last].request, second[last].reply, after);
      assert first + shorter + [Exchange(second[last].request, second[last].reply)] == first + second;
    }
  }

  /** What a run guarantees about each of its exchanges: it is the request of
      its step, sent after the step's checks passed, and every exchange but
      the last succeeded. */
  lemma RanShape(steps: seq<Step>, exchanges: seq<Exchange>, r: Outcome)
    requires Ran(steps, exchanges, r)
    ensures |exchanges| <= |steps|
    ensures forall i :: 0 <= i < |exchanges| ==>
              ChunkCheck(steps[i].chunk).Pass? && exchanges[i].request == StepRequest(steps[i])
    ensures forall i :: 0 <= i < |exchanges| - 1 ==> StepOutcome(steps[i], exchanges[i].reply).Pass?
  {
    if !Succeeded(steps, exchanges) {
      var last := |exchanges| - 1;
      var earlier := exchanges[..last];
      assert Succeeded(steps, earlier) && ChunkCheck(steps[last].chunk).Pass?
             && exchanges[last].request == StepRequest(steps[last]);
      forall i | 0 <= i < |exchanges|
        ensures ChunkCheck(steps[i].chunk).Pass? && exchanges[i].request == StepRequest(steps[i])
        ensures i < last ==> StepOutcome(steps[i], exchanges[i].reply).Pass?
      {
        if i < last {
          assert earlier[i] == exchanges[i];
        } else {
          assert i == last;
        }
      }
    }
  }

  /** In a faithful log, exchange `i`'s reply is the device's reply to its
      request in the memory the exchanges before it left. */
  lemma ReplyAt(link: Link, before: Memory, exchanges: seq<Exchange>, after: Memory, i: nat)
    requires Replayed(link, before, exchanges, after) && i < |exchanges|
    ensures exchanges[i].reply == link(After(link, before, exchanges[..i]), exchanges[i].request).1
  {
    assert Answered(link, before, exchanges, i);
  }

  /** Two faithful logs from the same memory whose first `k` requests agree
      also agree in their first `k` replies. */
  lemma {:induction false} SameRequestsSameReplies(link: Link, before: Memory,
                                                   one: seq<Exchange>, oneAfter: Memory,
                                                   other: seq<Exchange>, otherAfter: Memory, k: nat)
    requires Replayed(link, before, one, oneAfter) && Replayed(link, before, other, otherAfter)
    requires k <= |one| && k <= |other|
    requires forall i :: 0 <= i < k ==> one[i].request == other[i].request
    ensures one[..k] == other[..k]
    decreases k
  {
    if k > 0 {
      SameRequestsSameReplies(link, before, one, oneAfter, other, otherAfter, k - 1);
      SameReply(link, before, one, oneAfter, other, otherAfter, k - 1);
      SnocEqual(one, other, k);
    }
  }

  /** The next reply of two faithful logs that agree so far, for the same
      request, is the same. */
  lemma SameReply(link: Link, before: Memory, one: seq<Exchange>, oneAfter: Memory,
                  other: seq<Exchange>, otherAfter: Memory, i: nat)
    requires Replayed(link, before, one, oneAfter) && Replayed(link, before, other, otherAfter)
    requires i < |one| && i < |other| && one[..i] == other[..i] && one[i].request == other[i].request
    ensures one[i] == other[i]
  {
    ReplyAt(link, before, one, oneAfter, i);
    ReplyAt(link, before, other, otherAfter, i);
  }

  lemma SnocEqual<T>(a: seq<T>, b: seq<T>, k: nat)
    requires 0 < k <= |a| && k <= |b| && a[..k - 1] == b[..k - 1] && a[k - 1] == b[k - 1]
    ensures a[..k] == b[..k]
  {
    assert a[..k] == a[..k - 1] + [a[k - 1]];
    assert b[..k] == b[..k - 1] + [b[k - 1]];
  }

  /** Why a run stopped short of its steps: the next step failed its
      checks, or the last exchange failed. */
  lemma RanStops(steps: seq<Step>, exchanges: seq<Exchange>, r: Outcome)
    requires Ran(steps, exchanges, r)
    ensures |exchanges| < |steps| ==>
              ChunkCheck(steps[|exchanges|].chunk).Fail?
              || (|exchanges| > 0 && StepOutcome(steps[|exchanges| - 1], exchanges[|exchanges| - 1].reply).Fail?)
  {
  }

  /** A run over a faithful log cannot stop before another run of the same
      steps over a faithful log from the same memory. */
  lemma NotShorter(link: Link, before: Memory, steps: seq<Step>,
                   one: seq<Exchange>, oneAfter: Memory, oneOutcome: Outcome,
                   other: seq<Exchange>, otherAfter: Memory, otherOutcome: Outcome)
    requires Replayed(link, before, one, oneAfter) && Ran(steps, one, oneOutcome)
    requires Replayed(link, before, other, otherAfter) && Ran(steps, other, otherOutcome)
    ensures |one| >= |other|
  {
    RanShape(steps, one, oneOutcome);
    RanShape(steps, other, otherOutcome);
    RanStops(steps, one, oneOutcome);
    var n := if |one| < |other| then |one| else |other|;
    SameRequestsSameReplies(link, before, one, oneAfter, other, otherAfter, n);
    assert forall i :: 0 <= i < n ==> one[i] == other[i] by {
      forall i | 0 <= i < n
        ensures one[i] == other[i]
      {
        assert one[..n][i] == other[..n][i];
      }
    }
    if |one| < |other| {
      assert false;
    }
  }

  /** The outcome a run ends with is the one its log determines: the last
      step's failure when the log did not succeed, Pass when every step was
      carried out, and otherwise the failed check of the next step. */
  lemma RanOutcome(steps: seq<Step>, exchanges: seq<Exchange>, r: Outcome)
    requires Ran(steps, exchanges, r)
    ensures !Succeeded(steps, exchanges) ==>
              |exchanges| > 0 && r == StepOutcome(steps[|exchanges| - 1], exchanges[|exchanges| - 1].reply)
    ensures Succeeded(steps, exchanges) && |exchanges| == |steps| ==> r == Pass
    ensures Succeeded(steps, exchanges) && |exchanges| < |steps| ==> r == ChunkCheck(steps[|exchanges|].chunk)
  {
    if Succeeded(steps, exchanges) && |exchanges| > 0 {
      var last := |exchanges| - 1;
      assert StepOutcome(steps[last], exchanges[last].reply).Pass?;
    }
  }

  /** Two runs of the same steps over faithful logs from the same memory
      made the same exchanges. */
  lemma SameExchanges(link: Link, before: Memory, steps: seq<Step>,
                      one: seq<Exchange>, oneAfter: Memory, oneOutcome: Outcome,
                      other: seq<Exchange>, otherAfter: Memory, otherOutcome: Outcome)
    requires Replayed(link, before, one, oneAfter) && Ran(steps, one, oneOutcome)
    requires Replayed(link, before, other, otherAfter) && Ran(steps, other, otherOutcome)
    ensures one == other
  {
    NotShorter(link, before, steps, one, oneAfter, oneOutcome, other, otherAfter, otherOutcome);
    NotShorter(link, before, steps, other, otherAfter, otherOutcome, one, oneAfter, oneOutcome);
    RanShape(steps, one, oneOutcome);
    RanShape(steps, other, otherOutcome);
    SameRequestsSameReplies(link, before, one, oneAfter, other, otherAfter, |one|);
    assert one == one[..|one|] && other == other[..|other|];
  }

  /** The specification of a bulk run determines it: over faithful logs from
      the same memory, two runs of the same steps made the same exchanges,
      left the same memory and ended with the same outcome. */
  lemma RunDetermined(link: Link, before: Memory, steps: seq<Step>,
                      one: seq<Exchange>, oneAfter: Memory, oneOutcome: Outcome,
                      other: seq<Exchange>, otherAfter: Memory, otherOutcome: Outcome)
    requires Replayed(link, before, one, oneAfter) && Ran(steps, one, oneOutcome)
    requires Replayed(link, before, other, otherAfter) && Ran(steps, other, otherOutcome)
    ensures one == other && oneAfter == otherAfter && oneOutcome == otherOutcome
  {
    SameExchanges(link, before, steps, one, oneAfter, oneOutcome, other, otherAfter, otherOutcome);
    RanOutcome(steps, one, oneOutcome);
    RanOutcome(steps, other, otherOutcome);
  }

  /** The first `k` exchanges of a successful run are a successful run. */
  lemma SucceededPrefix(steps: seq<Step>, exchanges: seq<Exchange>, k: nat)
    requires Succeeded(steps, exchanges) && k <= |exchanges|
    ensures Succeeded(steps, exchanges[..k])
  {
    forall i | 0 <= i < k
      ensures ChunkCheck(steps[i].chunk).Pass? && exchanges[..k][i].request == StepRequest(steps[i])
              && StepOutcome(steps[i], exchanges[..k][i].reply).Pass?
    {
      assert exchanges[..k][i] == exchanges[i];
    }
  }

  /** The device's answer to the write request of a chunk. */
  ghost function WriteServed(link: Link, memory: Memory, chunk: Chunk): (Memory, string) {
    link(memory, StepRequest(WriteStep(chunk)))
  }

  /** A device that stores the bytes of every write request that passed the
      programmer's checks and acknowledges it with "OE", as the reference
      device does. */
  ghost predicate StoresWrites(link: Link) {
    forall memory, chunk :: ChunkCheck(chunk).Pass? ==>
      WriteServed(link, memory, chunk) == (Store(memory, chunk.address, chunk.data), "OE")
  }

  lemma ServeStoresWrites()
    ensures StoresWrites(Serve)
  {
    forall memory, chunk | ChunkCheck(chunk).Pass?
      ensures WriteServed(Serve, memory, chunk) == (Store(memory, chunk.address, chunk.data), "OE")
    {
      assert StepRequest(WriteStep(chunk)) == WriteRequest(chunk.address, |chunk.data|, chunk.data);
      ServeWrite(memory, chunk.address, chunk.data);
    }
  }

  /** A write step whose chunk passed its checks is acknowledged and
      stored by a device that stores writes. */
  lemma WriteAcknowledged(link: Link, memory: Memory, chunk: Chunk)
    requires StoresWrites(link) && ChunkCheck(chunk).Pass?
    ensures link(memory, StepRequest(WriteStep(chunk))) == (Store(memory, chunk.address, chunk.data), "OE")
  {
    assert WriteServed(link, memory, chunk) == (Store(memory, chunk.address, chunk.data), "OE");
  }

  lemma ApplyPlanStep(memory: Memory, plan: seq<Chunk>, k: nat)
    requires 0 < k <= |plan|
    ensures ApplyPlan(memory, plan[..k]) == Store(ApplyPlan(memory, plan[..k - 1]), plan[k - 1].address, plan[k - 1].data)
  {
    assert plan[..k][..k - 1] == plan[..k - 1];
  }

  /** The last exchange of a faithful log, a write of a chunk that passed
      its checks, left that chunk stored over the memory before it. */
  lemma ServedWriteStep(link: Link, before: Memory, done: seq<Exchange>, after: Memory, chunk: Chunk)
    requires StoresWrites(link) && ChunkCheck(chunk).Pass?
    requires Replayed(link, before, done, after) && |done| > 0
    requires done[|done| - 1].request == StepRequest(WriteStep(chunk))
    ensures after == Store(After(link, before, done[..|done| - 1]), chunk.address, chunk.data)
  {
    WriteAcknowledged(link, After(link, before, done[..|done| - 1]), chunk);
  }

  /** The writes of a plan were sent in order, each after its chunk passed
      its checks. */
  ghost predicate WritesSent(plan: seq<Chunk>, done: seq<Exchange>)
    decreases |done|
  {
    |done| <= |plan|
    && (|done| == 0
        || (WritesSent(plan, done[..|done| - 1])
            && ChunkCheck(plan[|done| - 1]).Pass?
            && done[|done| - 1].request == StepRequest(WriteStep(plan[|done| - 1]))))
  }

  lemma {:induction false} SucceededWritesSent(plan: seq<Chunk>, done: seq<Exchange>)
    requires |done| <= |plan| && Succeeded(WriteThenVerify(plan), done)
    ensures WritesSent(plan, done)
    decreases |done|
  {
    if |done| > 0 {
      var steps := WriteThenVerify(plan);
      SucceededPrefix(steps, done, |done| - 1);
      SucceededWritesSent(plan, done[..|done| - 1]);
      assert steps[|done| - 1] == WriteStep(plan[|done| - 1]);
    }
  }

  /** When every write of a plan was acknowledged by the reference device,
      the memory holds the whole plan, stored in order. */
  lemma ServedPlan(plan: seq<Chunk>, before: Memory, done: seq<Exchange>, after: Memory)
    requires |done| == |plan| && Succeeded(WriteThenVerify(plan), done)
    requires Replayed(Serve, before, done, after)
    ensures after == ApplyPlan(before, plan)
  {
    ServeStoresWrites();
    SucceededWritesSent(plan, done);
    ServedWrites(Serve, plan, before, done, after);
    assert plan[..|done|] == plan;
  }

  /** Over a device that stores writes, the writes of a plan sent so far
      left the memory with those chunks stored, in plan order. */
  lemma {:induction false} ServedWrites(link: Link, plan: seq<Chunk>, before: Memory, done: seq<Exchange>, after: Memory)
    requires StoresWrites(link) && WritesSent(plan, done)
    requires Replayed(link, before, done, after)
    ensures after == ApplyPlan(before, plan[..|done|])
    decreases |done|
  {
    var k := |done|;
    if k > 0 {
      var shorter := done[..k - 1];
      ReplayedPrefix(link, before, done, after, k - 1);
      ServedWrites(link, plan, before, shorter, After(link, before, shorter));
      ServedWriteStep(link, before, done, after, plan[k - 1]);
      ApplyPlanStep(before, plan, k);
    }
  }

  /** A device that answers every request with the same line other than
      "OE" stops a bulk write at its first write step, with that line as the
      reported error. */
  lemma UnacknowledgedWriteStops(link: Link, before: Memory, plan: seq<Chunk>, reply: string,
                                 exchanges: seq<Exchange>, after: Memory, r: Outcome)
    requires reply != "OE" && forall memory, line :: link(memory, line).1 == reply
    requires |plan| > 0 && Checked(plan)
    requires Replayed(link, before, exchanges, after) && Ran(WriteThenVerify(plan), exchanges, r)
    ensures |exchanges| == 1 && exchanges[0].request == StepRequest(WriteStep(plan[0]))
    ensures r == Fail(UnexpectedTermination(reply))
  {
    var steps := WriteThenVerify(plan);
    RanShape(steps, exchanges, r);
    RanStops(steps, exchanges, r);
    assert steps[0] == WriteStep(plan[0]);
    if |exchanges| > 0 {
      ReplyAt(link, before, exchanges, after, 0);
    }
  }

  /** A chip that answers every request with the same line other than "OE"
      makes `fill` stop after its first write, reporting that line. */
  lemma FillStopsOnBadChip(link: Link, value: Byte, reply: string, before: Memory,
                           exchanges: seq<Exchange>, after: Memory, r: Outcome)
    requires reply != "OE" && forall memory, line :: link(memory, line).1 == reply
    requires Replayed(link, before, exchanges, after) && Ran(WriteThenVerify(FillPlan(value)), exchanges, r)
    ensures |exchanges| == 1 && r == Fail(UnexpectedTermination(reply))
  {
    FillPlanChecked(value);
    UnacknowledgedWriteStops(link, before, FillPlan(value), reply, exchanges, after, r);
  }
}
