/**
 * The reader half of the protocol: `GatewayAgentClient.runCommand` polls
 * `process/read` with the highest sequence number it has seen and rebuilds
 * stdout and stderr. Output is bytes; text decoding is not part of this model.
 */
module CommandPoller {
  import opened Basics
  import opened ProcessLog
  import opened ProcessTasks

  const POLL_MAX_BYTES: nat := 0x10_0000

  /** What stops the loop, if anything, when none of the replies reported an exit. */
  datatype Interrupt = TimeLimitPassed | ReadFailed | NothingYet

  datatype Outcome =
    | Finished(stdout: seq<byte>, stderr: seq<byte>, exitCode: int, timedOut: bool)
    | Threw
    | StillPolling(after: nat)

  /** All chunks of a list of replies, in order of arrival. */
  function Received(replies: seq<ReadResponse>): seq<Chunk> {
    if replies == [] then []
    else Received(replies[..|replies| - 1]) + replies[|replies| - 1].chunks
  }

  /** The highest sequence number among the chunks, 0 when there is none. */
  function Highest(chunks: seq<Chunk>): nat {
    if chunks == [] then 0
    else
      var h := Highest(chunks[..|chunks| - 1]);
      var n := chunks[|chunks| - 1].seqNo;
      if n > h then n else h
  }

  /** The bytes the chunks carry for stderr (`stderr` true) or for everything else. */
  function StreamBytes(chunks: seq<Chunk>, stderr: bool): seq<byte> {
    if chunks == [] then []
    else
      var c := chunks[|chunks| - 1];
      StreamBytes(chunks[..|chunks| - 1], stderr) + (if c.stream.Stderr? == stderr then c.bytes else [])
  }

  /** How many bytes the chunks carry for stderr, or for everything else. */
  function SideLength(chunks: seq<Chunk>, stderr: bool): nat {
    if chunks == [] then 0
    else
      var c := chunks[|chunks| - 1];
      SideLength(chunks[..|chunks| - 1], stderr) + (if c.stream.Stderr? == stderr then |c.bytes| else 0)
  }

  /** The bytes of chunk `k` stand in their output right after those of the earlier chunks of that output. */
  ghost predicate StandsAt(stdout: seq<byte>, stderr: seq<byte>, chunks: seq<Chunk>, k: nat)
    requires k < |chunks|
  {
    var c := chunks[k];
    var output := if c.stream.Stderr? then stderr else stdout;
    var o := SideLength(chunks[..k], c.stream.Stderr?);
    o + |c.bytes| <= |output| && output[o..o + |c.bytes|] == c.bytes
  }

  /** The two outputs hold every byte of every chunk at its place, and nothing else. */
  ghost predicate Outputs(stdout: seq<byte>, stderr: seq<byte>, chunks: seq<Chunk>) {
    && (forall k :: 0 <= k < |chunks| ==> StandsAt(stdout, stderr, chunks, k))
    && |stdout| + |stderr| == Size(chunks)
  }

  /** What the outputs are, chunk by chunk. */
  lemma {:induction false} BytesAreOutputs(chunks: seq<Chunk>)
    ensures Outputs(StreamBytes(chunks, false), StreamBytes(chunks, true), chunks)
    ensures |StreamBytes(chunks, false)| == SideLength(chunks, false)
    ensures |StreamBytes(chunks, true)| == SideLength(chunks, true)
  {
    if chunks != [] {
      var n := |chunks| - 1;
      var earlier, c := chunks[..n], chunks[n];
      BytesAreOutputs(earlier);
      assert chunks == earlier + [c];
      SizeAppend(earlier, [c]);
      forall k | 0 <= k < |chunks| ensures StandsAt(StreamBytes(chunks, false), StreamBytes(chunks, true), chunks, k) {
        if k < n {
          StillStandsAt(chunks, k);
        }
      }
    }
  }

  lemma StillStandsAt(chunks: seq<Chunk>, k: nat)
    requires k < |chunks| - 1
    requires var earlier := chunks[..|chunks| - 1];
             StandsAt(StreamBytes(earlier, false), StreamBytes(earlier, true), earlier, k)
    ensures StandsAt(StreamBytes(chunks, false), StreamBytes(chunks, true), chunks, k)
  {
    assert chunks[..|chunks| - 1][..k] == chunks[..k];
  }

  ghost predicate NoExit(replies: seq<ReadResponse>) {
    forall i :: 0 <= i < |replies| ==> replies[i].exitCode.None?
  }

  /** The loop over the chunks of one reply. */
  method Absorb(ghost got: seq<Chunk>, stdout: seq<byte>, stderr: seq<byte>, after: nat, chunks: seq<Chunk>)
    returns (stdout': seq<byte>, stderr': seq<byte>, after': nat)
    requires stdout == StreamBytes(got, false) && stderr == StreamBytes(got, true) && after == Highest(got)
    ensures stdout' == StreamBytes(got + chunks, false) && stderr' == StreamBytes(got + chunks, true)
    ensures after' == Highest(got + chunks)
    ensures Outputs(stdout', stderr', got + chunks)
  {
    BytesAreOutputs(got + chunks);
    stdout', stderr', after' := stdout, stderr, after;
    assert got + chunks[..0] == got;
    for k := 0 to |chunks|
      invariant stdout' == StreamBytes(got + chunks[..k], false)
      invariant stderr' == StreamBytes(got + chunks[..k], true)
      invariant after' == Highest(got + chunks[..k])
    {
      var c := chunks[k];
      Extend(got, chunks, k);
      if c.stream.Stderr? {
        stderr' := stderr' + c.bytes;
      } else {
        stdout' := stdout' + c.bytes;
      }
      if c.seqNo > after' {
        after' := c.seqNo;
      }
    }
    assert chunks[..|chunks|] == chunks;
  }

  /** What `runCommand` reports after collecting `replies`. */
  function Report(replies: seq<ReadResponse>, exitCode: int, timedOut: bool): Outcome {
    var got := Received(replies);
    Finished(StreamBytes(got, false), StreamBytes(got, true), exitCode, timedOut)
  }

  /** The polling loop of `runCommand`: it stops at the first reply that reports an exit. */
  method RunCommand(replies: seq<ReadResponse>, interrupt: Interrupt) returns (r: Outcome, polled: nat)
    ensures polled <= |replies| && NoExit(replies[..polled])
    ensures polled < |replies| ==>
              && replies[polled].exitCode.Some?
              && r == Report(replies[..polled + 1], replies[polled].exitCode.value, false)
    ensures polled < |replies| ==>
              && r.Finished? && r.exitCode == replies[polled].exitCode.value && !r.timedOut
              && Outputs(r.stdout, r.stderr, Received(replies[..polled + 1]))
    ensures polled == |replies| && interrupt.TimeLimitPassed? ==>
              && r.Finished? && r.exitCode == 0 && r.timedOut
              && Outputs(r.stdout, r.stderr, Received(replies))
    ensures polled == |replies| ==>
              match interrupt
              case TimeLimitPassed => r == Report(replies, 0, true)
              case ReadFailed => r == Threw
              case NothingYet => r == StillPolling(Highest(Received(replies)))
  {
    var stdout: seq<byte>, stderr: seq<byte>, after := [], [], 0;
    polled := 0;
    while polled < |replies|
      invariant 0 <= polled <= |replies| && NoExit(replies[..polled])
      invariant stdout == StreamBytes(Received(replies[..polled]), false)
      invariant stderr == StreamBytes(Received(replies[..polled]), true)
      invariant after == Highest(Received(replies[..polled]))
    {
      var response := replies[polled];
      stdout, stderr, after := Absorb(Received(replies[..polled]), stdout, stderr, after, response.chunks);
      ReceivedStep(replies, polled);
      if response.exitCode.Some? {
        BytesAreOutputs(Received(replies[..polled + 1]));
        return Finished(stdout, stderr, response.exitCode.value, false), polled;
      }
      polled := polled + 1;
    }
    assert replies[..|replies|] == replies;
    BytesAreOutputs(Received(replies));
    match interrupt
    case TimeLimitPassed => r := Finished(stdout, stderr, 0, true);
    case ReadFailed => r := Threw;
    case NothingYet => r := StillPolling(after);
  }

  lemma Extend(got: seq<Chunk>, chunks: seq<Chunk>, k: nat)
    requires k < |chunks|
    ensures var all := got + chunks[..k + 1];
            all != [] && all[|all| - 1] == chunks[k] && all[..|all| - 1] == got + chunks[..k]
  {
  }

  lemma ReceivedStep(replies: seq<ReadResponse>, n: nat)
    requires n < |replies|
    ensures Received(replies[..n + 1]) == Received(replies[..n]) + replies[n].chunks
  {
    assert replies[..n + 1][..n] == replies[..n];
  }

  // ----------------------------------------- replies and histories

  ghost predicate Increasing(chunks: seq<Chunk>) {
    forall i, j :: 0 <= i < j < |chunks| ==> chunks[i].seqNo < chunks[j].seqNo
  }

  ghost predicate IsLog(h: seq<Chunk>) {
    Increasing(h) && forall c :: c in h ==> c.seqNo > 0
  }

  /** `chunks` is what a read returns when the history is `h` and the reader has seen `after`. */
  ghost predicate IsPiece(h: seq<Chunk>, after: nat, chunks: seq<Chunk>) {
    var newer := Newer(Retain(h), after);
    IsCut(newer, POLL_MAX_BYTES, |chunks|) && chunks == newer[..|chunks|]
  }

  /**
   * Reply `i` was served when the history was `hs[i]`, to a client that passed the
   * highest number it had seen; the history only grows between replies.
   */
  ghost predicate Polls(hs: seq<seq<Chunk>>, replies: seq<ReadResponse>) {
    && |hs| == |replies|
    && (forall i :: 0 <= i < |hs| ==> IsLog(hs[i]))
    && (forall i, j :: 0 <= i <= j < |hs| ==> hs[i] <= hs[j])
    && (forall i :: 0 <= i < |hs| ==> IsPiece(hs[i], Highest(Received(replies[..i])), replies[i].chunks))
  }

  lemma PollsPrefix(hs: seq<seq<Chunk>>, replies: seq<ReadResponse>, n: nat)
    requires Polls(hs, replies) && n <= |replies|
    ensures Polls(hs[..n], replies[..n])
  {
    assert forall i :: 0 <= i < n ==> replies[..n][..i] == replies[..i];
  }

  lemma {:induction false} HighestBounds(chunks: seq<Chunk>)
    ensures forall c :: c in chunks ==> c.seqNo <= Highest(chunks)
    ensures Highest(chunks) > 0 ==> exists c :: c in chunks && c.seqNo == Highest(chunks)
  {
    if chunks != [] {
      var n := |chunks| - 1;
      HighestBounds(chunks[..n]);
      assert chunks == chunks[..n] + [chunks[n]];
    }
  }

  lemma HighestOfIncreasing(chunks: seq<Chunk>)
    requires Increasing(chunks)
    ensures Highest(chunks) == if chunks == [] then 0 else chunks[|chunks| - 1].seqNo
  {
    HighestBounds(chunks);
    if chunks != [] {
      var last := chunks[|chunks| - 1];
      assert last in chunks;
      assert forall c :: c in chunks ==> c.seqNo <= last.seqNo;
    }
  }

  /** Chunks above everything seen so far extend an increasing list. */
  lemma IncreasingAppend(got: seq<Chunk>, more: seq<Chunk>)
    requires Increasing(got) && Increasing(more)
    requires forall c :: c in more ==> c.seqNo > Highest(got)
    ensures Increasing(got + more)
    ensures Highest(got + more) == if more == [] then Highest(got) else more[|more| - 1].seqNo
  {
    HighestBounds(got);
    var all := got + more;
    forall i, j | 0 <= i < j < |all| ensures all[i].seqNo < all[j].seqNo {
      if j >= |got| {
        assert all[j] in more;
        assert i < |got| ==> all[i] in got;
      }
    }
    HighestOfIncreasing(got);
    HighestOfIncreasing(all);
    if more == [] {
      assert all == got;
    }
  }

  /** On an ordered log the newer chunks are a suffix. */
  lemma {:induction false} NewerIsSuffix(chunks: seq<Chunk>, after: nat)
    requires Increasing(chunks)
    ensures var k := |chunks| - |Newer(chunks, after)|;
            && 0 <= k
            && Newer(chunks, after) == chunks[k..]
            && (forall i :: 0 <= i < k ==> chunks[i].seqNo <= after)
            && (forall i :: k <= i < |chunks| ==> chunks[i].seqNo > after)
  {
    if chunks != [] {
      var tail := chunks[1..];
      assert Increasing(tail);
      NewerIsSuffix(tail, after);
      var k := |tail| - |Newer(tail, after)|;
      if chunks[0].seqNo > after {
        assert tail != [] ==> tail[0].seqNo > chunks[0].seqNo;
        assert chunks == [chunks[0]] + tail;
      } else {
        assert chunks[k + 1..] == tail[k..];
      }
    }
  }

  /** A reply is a contiguous piece of the history; what lies before it was seen or evicted. */
  lemma PieceOfHistory(h: seq<Chunk>, after: nat, chunks: seq<Chunk>) returns (k: nat)
    requires IsLog(h) && IsPiece(h, after, chunks)
    ensures k + |chunks| <= |h| && chunks == h[k..k + |chunks|]
    ensures forall j :: 0 <= j < k ==> h[j].seqNo <= after || h[j] !in Retain(h)
    ensures forall j :: k <= j < |h| ==> h[j].seqNo > after
    ensures IsCut(h[k..], POLL_MAX_BYTES, |chunks|)
  {
    var output := Retain(h);
    RetainIsSuffix(h);
    NewerOfSuffix(h, |h| - |output|, after);
    var newer := Newer(output, after);
    k := |h| - |newer|;
    assert newer == h[k..] && chunks == newer[..|chunks|];
    PrefixOfSuffix(h, k, |chunks|);
  }

  lemma RetainIsSuffix(h: seq<Chunk>)
    ensures |Retain(h)| <= |h| && Retain(h) == h[|h| - |Retain(h)|..]
  {
    RetainIsLongestFit(h);
  }

  lemma PrefixOfSuffix(h: seq<Chunk>, k: nat, n: nat)
    requires k + n <= |h|
    ensures h[k..][..n] == h[k..k + n]
  {
  }

  /** Of a suffix of a log, the newer chunks are a suffix of the log. */
  lemma NewerOfSuffix(h: seq<Chunk>, cut: nat, after: nat)
    requires Increasing(h) && cut <= |h|
    ensures var k := |h| - |Newer(h[cut..], after)|;
            && cut <= k && Newer(h[cut..], after) == h[k..]
            && (forall j :: cut <= j < k ==> h[j].seqNo <= after)
            && (forall j :: k <= j < |h| ==> h[j].seqNo > after)
  {
    var output := h[cut..];
    assert forall j :: cut <= j < |h| ==> h[j] == output[j - cut];
    NewerIsSuffix(output, after);
  }

  /** One more reply extends what was received by chunks above everything seen. */
  lemma OneMoreReply(h: seq<Chunk>, got: seq<Chunk>, more: seq<Chunk>)
    requires IsLog(h) && Increasing(got) && IsPiece(h, Highest(got), more)
    ensures Increasing(got + more)
    ensures Highest(got + more) == if more == [] then Highest(got) else more[|more| - 1].seqNo
    ensures forall c :: c in more ==> c in h
  {
    var k := PieceOfHistory(h, Highest(got), more);
    assert forall j :: 0 <= j < |more| ==> more[j] == h[k + j];
    IncreasingAppend(got, more);
  }

  /** The client gets chunks of the history, in history order, none twice. */
  lemma {:induction false} ReceivedInOrder(hs: seq<seq<Chunk>>, replies: seq<ReadResponse>)
    requires Polls(hs, replies)
    ensures Increasing(Received(replies))
    ensures replies != [] ==> forall c :: c in Received(replies) ==> c in hs[|hs| - 1]
    decreases |replies|
  {
    if replies != [] {
      var n := |replies| - 1;
      PollsPrefix(hs, replies, n);
      ReceivedInOrder(hs[..n], replies[..n]);
      OneMoreReply(hs[n], Received(replies[..n]), replies[n].chunks);
      if n > 0 {
        assert hs[n - 1] <= hs[n];
      }
    }
  }

  /** `c` was gone when reply `i`, the one that passed over its number, was served. */
  ghost predicate EvictedBefore(hs: seq<seq<Chunk>>, replies: seq<ReadResponse>, i: nat, c: Chunk)
    requires |hs| == |replies|
  {
    && i < |hs|
    && Highest(Received(replies[..i])) < c.seqNo <= Highest(Received(replies[..i + 1]))
    && c in hs[i]
    && c !in Retain(hs[i])
  }

  /** One read returns every retained chunk numbered between what was seen and its last chunk. */
  lemma PassedOverNow(h: seq<Chunk>, after: nat, chunks: seq<Chunk>, c: Chunk)
    requires IsLog(h) && IsPiece(h, after, chunks) && c in h
    requires chunks != [] && after < c.seqNo <= chunks[|chunks| - 1].seqNo
    ensures c in chunks || c !in Retain(h)
  {
    var k := PieceOfHistory(h, after, chunks);
    var j :| 0 <= j < |h| && h[j] == c;
    var last := k + |chunks| - 1;
    assert h[last] == chunks[|chunks| - 1];
    if k <= j <= last {
      assert chunks[j - k] == c;
    }
  }

  lemma AlreadyThere(hs: seq<seq<Chunk>>, replies: seq<ReadResponse>, n: nat, c: Chunk)
    requires Polls(hs, replies) && n < |replies| && c in hs[n]
    requires c.seqNo <= Highest(Received(replies[..n]))
    ensures n > 0 && c in hs[n - 1]
  {
    var got := Received(replies[..n]);
    PollsPrefix(hs, replies, n);
    ReceivedInOrder(hs[..n], replies[..n]);
    HighestBounds(got);
    var d :| d in got && d.seqNo == Highest(got);
  }

  lemma EvictedEarlier(hs: seq<seq<Chunk>>, replies: seq<ReadResponse>, n: nat, i: nat, c: Chunk)
    requires |hs| == |replies| && n <= |hs| && EvictedBefore(hs[..n], replies[..n], i, c)
    ensures EvictedBefore(hs, replies, i, c)
  {
    assert replies[..n][..i] == replies[..i] && replies[..n][..i + 1] == replies[..i + 1];
  }

  /**
   * A chunk the client passed over without receiving it had been evicted before
   * the read that would have returned it.
   */
  lemma {:induction false} MissingOnlyIfEvicted(hs: seq<seq<Chunk>>, replies: seq<ReadResponse>, c: Chunk)
    returns (i: nat)
    requires Polls(hs, replies) && replies != [] && c in hs[|hs| - 1]
    requires c.seqNo <= Highest(Received(replies)) && c !in Received(replies)
    ensures EvictedBefore(hs, replies, i, c)
    decreases |replies|
  {
    var n := |replies| - 1;
    var got := Received(replies[..n]);
    PollsPrefix(hs, replies, n);
    ReceivedInOrder(hs[..n], replies[..n]);
    if c.seqNo <= Highest(got) {
      AlreadyThere(hs, replies, n, c);
      i := MissingOnlyIfEvicted(hs[..n], replies[..n], c);
      EvictedEarlier(hs, replies, n, i, c);
    } else {
      OneMoreReply(hs[n], got, replies[n].chunks);
      PassedOverNow(hs[n], Highest(got), replies[n].chunks, c);
      assert replies[..n + 1] == replies;
      i := n;
    }
  }

  // ------------------------------------------------- nothing was evicted

  lemma {:induction false} StreamBytesAppend(a: seq<Chunk>, b: seq<Chunk>, stderr: bool)
    ensures StreamBytes(a + b, stderr) == StreamBytes(a, stderr) + StreamBytes(b, stderr)
    decreases |b|
  {
    if b == [] {
      assert a + b == a;
    } else {
      var n := |b| - 1;
      assert (a + b)[..|a + b| - 1] == a + b[..n];
      StreamBytesAppend(a, b[..n], stderr);
    }
  }

  lemma {:induction false} NoBytes(chunks: seq<Chunk>, stderr: bool)
    requires Size(chunks) == 0
    ensures StreamBytes(chunks, stderr) == []
  {
    if chunks != [] {
      var n := |chunks| - 1;
      SizeSuffix(chunks, n);
      assert chunks[n..] == [chunks[n]];
      NoBytes(chunks[..n], stderr);
    }
  }

  /**
   * While the history fits 1 MiB the client always holds a prefix of it, and what
   * it still lacks after a reply carries no bytes.
   */
  lemma {:induction false} ReceivedIsPrefix(hs: seq<seq<Chunk>>, replies: seq<ReadResponse>)
    requires Polls(hs, replies) && replies != [] && Size(hs[|hs| - 1]) <= RETAINED_OUTPUT_BYTES
    ensures Received(replies) <= hs[|hs| - 1]
    ensures Size(hs[|hs| - 1][|Received(replies)|..]) == 0
    decreases |replies|
  {
    var n := |replies| - 1;
    if n > 0 {
      PollsPrefix(hs, replies, n);
      assert hs[n - 1] <= hs[n];
      SizeOfPrefix(hs[n - 1], hs[n]);
      ReceivedIsPrefix(hs[..n], replies[..n]);
    }
    NextPiece(hs[n], Received(replies[..n]), replies[n].chunks);
  }

  lemma SizeOfPrefix(a: seq<Chunk>, b: seq<Chunk>)
    requires a <= b
    ensures Size(a) <= Size(b)
  {
    SizeSuffix(b, |a|);
    assert b[..|a|] == a;
  }

  /** After receiving a prefix of the log, the newer chunks are the rest of it. */
  lemma {:induction false} NewerThanNone(chunks: seq<Chunk>, after: nat)
    requires forall c :: c in chunks ==> c.seqNo <= after
    ensures Newer(chunks, after) == []
  {
    if chunks != [] {
      NewerThanNone(chunks[1..], after);
    }
  }

  lemma {:induction false} NewerThanAll(chunks: seq<Chunk>, after: nat)
    requires forall c :: c in chunks ==> c.seqNo > after
    ensures Newer(chunks, after) == chunks
  {
    if chunks != [] {
      NewerThanAll(chunks[1..], after);
    }
  }

  lemma NewerIsRest(h: seq<Chunk>, got: seq<Chunk>)
    requires IsLog(h) && got <= h
    ensures Newer(h, Highest(got)) == h[|got|..]
  {
    HighestOfIncreasing(got);
    HighestBounds(got);
    assert h == got + h[|got|..];
    NewerAppend(got, h[|got|..], Highest(got));
    NewerThanNone(got, Highest(got));
    NewerThanAll(h[|got|..], Highest(got));
  }

  /** A read that could return everything leaves out only empty chunks. */
  lemma CutLeavesNoBytes(newer: seq<Chunk>, n: nat)
    requires IsCut(newer, POLL_MAX_BYTES, n) && Size(newer) <= POLL_MAX_BYTES
    ensures Size(newer[n..]) == 0
  {
    SizeSuffix(newer, n);
    SizeSuffix(newer, if n < |newer| then n + 1 else n);
  }

  lemma NextPiece(h: seq<Chunk>, got: seq<Chunk>, more: seq<Chunk>)
    requires IsLog(h) && got <= h && IsPiece(h, Highest(got), more)
    requires Size(h) <= RETAINED_OUTPUT_BYTES
    ensures got + more <= h && Size(h[|got + more|..]) == 0
  {
    NewerIsRest(h, got);
    SizeSuffix(h, |got|);
    CutLeavesNoBytes(h[|got|..], |more|);
    assert h[|got + more|..] == h[|got|..][|more|..];
  }

  lemma PrefixBytes(h: seq<Chunk>, got: seq<Chunk>, stderr: bool)
    requires got <= h && Size(h[|got|..]) == 0
    ensures StreamBytes(got, stderr) == StreamBytes(h, stderr)
  {
    NoBytes(h[|got|..], stderr);
    StreamBytesAppend(got, h[|got|..], stderr);
    assert h == got + h[|got|..];
  }

  /** Exactly the history's bytes, stream by stream, at any read while it fits 1 MiB. */
  lemma OutputIsExact(hs: seq<seq<Chunk>>, replies: seq<ReadResponse>, stderr: bool)
    requires Polls(hs, replies) && replies != [] && Size(hs[|hs| - 1]) <= RETAINED_OUTPUT_BYTES
    ensures StreamBytes(Received(replies), stderr) == StreamBytes(hs[|hs| - 1], stderr)
  {
    ReceivedIsPrefix(hs, replies);
    PrefixBytes(hs[|hs| - 1], Received(replies), stderr);
  }

  // ----------------------------------------------- replies served by a run

  /**
   * The replies were served by states `at[0], at[1], ...` of a run of the agent's
   * tasks, each to a client that passed the highest number it had seen.
   */
  ghost predicate Served(trace: seq<System>, at: seq<nat>, replies: seq<ReadResponse>) {
    && Run(trace)
    && |at| == |replies|
    && (forall i :: 0 <= i < |at| ==> at[i] < |trace| && trace[at[i]].entry.Some?)
    && (forall i, j :: 0 <= i <= j < |at| ==> at[i] <= at[j])
    && (forall i :: 0 <= i < |at| ==>
          Answers(trace[at[i]].entry.value, Highest(Received(replies[..i])), POLL_MAX_BYTES, replies[i]))
  }

  /** The histories at the moments of the replies. */
  ghost function Histories(trace: seq<System>, at: seq<nat>): seq<seq<Chunk>>
    requires forall i :: 0 <= i < |at| ==> at[i] < |trace|
  {
    seq(|at|, i requires 0 <= i < |at| => History(trace[at[i]].events))
  }

  lemma {:induction false} HistoryPrefix(a: seq<Event>, b: seq<Event>)
    requires a <= b
    ensures History(a) <= History(b)
    decreases |b|
  {
    if |a| < |b| {
      HistoryPrefix(a, b[..|b| - 1]);
    } else {
      assert a == b;
    }
  }

  /** Every interleaving of the tasks and the reads gives the client such a list of replies. */
  lemma ServedPolls(trace: seq<System>, at: seq<nat>, replies: seq<ReadResponse>)
    requires Served(trace, at, replies)
    ensures Polls(Histories(trace, at), replies)
  {
    var hs := Histories(trace, at);
    forall i | 0 <= i < |hs|
      ensures IsLog(hs[i])
      ensures IsPiece(hs[i], Highest(Received(replies[..i])), replies[i].chunks)
    {
      RunInv(trace, at[i]);
      HistoryOrdered(trace[at[i]].events);
    }
    forall i, j | 0 <= i <= j < |hs| ensures hs[i] <= hs[j] {
      EventsGrow(trace, at[i], at[j]);
      HistoryPrefix(trace[at[i]].events, trace[at[j]].events);
    }
  }

  /** Chunk `c` was in the history at read `i`, whose reply passed its number, but no longer in the queue. */
  ghost predicate PassedOver(trace: seq<System>, at: seq<nat>, replies: seq<ReadResponse>, i: nat, c: Chunk)
    requires Served(trace, at, replies)
  {
    && i < |at|
    && c in History(trace[at[i]].events) && c !in trace[at[i]].entry.value.output
    && Highest(Received(replies[..i])) < c.seqNo <= Highest(Received(replies[..i + 1]))
  }

  lemma MissedByRead(trace: seq<System>, at: seq<nat>, replies: seq<ReadResponse>, c: Chunk) returns (i: nat)
    requires Served(trace, at, replies) && replies != [] && c in History(trace[at[|at| - 1]].events)
    requires c.seqNo <= Highest(Received(replies)) && c !in Received(replies)
    ensures PassedOver(trace, at, replies, i, c)
  {
    ServedPolls(trace, at, replies);
    i := MissingOnlyIfEvicted(Histories(trace, at), replies, c);
    RunInv(trace, at[i]);
  }

  /**
   * For every interleaving of tasks and reads: chunks arrive in history order, none
   * twice, and one passed over was evicted before the read that passed over it.
   */
  lemma ClientMissesOnlyEvicted(trace: seq<System>, at: seq<nat>, replies: seq<ReadResponse>)
    requires Served(trace, at, replies) && replies != []
    ensures var got, h := Received(replies), History(trace[at[|at| - 1]].events);
            && Increasing(got) && (forall c :: c in got ==> c in h)
            && forall c :: c in h && c.seqNo <= Highest(got) && c !in got ==>
                 exists i :: PassedOver(trace, at, replies, i, c)
  {
    ServedPolls(trace, at, replies);
    var hs := Histories(trace, at);
    ReceivedInOrder(hs, replies);
    forall c: Chunk | c in hs[|hs| - 1] && c.seqNo <= Highest(Received(replies)) && c !in Received(replies)
      ensures exists i :: PassedOver(trace, at, replies, i, c)
    {
      var i := MissedByRead(trace, at, replies, c);
    }
  }

  lemma ExactAt(trace: seq<System>, at: seq<nat>, replies: seq<ReadResponse>, n: nat, stderr: bool)
    requires Served(trace, at, replies) && n < |replies|
    requires Size(History(trace[at[n]].events)) <= RETAINED_OUTPUT_BYTES
    ensures StreamBytes(Received(replies[..n + 1]), stderr) == StreamBytes(History(trace[at[n]].events), stderr)
  {
    ServedPolls(trace, at, replies);
    var hs := Histories(trace, at);
    PollsPrefix(hs, replies, n + 1);
    OutputIsExact(hs[..n + 1], replies[..n + 1], stderr);
  }

  /** After `Exit(code)` was recorded, every reply and so every report has that code. */
  lemma ReportsExitCode(trace: seq<System>, at: seq<nat>, replies: seq<ReadResponse>, n: nat, m: nat, code: int)
    requires Served(trace, at, replies) && n < |replies| && m < at[n]
    requires trace[m].entry.Some? && Enabled(trace[m], Exit(code)) && trace[m + 1] == Next(trace[m], Exit(code))
    ensures replies[n].exitCode == Some(code)
  {
    ExitCodeIsKept(trace, m, at[n], code);
  }

  /** An output is determined by its chunks. */
  lemma OutputsAreUnique(stdout: seq<byte>, stderr: seq<byte>, chunks: seq<Chunk>)
    requires Outputs(stdout, stderr, chunks)
    ensures stdout == StreamBytes(chunks, false) && stderr == StreamBytes(chunks, true)
  {
    PlacedPrefix(stdout, stderr, chunks, |chunks|);
    BytesAreOutputs(chunks);
    assert chunks[..|chunks|] == chunks;
  }

  lemma {:induction false} PlacedPrefix(stdout: seq<byte>, stderr: seq<byte>, chunks: seq<Chunk>, n: nat)
    requires n <= |chunks| && forall k :: 0 <= k < |chunks| ==> StandsAt(stdout, stderr, chunks, k)
    ensures StreamBytes(chunks[..n], false) <= stdout && StreamBytes(chunks[..n], true) <= stderr
  {
    if n > 0 {
      PlacedPrefix(stdout, stderr, chunks, n - 1);
      assert chunks[..n][..n - 1] == chunks[..n - 1];
      BytesAreOutputs(chunks[..n - 1]);
      assert StandsAt(stdout, stderr, chunks, n - 1);
    }
  }

  /**
   * `runCommand` returned because reply `n` reported an exit and the output so far
   * fits 1 MiB: stdout and stderr are exactly what the process had written, every chunk of
   * the history at its place.
   */
  lemma RunCommandIsExact(trace: seq<System>, at: seq<nat>, replies: seq<ReadResponse>, n: nat)
    requires Served(trace, at, replies) && n < |replies| && replies[n].exitCode.Some?
    requires Size(History(trace[at[n]].events)) <= 1_048_576
    ensures var h := History(trace[at[n]].events);
            Report(replies[..n + 1], replies[n].exitCode.value, false) ==
            Finished(StreamBytes(h, false), StreamBytes(h, true), trace[at[n]].entry.value.exitCode.value, false)
    ensures var r := Report(replies[..n + 1], replies[n].exitCode.value, false);
            Outputs(r.stdout, r.stderr, History(trace[at[n]].events))
  {
    BytesAreOutputs(History(trace[at[n]].events));
    ExactAt(trace, at, replies, n, false);
    ExactAt(trace, at, replies, n, true);
  }
}
