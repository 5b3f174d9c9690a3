/**
 * The per-process output log of nexal-agent: `RunningProcess` with its bounded
 * queue of chunks, and the read operation that serves `process/read`.
 *
 * The log is specified by its full history: what it retains is the longest
 * suffix of everything ever appended that fits the byte budget.
 */
module ProcessLog {
  import opened Basics

  const RETAINED_OUTPUT_BYTES: nat := 1024 * 1024

  datatype Stream = Stdout | Stderr | Pty

  datatype Chunk = Chunk(seqNo: nat, stream: Stream, bytes: seq<byte>)

  /** The fields of `RunningProcess` that its tasks read and write. */
  datatype Process = Process(
    output: seq<Chunk>,
    retained: nat,
    nextSeq: nat,
    exitCode: Option<int>,
    openStreams: nat,
    closed: bool)

  datatype ReadResponse = ReadResponse(
    chunks: seq<Chunk>,
    nextSeq: nat,
    exitCode: Option<int>,
    closed: bool)

  function SaturatingSub(a: nat, b: nat): nat {
    if a >= b then a - b else 0
  }

  function Size(chunks: seq<Chunk>): nat {
    if chunks == [] then 0 else |chunks[0].bytes| + Size(chunks[1..])
  }

  /** The longest suffix of the history that fits the budget. */
  function Retain(history: seq<Chunk>): seq<Chunk> {
    if Size(history) <= RETAINED_OUTPUT_BYTES then history else Retain(history[1..])
  }

  /** Sequence numbers strictly increase and stay below `next`. */
  ghost predicate Ordered(chunks: seq<Chunk>, next: nat) {
    && (forall i, j :: 0 <= i < j < |chunks| ==> chunks[i].seqNo < chunks[j].seqNo)
    && (forall i :: 0 <= i < |chunks| ==> 0 < chunks[i].seqNo < next)
  }

  /** What a process entry holds after exactly `history` was appended to it. */
  predicate Logs(p: Process, history: seq<Chunk>) {
    && p.output == Retain(history)
    && p.retained == Size(p.output)
  }

  // -------------------------------- the locked sections, as state changes

  function Appended(p: Process, stream: Stream, bytes: seq<byte>): Process {
    var output := Retain(p.output + [Chunk(p.nextSeq, stream, bytes)]);
    p.(output := output, retained := Size(output), nextSeq := p.nextSeq + 1)
  }

  function Exited(p: Process, code: int): Process {
    p.(nextSeq := p.nextSeq + 1, exitCode := Some(code))
  }

  function StreamFinished(p: Process): Process {
    p.(openStreams := SaturatingSub(p.openStreams, 1))
  }

  predicate ReadyToClose(p: Process) {
    !p.closed && p.openStreams == 0 && p.exitCode.Some?
  }

  function Closed(p: Process): Process {
    if ReadyToClose(p) then p.(closed := true, nextSeq := p.nextSeq + 1) else p
  }

  /** An append extends the logged history by exactly the new chunk. */
  lemma AppendedLogs(p: Process, history: seq<Chunk>, stream: Stream, bytes: seq<byte>)
    requires Logs(p, history)
    ensures Logs(Appended(p, stream, bytes), history + [Chunk(p.nextSeq, stream, bytes)])
  {
    RetainAppend(history, Chunk(p.nextSeq, stream, bytes));
  }

  /** The retained chunks a reader that has seen `after` still lacks. */
  function Newer(chunks: seq<Chunk>, after: nat): seq<Chunk> {
    if chunks == [] then []
    else (if chunks[0].seqNo > after then [chunks[0]] else []) + Newer(chunks[1..], after)
  }

  /**
   * How many of the `newer` chunks one read returns: always the first one, then
   * as many as keep the total within `maxBytes`, stopping once it is reached.
   */
  ghost predicate IsCut(newer: seq<Chunk>, maxBytes: nat, n: nat) {
    && n <= |newer|
    && (newer != [] ==> n > 0)
    && (n > 1 ==> Size(newer[..n - 1]) < maxBytes && Size(newer[..n]) <= maxBytes)
    && (n < |newer| ==> Size(newer[..n]) >= maxBytes || Size(newer[..n + 1]) > maxBytes)
  }

  /** `r` is the answer to a read of `p` by a client that has seen `after`. */
  ghost predicate Answers(p: Process, after: nat, maxBytes: nat, r: ReadResponse) {
    && IsCut(Newer(p.output, after), maxBytes, |r.chunks|)
    && r.chunks == Newer(p.output, after)[..|r.chunks|]
    && r.nextSeq == (if r.chunks == [] then p.nextSeq else r.chunks[|r.chunks| - 1].seqNo + 1)
    && r.exitCode == p.exitCode
    && r.closed == p.closed
  }

  // ---------------------------------------------------------------- sizes

  lemma {:induction false} SizeAppend(a: seq<Chunk>, b: seq<Chunk>)
    ensures Size(a + b) == Size(a) + Size(b)
  {
    if a == [] {
      assert a + b == b;
    } else {
      assert (a + b)[1..] == a[1..] + b;
      SizeAppend(a[1..], b);
    }
  }

  lemma SizeSuffix(a: seq<Chunk>, n: nat)
    requires n <= |a|
    ensures Size(a[n..]) <= Size(a)
    ensures Size(a[..n]) <= Size(a)
    ensures Size(a[..n]) + Size(a[n..]) == Size(a)
  {
    SizeAppend(a[..n], a[n..]);
    assert a[..n] + a[n..] == a;
  }

  // ------------------------------------------------- the retained suffix

  /** `Retain` is a suffix, it fits, and every longer suffix does not fit. */
  lemma {:induction false} RetainIsLongestFit(history: seq<Chunk>)
    ensures |Retain(history)| <= |history|
    ensures Retain(history) == history[|history| - |Retain(history)|..]
    ensures Size(Retain(history)) <= RETAINED_OUTPUT_BYTES
    ensures forall n :: 0 <= n < |history| - |Retain(history)| ==> Size(history[n..]) > RETAINED_OUTPUT_BYTES
  {
    if Size(history) > RETAINED_OUTPUT_BYTES {
      var tail := history[1..];
      RetainIsLongestFit(tail);
      forall n | 0 <= n < |history| - |Retain(history)|
        ensures Size(history[n..]) > RETAINED_OUTPUT_BYTES
      {
        if n == 0 {
          assert history[0..] == history;
        } else {
          assert history[n..] == tail[n - 1..];
        }
      }
    }
  }

  /** Evicting before or after an append makes no difference: nothing evicted can come back. */
  lemma {:induction false} RetainAppend(history: seq<Chunk>, c: Chunk)
    ensures Retain(history + [c]) == Retain(Retain(history) + [c])
  {
    if Size(history) > RETAINED_OUTPUT_BYTES {
      SizeAppend(history, [c]);
      assert (history + [c])[1..] == history[1..] + [c];
      RetainAppend(history[1..], c);
    }
  }

  // --------------------------------------------------------- the reader

  lemma {:induction false} NewerAppend(a: seq<Chunk>, b: seq<Chunk>, after: nat)
    ensures Newer(a + b, after) == Newer(a, after) + Newer(b, after)
  {
    if a == [] {
      assert a + b == b;
    } else {
      assert (a + b)[1..] == a[1..] + b;
      NewerAppend(a[1..], b, after);
    }
  }

  /** The answer to a read is unique, so `Answers` fixes every field of it. */
  lemma AnswerIsUnique(p: Process, after: nat, maxBytes: nat, r: ReadResponse, r': ReadResponse)
    requires Answers(p, after, maxBytes, r) && Answers(p, after, maxBytes, r')
    ensures r == r'
  {
    var newer := Newer(p.output, after);
    if |r.chunks| < |r'.chunks| {
      CutIsUnique(newer, maxBytes, |r.chunks|, |r'.chunks|);
    } else if |r'.chunks| < |r.chunks| {
      CutIsUnique(newer, maxBytes, |r'.chunks|, |r.chunks|);
    }
  }

  lemma CutIsUnique(newer: seq<Chunk>, maxBytes: nat, m: nat, n: nat)
    requires IsCut(newer, maxBytes, m) && IsCut(newer, maxBytes, n) && m <= n
    ensures m == n
  {
    PrefixSize(newer, if m < n then m + 1 else m, n);
    PrefixSize(newer, if m < n then m else 0, if 0 < n then n - 1 else 0);
  }

  /** The read loop ran through all newer chunks below the limit. */
  lemma CutAll(taken: seq<Chunk>, maxBytes: nat)
    requires taken != [] ==> Size(taken[..|taken|]) < maxBytes
    ensures IsCut(taken, maxBytes, |taken|)
  {
    assert taken[..|taken|] == taken;
    PrefixSize(taken, if taken == [] then 0 else |taken| - 1, |taken|);
  }

  /** The read loop stopped before chunk `i`, which no longer fits. */
  lemma CutBefore(newer: seq<Chunk>, maxBytes: nat, i: nat)
    requires 0 < i < |newer| && Size(newer[..i]) < maxBytes < Size(newer[..i + 1])
    ensures IsCut(newer, maxBytes, i)
  {
    PrefixSize(newer, i - 1, i);
  }

  /** The read loop stopped right after chunk `i`, which used the limit up. */
  lemma CutAfter(newer: seq<Chunk>, maxBytes: nat, i: nat)
    requires i < |newer| && Size(newer[..i + 1]) >= maxBytes
    requires i > 0 ==> Size(newer[..i]) < maxBytes && Size(newer[..i + 1]) <= maxBytes
    ensures IsCut(newer, maxBytes, i + 1)
  {
  }

  lemma SizeStep(a: seq<Chunk>, i: nat)
    requires i < |a|
    ensures Size(a[..i + 1]) == Size(a[..i]) + |a[i].bytes|
  {
    assert a[..i + 1] == a[..i] + [a[i]];
    SizeAppend(a[..i], [a[i]]);
  }

  lemma PrefixSize(a: seq<Chunk>, m: nat, n: nat)
    requires m <= n <= |a|
    ensures Size(a[..m]) <= Size(a[..n])
  {
    SizeSuffix(a[..n], m);
    assert a[..n][..m] == a[..m];
  }

  /** The loop of `exec_read`, over the chunks the reader still lacks. */
  method TakeUpTo(newer: seq<Chunk>, nextSeq: nat, maxBytes: nat) returns (chunks: seq<Chunk>, next: nat)
    ensures IsCut(newer, maxBytes, |chunks|)
    ensures chunks == newer[..|chunks|]
    ensures next == if chunks == [] then nextSeq else chunks[|chunks| - 1].seqNo + 1
  {
    chunks, next := [], nextSeq;
    var total := 0;
    for i := 0 to |newer|
      invariant chunks == newer[..i] && total == Size(newer[..i])
      invariant next == if i == 0 then nextSeq else newer[i - 1].seqNo + 1
      invariant i > 0 ==> total < maxBytes
    {
      var c := newer[i];
      SizeStep(newer, i);
      if chunks != [] && total + |c.bytes| > maxBytes {
        CutBefore(newer, maxBytes, i);
        return;
      }
      total := total + |c.bytes|;
      chunks := chunks + [c];
      next := c.seqNo + 1;
      if total >= maxBytes {
        CutAfter(newer, maxBytes, i);
        return;
      }
    }
    CutAll(newer, maxBytes);
  }

  /** What one pass of `exec_read` collects: the retained chunks above `after`, up to the limit. */
  method CollectNewer(output: seq<Chunk>, nextSeq: nat, after: nat, maxBytes: nat)
    returns (chunks: seq<Chunk>, next: nat)
    ensures IsCut(Newer(output, after), maxBytes, |chunks|)
    ensures chunks == Newer(output, after)[..|chunks|]
    ensures next == if chunks == [] then nextSeq else chunks[|chunks| - 1].seqNo + 1
  {
    chunks, next := TakeUpTo(Newer(output, after), nextSeq, maxBytes);
  }

  /**
   * The process entry behind the lock. `history` records every chunk ever
   * appended; the program keeps only `output`.
   */
  class RunningProcess {
    var output: seq<Chunk>
    var retained: nat
    var nextSeq: nat
    var exitCode: Option<int>
    var openStreams: nat
    var closed: bool
    ghost var history: seq<Chunk>

    ghost function State(): Process
      reads this
    {
      Process(output, retained, nextSeq, exitCode, openStreams, closed)
    }

    ghost predicate Valid()
      reads this
    {
      nextSeq > 0 && Logs(State(), history) && Ordered(history, nextSeq)
    }

    constructor ()
      ensures Valid() && history == []
      ensures State() == Process([], 0, 1, None, 2, false)
    {
      output, retained, nextSeq := [], 0, 1;
      exitCode, openStreams, closed := None, 2, false;
      history := [];
    }

    /** The locked section of `stream_output`: number, append, evict from the front. */
    method Append(stream: Stream, bytes: seq<byte>) returns (seqNo: nat)
      requires Valid()
      modifies this
      ensures Valid()
      ensures State() == Appended(old(State()), stream, bytes)
      ensures seqNo == old(nextSeq) && history == old(history) + [Chunk(seqNo, stream, bytes)]
    {
      AppendedLogs(State(), history, stream, bytes);
      seqNo := nextSeq;
      nextSeq := nextSeq + 1;
      retained := retained + |bytes|;
      var chunk := Chunk(seqNo, stream, bytes);
      SizeAppend(output, [chunk]);
      output := output + [chunk];
      history := history + [chunk];
      Evict();
    }

    /** The eviction loop of that section. */
    method Evict()
      requires retained == Size(output)
      modifies this`output, this`retained
      ensures output == Retain(old(output)) && retained == Size(output)
    {
      while retained > RETAINED_OUTPUT_BYTES && output != []
        invariant retained == Size(output)
        invariant Retain(old(output)) == Retain(output)
        decreases |output|
      {
        var evicted := output[0];
        output := output[1..];
        retained := SaturatingSub(retained, |evicted.bytes|);
      }
    }

    /** The locked section of `watch_exit`. */
    method RecordExit(code: int) returns (seqNo: nat)
      requires Valid()
      modifies this`nextSeq, this`exitCode
      ensures Valid()
      ensures seqNo == old(nextSeq) && State() == Exited(old(State()), code)
    {
      seqNo := nextSeq;
      nextSeq := nextSeq + 1;
      exitCode := Some(code);
    }

    /** The locked section of `finish_output_stream`. */
    method FinishStream()
      requires Valid()
      modifies this`openStreams
      ensures Valid() && State() == StreamFinished(old(State()))
    {
      if openStreams > 0 {
        openStreams := openStreams - 1;
      }
    }

    /** The locked section of `maybe_emit_closed`: the close event's number, if it is emitted. */
    method MaybeClose() returns (event: Option<nat>)
      requires Valid()
      modifies this`closed, this`nextSeq
      ensures Valid() && State() == Closed(old(State()))
      ensures event == if ReadyToClose(old(State())) then Some(old(nextSeq)) else None
    {
      if closed || openStreams != 0 || exitCode.None? {
        return None;
      }
      closed := true;
      event := Some(nextSeq);
      nextSeq := nextSeq + 1;
    }

    /** One pass of the locked section of `exec_read`. */
    method Read(after: nat, maxBytes: nat) returns (r: ReadResponse)
      ensures Answers(State(), after, maxBytes, r)
    {
      var chunks, next := CollectNewer(output, nextSeq, after, maxBytes);
      r := ReadResponse(chunks, next, exitCode, closed);
    }
  }
}
