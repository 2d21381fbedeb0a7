/** The copy loop of `main`: read the file into the fixed 4096-byte `tcp_buf` and write that
    buffer to the TCP stream until a read returns 0, adding up what `write` reports. The file
    and the stream are given as inputs: `file` lists what the successive `read` calls return
    (past its end, `read` returns 0: the file is exhausted) and `stream(k)` what the `k`-th
    `write` returns. */
module Transfer {
  import opened Bytes
  import opened Protocol

  /** What one `read` can place in `tcp_buf`: never more than the buffer holds. */
  type Chunk = s: seq<byte> | |s| <= TcpBufferSize witness []

  datatype ReadResult = ReadError | ReadOk(chunk: Chunk)

  datatype WriteResult = WriteError | Wrote(count: nat)

  datatype CopyEnd = Completed | Interrupted(failure: Failure)

  /** What the loop did: how it ended, the buffer contents handed to each `write` in order, the
      count shown by each progress line, and the final `total_bytes_written`. */
  datatype Copy = Copy(end: CopyEnd, writes: seq<seq<byte>>, progress: seq<nat>, total: nat)

  /** The loop from read number `k` on, with `buf` the content of `tcp_buf` and `total` the
      count so far. */
  function CopyFrom(file: seq<ReadResult>, stream: nat -> WriteResult, k: nat, buf: seq<byte>, total: nat): (c: Copy)
    requires |buf| == TcpBufferSize
    decreases |file| - k
    ensures forall j :: 0 <= j < |c.writes| ==> |c.writes[j]| == TcpBufferSize
    ensures |c.progress| <= |c.writes| <= |c.progress| + 1
    ensures c.total >= total
  {
    if k >= |file| then Copy(Completed, [], [], total)
    else match file[k]
      case ReadError => Copy(Interrupted(ReadFailed), [], [], total)
      case ReadOk(chunk) =>
        if chunk == [] then Copy(Completed, [], [], total)
        else
          var sent := Overlay(buf, chunk);
          match stream(k)
          case WriteError => Copy(Interrupted(WriteFailed), [sent], [], total)
          case Wrote(n) =>
            var rest := CopyFrom(file, stream, k + 1, sent, total + n);
            Copy(rest.end, [sent] + rest.writes, [total] + rest.progress, rest.total)
  }

  /** The whole copy loop: `tcp_buf` starts as zeros and the count at 0. Every write hands over
      the full buffer, there is at most one write per read that brings data, and a write without
      a progress line after it is the failed one that ends the loop; otherwise the loop ends at
      the first read that brings no data, with an error if that read failed. */
  function CopyAll(file: seq<ReadResult>, stream: nat -> WriteResult): (c: Copy)
    ensures forall j :: 0 <= j < |c.writes| ==> |c.writes[j]| == TcpBufferSize
    ensures |c.progress| <= |c.writes| <= EndOfData(file, 0)
    ensures c.end == Interrupted(WriteFailed) <==> |c.writes| == |c.progress| + 1
    ensures c.end != Interrupted(WriteFailed) ==> c.end == ReadEnd(file, |c.writes|)
  {
    CopyShape(file, stream, 0, Zeros(TcpBufferSize), 0);
    CopyFrom(file, stream, 0, Zeros(TcpBufferSize), 0)
  }

  /** `c` preceded by writes and progress lines already made. */
  function After(writes: seq<seq<byte>>, progress: seq<nat>, c: Copy): Copy {
    Copy(c.end, writes + c.writes, progress + c.progress, c.total)
  }

  /** The loop as `main` runs it, over one `tcp_buf` array that every read overwrites in place. */
  method CopyLoop(file: seq<ReadResult>, stream: nat -> WriteResult) returns (c: Copy)
    ensures c == CopyAll(file, stream)
  {
    var tcpBuf := new byte[TcpBufferSize](_ => 0);
    var totalBytesWritten := 0;
    var writes: seq<seq<byte>> := [];
    var progress: seq<nat> := [];
    var k := 0;
    assert tcpBuf[..] == Zeros(TcpBufferSize);
    assert After(writes, progress, CopyAll(file, stream)) == CopyAll(file, stream);
    while true
      invariant k <= |file| && tcpBuf.Length == TcpBufferSize
      invariant After(writes, progress, CopyFrom(file, stream, k, tcpBuf[..], totalBytesWritten))
        == CopyAll(file, stream)
      decreases |file| - k
    {
      ghost var before := tcpBuf[..];
      ghost var rest := CopyFrom(file, stream, k, before, totalBytesWritten);
      var numRead := 0;
      if k < |file| {
        match file[k]
        case ReadError =>
          assert rest == Copy(Interrupted(ReadFailed), [], [], totalBytesWritten);
          assert writes + [] == writes && progress + [] == progress;
          return Copy(Interrupted(ReadFailed), writes, progress, totalBytesWritten);
        case ReadOk(chunk) =>
          numRead := FillPrefix(tcpBuf, chunk);
      }
      if numRead == 0 {
        assert rest == Copy(Completed, [], [], totalBytesWritten);
        assert writes + [] == writes && progress + [] == progress;
        assert Copy(Completed, writes, progress, totalBytesWritten) == CopyAll(file, stream);
        break;
      }
      writes := writes + [tcpBuf[..]];
      match stream(k)
      case WriteError =>
        assert rest == Copy(Interrupted(WriteFailed), [tcpBuf[..]], [], totalBytesWritten);
        assert progress + [] == progress;
        return Copy(Interrupted(WriteFailed), writes, progress, totalBytesWritten);
      case Wrote(numWritten) =>
        CopyStep(file, stream, k, before, totalBytesWritten, writes[..|writes| - 1], progress);
        progress := progress + [totalBytesWritten];
        totalBytesWritten := totalBytesWritten + numWritten;
        k := k + 1;
    }
    c := Copy(Completed, writes, progress, totalBytesWritten);
  }

  /** One read-and-write round of the loop moves one write and one progress line from the rest
      of the loop into what is already done. */
  lemma CopyStep(file: seq<ReadResult>, stream: nat -> WriteResult, k: nat, buf: seq<byte>, total: nat,
                 writes: seq<seq<byte>>, progress: seq<nat>)
    requires |buf| == TcpBufferSize && k < |file|
    requires file[k].ReadOk? && file[k].chunk != [] && stream(k).Wrote?
    ensures var sent := Overlay(buf, file[k].chunk);
      After(writes, progress, CopyFrom(file, stream, k, buf, total)) ==
      After(writes + [sent], progress + [total], CopyFrom(file, stream, k + 1, sent, total + stream(k).count))
  {
    var sent := Overlay(buf, file[k].chunk);
    var rest := CopyFrom(file, stream, k + 1, sent, total + stream(k).count);
    DataRound(file, stream, k, buf, total);
    assert writes + ([sent] + rest.writes) == (writes + [sent]) + rest.writes;
    assert progress + ([total] + rest.progress) == (progress + [total]) + rest.progress;
  }

  /** A read that brings data followed by a write that succeeds: one write and one progress line
      ahead of the rest of the loop. */
  lemma DataRound(file: seq<ReadResult>, stream: nat -> WriteResult, k: nat, buf: seq<byte>, total: nat)
    requires |buf| == TcpBufferSize && BringsData(file, k) && stream(k).Wrote?
    ensures var sent := Overlay(buf, file[k].chunk);
      var rest := CopyFrom(file, stream, k + 1, sent, total + stream(k).count);
      CopyFrom(file, stream, k, buf, total) == Copy(rest.end, [sent] + rest.writes, [total] + rest.progress, rest.total)
  {
  }

  /** Read `j` brings data: it is within the file, succeeds and returns more than 0 bytes. */
  predicate BringsData(file: seq<ReadResult>, j: nat) {
    j < |file| && file[j].ReadOk? && file[j].chunk != []
  }

  /** The first read from `k` on that brings no data: the one that ends the loop. */
  function EndOfData(file: seq<ReadResult>, k: nat): (e: nat)
    decreases |file| - k
    ensures k <= e && !BringsData(file, e)
    ensures forall j :: k <= j < e ==> BringsData(file, j)
    ensures e <= |file| || e == k
  {
    if BringsData(file, k) then EndOfData(file, k + 1) else k
  }

  /** How the loop ends when no write fails: at that read, with an error or completed. */
  function ReadEnd(file: seq<ReadResult>, e: nat): CopyEnd {
    if e < |file| && file[e].ReadError? then Interrupted(ReadFailed) else Completed
  }

  function Count(w: WriteResult): nat {
    match w
    case WriteError => 0
    case Wrote(n) => n
  }

  /** The sum of what writes `from .. to-1` returned. */
  function Written(stream: nat -> WriteResult, from: nat, to: nat): nat
    decreases to - from
  {
    if to <= from then 0 else Count(stream(from)) + Written(stream, from + 1, to)
  }

  /** The loop makes one write per read that brings data and stops at the first read that does
      not, unless a write fails first; the final count is the sum of what the successful writes
      returned. */
  lemma {:induction false} CopyShape(file: seq<ReadResult>, stream: nat -> WriteResult, k: nat, buf: seq<byte>, total: nat)
    requires |buf| == TcpBufferSize
    decreases |file| - k
    ensures var c, e := CopyFrom(file, stream, k, buf, total), EndOfData(file, k);
      var m := |c.progress|;
      |c.writes| <= e - k &&
      c.total == total + Written(stream, k, k + m) &&
      (c.end == Interrupted(WriteFailed) <==> |c.writes| == m + 1) &&
      (c.end == Interrupted(WriteFailed) ==> stream(k + m).WriteError?) &&
      (c.end != Interrupted(WriteFailed) ==> |c.writes| == e - k && c.end == ReadEnd(file, e))
  {
    if BringsData(file, k) && stream(k).Wrote? {
      var sent := Overlay(buf, file[k].chunk);
      CopyShape(file, stream, k + 1, sent, total + stream(k).count);
    }
  }

  /** Progress line `j` follows write `j`, which succeeded, and shows the count from before it. */
  lemma {:induction false} ProgressAt(file: seq<ReadResult>, stream: nat -> WriteResult, k: nat, buf: seq<byte>, total: nat, j: nat)
    requires |buf| == TcpBufferSize
    requires j < |CopyFrom(file, stream, k, buf, total).progress|
    ensures stream(k + j).Wrote?
    ensures CopyFrom(file, stream, k, buf, total).progress[j] == total + Written(stream, k, k + j)
    decreases j
  {
    var c := CopyFrom(file, stream, k, buf, total);
    assert BringsData(file, k) && stream(k).Wrote?;
    if j > 0 {
      var sent := Overlay(buf, file[k].chunk);
      var n := stream(k).count;
      var rest := CopyFrom(file, stream, k + 1, sent, total + n);
      DataRound(file, stream, k, buf, total);
      ProgressAt(file, stream, k + 1, sent, total + n, j - 1);
      assert c.progress[j] == rest.progress[j - 1];
      assert k + 1 + (j - 1) == k + j;
    }
  }

  /** What `tcp_buf` held just before read `k + j`, for a loop started at read `k` with `initial`. */
  function BufferBefore(c: Copy, initial: seq<byte>, j: nat): seq<byte>
    requires j <= |c.writes|
  {
    if j == 0 then initial else c.writes[j - 1]
  }

  /** Write `j` hands over the whole of `tcp_buf`: in front the bytes of the read just made,
      behind them whatever the buffer held before that read. */
  lemma {:induction false} WrittenBufferAt(file: seq<ReadResult>, stream: nat -> WriteResult, k: nat, buf: seq<byte>, total: nat, j: nat)
    requires |buf| == TcpBufferSize
    requires j < |CopyFrom(file, stream, k, buf, total).writes|
    ensures k + j < |file| && file[k + j].ReadOk? && file[k + j].chunk != []
    ensures var c := CopyFrom(file, stream, k, buf, total);
      |BufferBefore(c, buf, j)| == TcpBufferSize &&
      c.writes[j] == Overlay(BufferBefore(c, buf, j), file[k + j].chunk)
    decreases j
  {
    var c := CopyFrom(file, stream, k, buf, total);
    assert BringsData(file, k);
    var sent := Overlay(buf, file[k].chunk);
    if stream(k).WriteError? {
      assert c.writes == [sent];
    } else {
      var n := stream(k).count;
      var rest := CopyFrom(file, stream, k + 1, sent, total + n);
      DataRound(file, stream, k, buf, total);
      if j > 0 {
        WrittenBufferAt(file, stream, k + 1, sent, total + n, j - 1);
        ShiftWrite(c, rest, buf, sent, j);
        assert k + 1 + (j - 1) == k + j;
      } else {
        assert c.writes[0] == sent;
      }
    }
  }

  /** Write `j` of a loop whose first write was `sent` is write `j - 1` of the rest of it. */
  lemma ShiftWrite(c: Copy, rest: Copy, buf: seq<byte>, sent: seq<byte>, j: nat)
    requires c.writes == [sent] + rest.writes && 0 < j <= |rest.writes|
    ensures c.writes[j] == rest.writes[j - 1]
    ensures BufferBefore(c, buf, j) == BufferBefore(rest, sent, j - 1)
  {
  }

  /** When no write fails, every read that brings data is followed by exactly one write and one
      progress line, the loop ends at the first read that brings none (with an error if that
      read failed), and the final count is the sum of what the writes returned. */
  lemma OneWritePerDataRead(file: seq<ReadResult>, stream: nat -> WriteResult)
    requires forall j :: stream(j).Wrote?
    ensures var c, e := CopyAll(file, stream), EndOfData(file, 0);
      |c.writes| == |c.progress| == e && c.end == ReadEnd(file, e) && c.total == Written(stream, 0, e)
  {
    CopyShape(file, stream, 0, Zeros(TcpBufferSize), 0);
  }

  /** The final count is the sum of the successful writes' return values, and each progress line
      shows the sum of those before its own write. */
  lemma TotalIsSumOfWrites(file: seq<ReadResult>, stream: nat -> WriteResult)
    ensures var c := CopyAll(file, stream);
      c.total == Written(stream, 0, |c.progress|) &&
      forall j :: 0 <= j < |c.progress| ==> stream(j).Wrote? && c.progress[j] == Written(stream, 0, j)
  {
    CopyShape(file, stream, 0, Zeros(TcpBufferSize), 0);
    var c := CopyAll(file, stream);
    forall j | 0 <= j < |c.progress|
      ensures stream(j).Wrote? && c.progress[j] == Written(stream, 0, j)
    {
      ProgressAt(file, stream, 0, Zeros(TcpBufferSize), 0, j);
    }
  }

  /** Write `j` carries the `n` bytes of read `j` in front and, behind them, the bytes that
      `tcp_buf` kept from earlier reads (zeros before the first one): whatever `n` was, all 4096
      bytes go out. */
  lemma StaleBytesAreSent(file: seq<ReadResult>, stream: nat -> WriteResult, j: nat)
    requires j < |CopyAll(file, stream).writes|
    ensures j < |file| && file[j].ReadOk?
    ensures var c, n := CopyAll(file, stream), |file[j].chunk|;
      var earlier := if j == 0 then Zeros(TcpBufferSize) else c.writes[j - 1];
      0 < n && |c.writes[j]| == TcpBufferSize &&
      c.writes[j][..n] == file[j].chunk && c.writes[j][n..] == earlier[n..]
  {
    WrittenBufferAt(file, stream, 0, Zeros(TcpBufferSize), 0, j);
  }

  /** An empty file: no write, no progress line, and a final count of 0. */
  lemma EmptyFileSendsNothing(file: seq<ReadResult>, stream: nat -> WriteResult)
    requires file == [] || file[0] == ReadOk([])
    ensures CopyAll(file, stream) == Copy(Completed, [], [], 0)
  {
  }

  /** A file of exactly one buffer: one read-and-write round, then the 0-byte read; the count
      is what that one write returned. */
  lemma OneFullChunk(f: Chunk, stream: nat -> WriteResult)
    requires |f| == TcpBufferSize && stream(0) == Wrote(TcpBufferSize)
    ensures CopyAll([ReadOk(f)], stream) == Copy(Completed, [f], [0], TcpBufferSize)
  {
    assert Overlay(Zeros(TcpBufferSize), f) == f;
    var rest := CopyFrom([ReadOk(f)], stream, 1, f, TcpBufferSize);
    assert rest == Copy(Completed, [], [], TcpBufferSize);
  }

  /** A file shorter than the buffer goes out padded with the buffer's initial zeros. */
  lemma ShortFileIsZeroPadded(f: Chunk, stream: nat -> WriteResult)
    requires 0 < |f| < TcpBufferSize && stream(0).Wrote?
    ensures CopyAll([ReadOk(f)], stream).writes == [f + Zeros(TcpBufferSize - |f|)]
  {
    var sent := Overlay(Zeros(TcpBufferSize), f);
    assert sent == f + Zeros(TcpBufferSize - |f|);
    var rest := CopyFrom([ReadOk(f)], stream, 1, sent, stream(0).count);
    assert rest.writes == [];
  }

  /** A full buffer followed by a short final read: the second write repeats the tail of the
      first buffer behind the new bytes. */
  lemma ShortFinalChunkRepeatsStaleTail(a: Chunk, b: Chunk, stream: nat -> WriteResult)
    requires |a| == TcpBufferSize && 0 < |b| < TcpBufferSize
    requires stream(0).Wrote? && stream(1).Wrote?
    ensures CopyAll([ReadOk(a), ReadOk(b)], stream).writes == [a, b + a[|b|..]]
  {
    var file := [ReadOk(a), ReadOk(b)];
    var z := Zeros(TcpBufferSize);
    assert Overlay(z, a) == a;
    var rest := CopyFrom(file, stream, 1, a, stream(0).count);
    var last := CopyFrom(file, stream, 2, Overlay(a, b), stream(0).count + stream(1).count);
    assert last.writes == [];
    assert rest.writes == [Overlay(a, b)] + last.writes;
  }

  /** The reads a regular file of contents `f` yields: full buffers, then what remains. */
  function RegularReads(f: seq<byte>): (r: seq<ReadResult>)
    decreases |f|
  {
    if f == [] then []
    else if |f| <= TcpBufferSize then [ReadOk(f)]
    else [ReadOk(f[..TcpBufferSize])] + RegularReads(f[TcpBufferSize..])
  }

  /** Number of buffers needed for `n` bytes: the ceiling of `n / 4096`. */
  function Blocks(n: nat): nat {
    (n + TcpBufferSize - 1) / TcpBufferSize
  }

  function Flatten(writes: seq<seq<byte>>): seq<byte> {
    if writes == [] then [] else writes[0] + Flatten(writes[1..])
  }

  /** Sending a regular file whose writes all take the whole buffer: ceil(|f| / 4096) writes, the
      count is 4096 per write, and the bytes on the wire are the file followed by the stale
      bytes that fill up its last buffer. */
  lemma RegularFileTransfer(f: seq<byte>, stream: nat -> WriteResult)
    requires forall j :: stream(j) == Wrote(TcpBufferSize)
    ensures var c := CopyAll(RegularReads(f), stream);
      c.end == Completed && |c.writes| == Blocks(|f|) && c.total == TcpBufferSize * Blocks(|f|) &&
      |Flatten(c.writes)| == TcpBufferSize * Blocks(|f|) && f <= Flatten(c.writes)
    ensures 0 < |f| <= TcpBufferSize ==>
      Flatten(CopyAll(RegularReads(f), stream).writes) == f + Zeros(TcpBufferSize - |f|)
    ensures |f| > TcpBufferSize ==>
      Flatten(CopyAll(RegularReads(f), stream).writes) ==
        f + f[|f| - TcpBufferSize .. (Blocks(|f|) - 1) * TcpBufferSize]
  {
    var z := Zeros(TcpBufferSize);
    assert [] + RegularReads(f) == RegularReads(f);
    RegularFileFrom([], f, stream, z, 0);
    RegularFileBytes([], f, stream, z, 0);
    if 0 < |f| <= TcpBufferSize {
      assert StaleTail(z, f) == z[|f|..] == Zeros(TcpBufferSize - |f|);
    } else if |f| > TcpBufferSize {
      StaleTailOfLongFile(z, f);
    }
  }

  /** The bytes that follow a file of contents `g` on the wire when it is sent from a buffer
      holding `buf`: what the last buffer kept behind the last read. */
  function StaleTail(buf: seq<byte>, g: seq<byte>): seq<byte>
    requires |buf| == TcpBufferSize
    decreases |g|
  {
    if g == [] then []
    else if |g| <= TcpBufferSize then buf[|g|..]
    else StaleTail(g[..TcpBufferSize], g[TcpBufferSize..])
  }

  /** For a file longer than one buffer the stale tail comes from the file itself: the bytes of
      its next-to-last block that the short last read did not overwrite. */
  lemma {:induction false} StaleTailOfLongFile(buf: seq<byte>, g: seq<byte>)
    requires |buf| == TcpBufferSize && |g| > TcpBufferSize
    decreases |g|
    ensures |g| - TcpBufferSize <= (Blocks(|g|) - 1) * TcpBufferSize <= |g|
    ensures StaleTail(buf, g) == g[|g| - TcpBufferSize .. (Blocks(|g|) - 1) * TcpBufferSize]
  {
    var g' := g[TcpBufferSize..];
    BlocksStep(|g|);
    if |g'| <= TcpBufferSize {
      BlocksStep(|g'|);
    } else {
      StaleTailOfLongFile(g[..TcpBufferSize], g');
      var b' := Blocks(|g'|);
      var lo, hi := |g'| - TcpBufferSize, (b' - 1) * TcpBufferSize;
      assert Blocks(|g|) - 1 == b' >= 1;
      assert (Blocks(|g|) - 1) * TcpBufferSize == hi + TcpBufferSize;
      SliceOfDrop(g, TcpBufferSize, lo, hi);
    }
  }

  lemma SliceOfDrop(g: seq<byte>, n: nat, lo: nat, hi: nat)
    requires lo <= hi && n + hi <= |g|
    ensures g[n..][lo..hi] == g[n + lo .. n + hi]
  {
  }

  lemma {:induction false} RegularFileFrom(done: seq<ReadResult>, g: seq<byte>, stream: nat -> WriteResult, buf: seq<byte>, total: nat)
    requires |buf| == TcpBufferSize
    requires forall j :: stream(j) == Wrote(TcpBufferSize)
    decreases |g|
    ensures var c := CopyFrom(done + RegularReads(g), stream, |done|, buf, total);
      c.end == Completed && |c.writes| == Blocks(|g|) && c.total == total + TcpBufferSize * Blocks(|g|) &&
      |Flatten(c.writes)| == TcpBufferSize * Blocks(|g|) && g <= Flatten(c.writes)
  {
    var file := done + RegularReads(g);
    var k := |done|;
    if g != [] {
      var chunk, g' := FirstRead(g), AfterFirstRead(g);
      RegularReadsHead(done, g);
      var sent := Overlay(buf, chunk);
      RegularFileFrom(done + [ReadOk(chunk)], g', stream, sent, total + TcpBufferSize);
      DataRound(file, stream, k, buf, total);
      var rest := CopyFrom(file, stream, k + 1, sent, total + TcpBufferSize);
      FirstBlock(g, chunk, g', sent, rest.writes, rest.total, total);
    } else {
      assert file == done;
    }
  }

  /** The bytes on the wire for a regular file sent with full writes: the file, then the stale
      tail of its last buffer. */
  lemma {:induction false} RegularFileBytes(done: seq<ReadResult>, g: seq<byte>, stream: nat -> WriteResult, buf: seq<byte>, total: nat)
    requires |buf| == TcpBufferSize
    requires forall j :: stream(j) == Wrote(TcpBufferSize)
    decreases |g|
    ensures Flatten(CopyFrom(done + RegularReads(g), stream, |done|, buf, total).writes) == g + StaleTail(buf, g)
  {
    var file := done + RegularReads(g);
    var k := |done|;
    if g != [] {
      var chunk := FirstRead(g);
      RegularReadsHead(done, g);
      var sent := Overlay(buf, chunk);
      RegularFileBytes(done + [ReadOk(chunk)], AfterFirstRead(g), stream, sent, total + TcpBufferSize);
      DataRound(file, stream, k, buf, total);
      FirstBlockBytes(buf, g, CopyFrom(file, stream, k + 1, sent, total + TcpBufferSize).writes);
    } else {
      assert file == done;
    }
  }

  /** The first read of a regular file: a full buffer, or all of a shorter file. */
  function FirstRead(g: seq<byte>): Chunk
    requires g != []
  {
    if |g| <= TcpBufferSize then g else g[..TcpBufferSize]
  }

  /** What remains to be read after the first read. */
  function AfterFirstRead(g: seq<byte>): seq<byte>
    requires g != []
  {
    if |g| <= TcpBufferSize then [] else g[TcpBufferSize..]
  }

  /** After reads `done`, a regular file of contents `g` yields its first read, then the reads
      of the rest. */
  lemma RegularReadsHead(done: seq<ReadResult>, g: seq<byte>)
    requires g != []
    ensures var file, k := done + RegularReads(g), |done|;
      k < |file| && file[k] == ReadOk(FirstRead(g)) && FirstRead(g) != [] &&
      (done + [ReadOk(FirstRead(g))]) + RegularReads(AfterFirstRead(g)) == file
  {
    assert RegularReads(g) == [ReadOk(FirstRead(g))] + RegularReads(AfterFirstRead(g));
  }

  /** The counts and bytes of one more full write ahead of the writes for the rest of the file. */
  lemma FirstBlock(g: seq<byte>, chunk: seq<byte>, g': seq<byte>, sent: seq<byte>, writes: seq<seq<byte>>,
                   restTotal: nat, total: nat)
    requires |sent| == TcpBufferSize && g == chunk + g' && chunk != [] && chunk <= sent
    requires |g| > TcpBufferSize ==> |chunk| == TcpBufferSize
    requires |g| <= TcpBufferSize ==> g' == []
    requires |writes| == Blocks(|g'|) && restTotal == total + TcpBufferSize + TcpBufferSize * Blocks(|g'|)
    requires |Flatten(writes)| == TcpBufferSize * Blocks(|g'|) && g' <= Flatten(writes)
    ensures |[sent] + writes| == Blocks(|g|) && restTotal == total + TcpBufferSize * Blocks(|g|)
    ensures |Flatten([sent] + writes)| == TcpBufferSize * Blocks(|g|) && g <= Flatten([sent] + writes)
  {
    FlattenCons(sent, writes);
    BlocksStep(|g|);
    if |g| <= TcpBufferSize {
      assert g == chunk;
    } else {
      assert sent == chunk;
    }
  }

  /** The bytes of one more write ahead of those for the rest of the file. */
  lemma FirstBlockBytes(buf: seq<byte>, g: seq<byte>, writes: seq<seq<byte>>)
    requires |buf| == TcpBufferSize && g != []
    requires Flatten(writes) == AfterFirstRead(g) + StaleTail(Overlay(buf, FirstRead(g)), AfterFirstRead(g))
    ensures Flatten([Overlay(buf, FirstRead(g))] + writes) == g + StaleTail(buf, g)
  {
    var chunk, g' := FirstRead(g), AfterFirstRead(g);
    var sent := Overlay(buf, chunk);
    FlattenCons(sent, writes);
    if |g| <= TcpBufferSize {
      assert Flatten(writes) == [];
      assert sent == g + buf[|g|..];
    } else {
      assert sent == chunk;
      assert g == chunk + g';
    }
  }

  lemma FlattenCons(a: seq<byte>, w: seq<seq<byte>>)
    ensures Flatten([a] + w) == a + Flatten(w)
  {
    assert ([a] + w)[1..] == w;
  }

  lemma BlocksStep(n: nat)
    requires n > 0
    ensures n <= TcpBufferSize ==> Blocks(n) == 1
    ensures n > TcpBufferSize ==> Blocks(n) == 1 + Blocks(n - TcpBufferSize)
  {
  }
}
