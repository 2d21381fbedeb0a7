/** `main` of gba-net-send from the UDP bind on: discover a peer, open the ROM file, connect
    to the peer and stream the file to it. Every call into the operating system is an input
    (`Env`), and the run is observed as the outcome it reports and the calls it makes to the
    outside world, in order. */
module Send {
  import opened Bytes
  import opened Protocol
  import D = Discovery
  import T = Transfer

  /** The answers the outside world gives to the calls of one run. */
  datatype Env = Env(
    bindOk: bool,                      // UdpSocket::bind on 0.0.0.0:31313
    broadcastOk: bool,                 // set_broadcast(true)
    sendOk: nat -> bool,               // send_to of discovery round i
    recv: nat -> D.RecvResult,         // recv_from of discovery round i
    openOk: bool,                      // File::open of the ROM path
    connectOk: bool,                   // TcpStream::connect
    file: seq<T.ReadResult>,           // successive reads of the file
    stream: nat -> T.WriteResult)      // write number k on the TCP stream

  /** A call that reaches the network or the file system, or a progress line. Each effect is
      an attempted call: a `send_to`, `File::open`, `connect` or `write` that fails is recorded
      just as one that succeeds, and the run's outcome says which one failed. */
  datatype Effect =
    | Broadcast(payload: seq<byte>, target: SocketAddr)
    | OpenFile
    | Connect(target: SocketAddr)
    | Write(data: seq<byte>)
    | Progress(sent: nat)

  /** What the run reports at its end. */
  datatype Outcome = NoPeer | Aborted(failure: Failure) | Done(total: nat)

  datatype Run = Run(outcome: Outcome, effects: seq<Effect>)

  /** `n` discovery broadcasts: the request token to the broadcast address. */
  function Broadcasts(n: nat): (r: seq<Effect>)
    ensures |r| == n
    ensures forall i :: 0 <= i < n ==> r[i] == Broadcast(InitRequest, BroadcastTarget)
  {
    seq(n, _ => Broadcast(InitRequest, BroadcastTarget))
  }

  /** Where the TCP connection goes: the responder's IP address with the fixed port, whatever
      port the acknowledgment came from. */
  function TcpTarget(peer: SocketAddr): (r: SocketAddr)
    ensures r.ip == peer.ip && r.port == 31313
    ensures peer.port != 31313 ==> r != peer
  {
    SocketAddr(peer.ip, NetPort)
  }

  /** The calls of the copy loop: each write, followed by its progress line when it succeeded. */
  function CopyEffects(writes: seq<seq<byte>>, progress: seq<nat>): (r: seq<Effect>)
    requires |progress| <= |writes| <= |progress| + 1
    decreases |writes|
    ensures |r| == |writes| + |progress|
    ensures forall i :: 0 <= i < |r| ==> r[i].Write? || r[i].Progress?
    ensures forall j :: 0 <= j < |writes| ==> r[2 * j] == Write(writes[j])
    ensures forall j :: 0 <= j < |progress| ==> r[2 * j + 1] == Progress(progress[j])
  {
    if writes == [] then []
    else if progress == [] then [Write(writes[0])]
    else [Write(writes[0]), Progress(progress[0])] + CopyEffects(writes[1..], progress[1..])
  }

  /** The run, call by call. A failed setup makes no call; every broadcast is the request token
      to the broadcast address and comes before every other call; "no peer" follows broadcasts
      only; a file is opened only once a peer is known. */
  function RunOf(env: Env): (r: Run)
    ensures !env.bindOk || !env.broadcastOk ==> r.effects == []
    ensures forall i :: 0 <= i < |r.effects| && r.effects[i].Broadcast? ==>
      r.effects[i] == Broadcast(InitRequest, BroadcastTarget)
    ensures forall i, j :: 0 <= i < j < |r.effects| && r.effects[j].Broadcast? ==> r.effects[i].Broadcast?
    ensures r.outcome.NoPeer? ==> forall i :: 0 <= i < |r.effects| ==> r.effects[i].Broadcast?
    ensures OpenFile in r.effects ==> D.DiscoverAll(env.sendOk, env.recv).resolution.Resolved?
  {
    if !env.bindOk then Run(Aborted(BindFailed), [])
    else if !env.broadcastOk then Run(Aborted(BroadcastSetupFailed), [])
    else
      var d := D.DiscoverAll(env.sendOk, env.recv);
      var sent := Broadcasts(d.broadcasts);
      match d.resolution
      case Failed(f) => BroadcastsFirst(d.broadcasts, []); assert sent + [] == sent; Run(Aborted(f), sent)
      case Unanswered => BroadcastsFirst(d.broadcasts, []); assert sent + [] == sent; Run(NoPeer, sent)
      case Resolved(peer) =>
        var t := Transmission(env, peer);
        BroadcastsFirst(d.broadcasts, t.effects);
        Run(t.outcome, sent + t.effects)
  }

  /** Broadcasts followed by calls that are not broadcasts: the broadcasts are all the request
      token, all come first, and a file open can only be among the later calls. */
  lemma BroadcastsFirst(n: nat, rest: seq<Effect>)
    requires forall i :: 0 <= i < |rest| ==> !rest[i].Broadcast?
    ensures var s := Broadcasts(n) + rest;
      (forall i :: 0 <= i < |s| && s[i].Broadcast? ==> s[i] == Broadcast(InitRequest, BroadcastTarget)) &&
      (forall i, j :: 0 <= i < j < |s| && s[j].Broadcast? ==> s[i].Broadcast?) &&
      (rest == [] ==> forall i :: 0 <= i < |s| ==> s[i].Broadcast?) &&
      (OpenFile in s ==> OpenFile in rest)
  {
    var s := Broadcasts(n) + rest;
    assert forall i :: 0 <= i < n ==> s[i].Broadcast?;
    assert forall i :: n <= i < |s| ==> s[i] == rest[i - n];
  }

  /** The run from the file open on, once `peer` has acknowledged: the file is opened first,
      the connection to the peer's IP on port 31313 comes next, and after it only writes and
      progress lines. */
  function Transmission(env: Env, peer: SocketAddr): (t: Run)
    ensures 1 <= |t.effects| && t.effects[0] == OpenFile
    ensures 2 <= |t.effects| ==> t.effects[1] == Connect(SocketAddr(peer.ip, NetPort))
    ensures forall i :: 2 <= i < |t.effects| ==> t.effects[i].Write? || t.effects[i].Progress?
    ensures forall i :: 0 <= i < |t.effects| ==> !t.effects[i].Broadcast?
    ensures !t.outcome.NoPeer?
  {
    if !env.openOk then Run(Aborted(OpenFailed), [OpenFile])
    else if !env.connectOk then Run(Aborted(ConnectFailed), [OpenFile, Connect(TcpTarget(peer))])
    else
      var c := T.CopyAll(env.file, env.stream);
      var effects := [OpenFile, Connect(TcpTarget(peer))] + CopyEffects(c.writes, c.progress);
      match c.end
      case Completed => Run(Done(c.total), effects)
      case Interrupted(f) => Run(Aborted(f), effects)
  }

  /** `main` after argument handling, in its own order of calls. */
  method SendRom(env: Env) returns (run: Run)
    ensures run == RunOf(env)
  {
    if !env.bindOk {
      return Run(Aborted(BindFailed), []);
    }
    if !env.broadcastOk {
      return Run(Aborted(BroadcastSetupFailed), []);
    }
    var discovery := D.Discover(env.sendOk, env.recv);
    var effects := Broadcasts(discovery.broadcasts);
    var peer: SocketAddr;
    match discovery.resolution {
      case Failed(f) =>
        return Run(Aborted(f), effects);
      case Unanswered =>
        return Run(NoPeer, effects);
      case Resolved(addr) =>
        peer := addr;
    }
    var transmitted := Transmit(env, peer);
    run := Run(transmitted.outcome, effects + transmitted.effects);
  }

  /** `main` from the file open on, once `peer` has acknowledged. */
  method Transmit(env: Env, peer: SocketAddr) returns (t: Run)
    ensures t == Transmission(env, peer)
  {
    var effects := [OpenFile];
    if !env.openOk {
      return Run(Aborted(OpenFailed), effects);
    }
    effects := effects + [Connect(TcpTarget(peer))];
    if !env.connectOk {
      return Run(Aborted(ConnectFailed), effects);
    }
    var copy := T.CopyLoop(env.file, env.stream);
    effects := effects + CopyEffects(copy.writes, copy.progress);
    match copy.end {
      case Completed =>
        t := Run(Done(copy.total), effects);
      case Interrupted(f) =>
        t := Run(Aborted(f), effects);
    }
  }

  /** A failed bind or broadcast setup ends the run before any datagram is sent. */
  lemma SetupFailureSendsNothing(env: Env)
    requires !env.bindOk || !env.broadcastOk
    ensures RunOf(env) == Run(Aborted(if !env.bindOk then BindFailed else BroadcastSetupFailed), [])
  {
  }

  /** If every round is answered with valid text that is not the token, the run sends exactly
      `Retries` broadcasts and nothing else, and reports that no peer answered. */
  lemma NoAckNoTransfer(env: Env)
    requires env.bindOk && env.broadcastOk
    requires forall j :: 0 <= j < Retries ==> D.Skips(env.sendOk, env.recv, j)
    ensures RunOf(env) == Run(NoPeer, Broadcasts(Retries))
  {
    D.NoAckMeansAllRetries(env.sendOk, env.recv);
  }

  /** The run reports no peer exactly when setup succeeded and all `Retries` rounds were skipped;
      it has then neither opened the file nor connected. */
  lemma NoPeerIffAllSkipped(env: Env)
    ensures RunOf(env).outcome == NoPeer <==>
      env.bindOk && env.broadcastOk && forall j :: 0 <= j < Retries ==> D.Skips(env.sendOk, env.recv, j)
    ensures RunOf(env).outcome == NoPeer ==> RunOf(env).effects == Broadcasts(Retries)
  {
    D.UnansweredMeansAllSkipped(env.sendOk, env.recv);
  }

  /** A failed send or receive or undecodable bytes end the run with that failure after the
      broadcasts made so far: the file is not opened and no connection is made. */
  lemma DiscoveryFailureStopsRun(env: Env)
    requires env.bindOk && env.broadcastOk
    requires D.DiscoverAll(env.sendOk, env.recv).resolution.Failed?
    ensures var d := D.DiscoverAll(env.sendOk, env.recv);
      RunOf(env) == Run(Aborted(d.resolution.failure), Broadcasts(d.broadcasts)) &&
      d.resolution.failure in {SendFailed, RecvFailed, DecodeFailed}
  {
  }

  /** The file is opened only once a peer has acknowledged, right after the last broadcast; the
      connection, if any, comes next and goes to the acknowledging peer's IP on port 31313. */
  lemma OpenAndConnectFollowAck(env: Env, i: nat)
    requires i < |RunOf(env).effects|
    requires RunOf(env).effects[i].OpenFile? || RunOf(env).effects[i].Connect?
    ensures var d := D.DiscoverAll(env.sendOk, env.recv);
      env.bindOk && env.broadcastOk && d.resolution.Resolved? &&
      (forall j :: 0 <= j < d.broadcasts ==> RunOf(env).effects[j].Broadcast?) &&
      RunOf(env).effects[d.broadcasts] == OpenFile &&
      (RunOf(env).effects[i] == OpenFile ==> i == d.broadcasts) &&
      (RunOf(env).effects[i].Connect? ==>
         i == d.broadcasts + 1 && RunOf(env).effects[i].target == TcpTarget(d.resolution.peer))
  {
    var d := D.DiscoverAll(env.sendOk, env.recv);
    var r := RunOf(env);
    assert env.bindOk && env.broadcastOk && d.resolution.Resolved?;
    var sent := Broadcasts(d.broadcasts);
    var t := Transmission(env, d.resolution.peer);
    assert r.effects == sent + t.effects;
    assert i >= d.broadcasts;
    assert r.effects[i] == t.effects[i - d.broadcasts];
  }

  /** A completed run reports the sum of what the writes returned. */
  lemma DoneReportsSumOfWrites(env: Env)
    requires RunOf(env).outcome.Done?
    ensures var c := T.CopyAll(env.file, env.stream);
      c.end == T.Completed && RunOf(env).outcome.total == T.Written(env.stream, 0, |c.progress|)
  {
    T.TotalIsSumOfWrites(env.file, env.stream);
  }

  /** A peer that acknowledges the third broadcast, and a file of exactly one buffer: three
      broadcasts, the file opened, a connection to the peer's IP on port 31313, one write of the
      whole file, one progress line showing 0, and a final count of 4096. */
  lemma AckOnThirdBroadcast(env: Env, src: SocketAddr, f: T.Chunk)
    requires env.bindOk && env.broadcastOk && env.openOk && env.connectOk
    requires D.Skips(env.sendOk, env.recv, 0) && D.Skips(env.sendOk, env.recv, 1)
    requires env.sendOk(2) && env.recv(2) == D.Received(InitResponse, src)
    requires |f| == TcpBufferSize && env.file == [T.ReadOk(f)] && env.stream(0) == T.Wrote(TcpBufferSize)
    ensures RunOf(env) == Run(Done(TcpBufferSize),
      Broadcasts(3) + [OpenFile, Connect(SocketAddr(src.ip, NetPort)), Write(f), Progress(0)])
  {
    D.FirstAckResolves(env.sendOk, env.recv, 2, src);
    TransmitOneChunk(env, src, f);
  }

  /** Once a peer is known, a one-buffer file is opened, the peer connected, the file written once
      and one progress line shown before the run reports 4096 bytes. */
  lemma TransmitOneChunk(env: Env, peer: SocketAddr, f: T.Chunk)
    requires env.openOk && env.connectOk
    requires |f| == TcpBufferSize && env.file == [T.ReadOk(f)] && env.stream(0) == T.Wrote(TcpBufferSize)
    ensures Transmission(env, peer) ==
      Run(Done(TcpBufferSize), [OpenFile, Connect(SocketAddr(peer.ip, NetPort)), Write(f), Progress(0)])
  {
    T.OneFullChunk(f, env.stream);
    assert CopyEffects([f], [0]) == [Write(f), Progress(0)];
  }
}
