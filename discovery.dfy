/** The discovery handshake of `main`: up to `RETRIES` rounds, each broadcasting the request
    token, receiving one datagram and checking it for the acknowledgment token. The network is
    given as inputs: `sendOk(i)` says whether the `send_to` of round `i` succeeds, `recv(i)` what
    its `recv_from` returns. */
module Discovery {
  import opened Bytes
  import opened Protocol
  import Utf8

  datatype Option<T> = None | Some(value: T)

  /** What `recv_from` can place in `udp_buf`: never more than the buffer holds. */
  type Payload = s: seq<byte> | |s| <= UdpBufferSize witness []

  datatype RecvResult = RecvError | Received(payload: Payload, src: SocketAddr)

  /** How the discovery loop ends: with the acknowledging peer, with the retries used up,
      or with a fatal error. */
  datatype Resolution = Resolved(peer: SocketAddr) | Unanswered | Failed(failure: Failure)

  /** The resolution together with the number of `send_to` calls made. */
  datatype DiscoveryRun = DiscoveryRun(resolution: Resolution, broadcasts: nat)

  /** What one round decides: go on to the next round, or leave the loop with a resolution. */
  datatype Round = Continue | Stop(resolution: Resolution)

  /** Round `i`: send, receive, decode, compare; the first failure in that order decides. A
      failed send always stops the round with that failure; a round resolves only when its
      send worked and the datagram carried the token, and then to that datagram's sender; a
      round that goes on received something other than the token; no round ends the loop
      unanswered. */
  function RoundAt(sendOk: nat -> bool, recv: nat -> RecvResult, i: nat): (r: Round)
    ensures r == Stop(Failed(SendFailed)) <==> !sendOk(i)
    ensures r.Stop? && r.resolution.Resolved? ==>
      sendOk(i) && recv(i).Received? && recv(i).payload == InitResponse && recv(i).src == r.resolution.peer
    ensures r == Continue ==> sendOk(i) && recv(i).Received? && recv(i).payload != InitResponse
    ensures r.Stop? ==> !r.resolution.Unanswered?
  {
    if !sendOk(i) then Stop(Failed(SendFailed))
    else match recv(i)
      case RecvError => Stop(Failed(RecvFailed))
      case Received(payload, src) =>
        if !Utf8.IsValid(payload) then Stop(Failed(DecodeFailed))
        else if payload == InitResponse then Stop(Resolved(src))
        else Continue
  }

  /** Round `i` sends and receives without error and gets valid text that is not the token. */
  predicate Skips(sendOk: nat -> bool, recv: nat -> RecvResult, i: nat) {
    sendOk(i) && recv(i).Received? && Utf8.IsValid(recv(i).payload) && recv(i).payload != InitResponse
  }

  /** The discovery loop started at round `i`. */
  function DiscoverFrom(sendOk: nat -> bool, recv: nat -> RecvResult, i: nat): (r: DiscoveryRun)
    requires i <= Retries
    decreases Retries - i
    ensures i <= r.broadcasts <= Retries
    ensures r.resolution.Unanswered? ==> r.broadcasts == Retries
    ensures !r.resolution.Unanswered? ==>
      i < r.broadcasts && RoundAt(sendOk, recv, r.broadcasts - 1) == Stop(r.resolution)
  {
    if i == Retries then DiscoveryRun(Unanswered, Retries)
    else match RoundAt(sendOk, recv, i)
      case Stop(resolution) => DiscoveryRun(resolution, i + 1)
      case Continue => DiscoverFrom(sendOk, recv, i + 1)
  }

  /** The whole discovery loop, from its first round: at most `Retries` broadcasts; when no
      peer answered, all of them were sent; otherwise the last round sent decided the result. */
  function DiscoverAll(sendOk: nat -> bool, recv: nat -> RecvResult): (r: DiscoveryRun)
    ensures r.broadcasts <= Retries
    ensures r.resolution.Unanswered? ==> r.broadcasts == Retries
    ensures !r.resolution.Unanswered? ==> 1 <= r.broadcasts && RoundAt(sendOk, recv, r.broadcasts - 1) == Stop(r.resolution)
  {
    DiscoverFrom(sendOk, recv, 0)
  }

  /** The loop as `main` runs it, with `udp_buf` a fresh zeroed array in every round. */
  method Discover(sendOk: nat -> bool, recv: nat -> RecvResult) returns (run: DiscoveryRun)
    ensures run == DiscoverAll(sendOk, recv)
  {
    var tcpAddr: Option<SocketAddr> := None;
    var broadcasts := 0;
    for i := 0 to Retries
      invariant broadcasts == i && tcpAddr == None
      invariant DiscoverFrom(sendOk, recv, i) == DiscoverAll(sendOk, recv)
    {
      broadcasts := broadcasts + 1;
      if !sendOk(i) {
        return DiscoveryRun(Failed(SendFailed), broadcasts);
      }
      var received := recv(i);
      if received.RecvError? {
        return DiscoveryRun(Failed(RecvFailed), broadcasts);
      }
      var filled := ReceiveInto(received.payload);
      if !Utf8.IsValid(filled) {
        return DiscoveryRun(Failed(DecodeFailed), broadcasts);
      }
      if filled == InitResponse {
        tcpAddr := Some(received.src);
        break;
      }
    }
    match tcpAddr
    case None =>
      run := DiscoveryRun(Unanswered, broadcasts);
    case Some(addr) =>
      run := DiscoveryRun(Resolved(addr), broadcasts);
  }

  /** `recv_from` into a fresh zeroed `udp_buf`: the bytes read are the datagram's payload. */
  method ReceiveInto(payload: Payload) returns (filled: seq<byte>)
    ensures filled == payload
  {
    var udpBuf := new byte[UdpBufferSize](_ => 0);
    var numRecvd := FillPrefix(udpBuf, payload);
    filled := udpBuf[..numRecvd];
  }

  /** Rounds `i .. k-1` continue and round `k` stops: the loop ends there, after `k + 1` sends. */
  lemma {:induction false} FirstStopDecides(sendOk: nat -> bool, recv: nat -> RecvResult, i: nat, k: nat)
    requires i <= k < Retries
    requires forall j :: i <= j < k ==> RoundAt(sendOk, recv, j) == Continue
    requires RoundAt(sendOk, recv, k).Stop?
    ensures DiscoverFrom(sendOk, recv, i) == DiscoveryRun(RoundAt(sendOk, recv, k).resolution, k + 1)
    decreases k - i
  {
    if i < k {
      FirstStopDecides(sendOk, recv, i + 1, k);
    }
  }

  /** Rounds `i .. Retries-1` all continue: the retries run out after every one of them sent. */
  lemma {:induction false} NoStopExhausts(sendOk: nat -> bool, recv: nat -> RecvResult, i: nat)
    requires i <= Retries
    requires forall j :: i <= j < Retries ==> RoundAt(sendOk, recv, j) == Continue
    ensures DiscoverFrom(sendOk, recv, i) == DiscoveryRun(Unanswered, Retries)
    decreases Retries - i
  {
    if i < Retries {
      NoStopExhausts(sendOk, recv, i + 1);
    }
  }

  /** A round continues exactly when it is skipped. */
  lemma ContinueIffSkips(sendOk: nat -> bool, recv: nat -> RecvResult, i: nat)
    ensures RoundAt(sendOk, recv, i) == Continue <==> Skips(sendOk, recv, i)
  {
  }

  /** Every round before the last one made was skipped; when the retries ran out, that holds
      for the last one too. */
  lemma {:induction false} EarlierRoundsSkipped(sendOk: nat -> bool, recv: nat -> RecvResult, i: nat)
    requires i <= Retries
    ensures var r := DiscoverFrom(sendOk, recv, i);
      forall j :: i <= j < r.broadcasts && (j < r.broadcasts - 1 || r.resolution.Unanswered?) ==>
        Skips(sendOk, recv, j)
    decreases Retries - i
  {
    var r := DiscoverFrom(sendOk, recv, i);
    if i < Retries {
      var round := RoundAt(sendOk, recv, i);
      if round == Continue {
        var r' := DiscoverFrom(sendOk, recv, i + 1);
        ContinueIffSkips(sendOk, recv, i);
        EarlierRoundsSkipped(sendOk, recv, i + 1);
        assert r == r';
        forall j | i <= j < r.broadcasts && (j < r.broadcasts - 1 || r.resolution.Unanswered?)
          ensures Skips(sendOk, recv, j)
        {
          if j > i {
            assert i + 1 <= j < r'.broadcasts && (j < r'.broadcasts - 1 || r'.resolution.Unanswered?);
          }
        }
      } else {
        assert r == DiscoveryRun(round.resolution, i + 1);
      }
    }
  }

  /** If no round fails and none brings the token, exactly `Retries` broadcasts are sent and
      no peer is resolved. */
  lemma NoAckMeansAllRetries(sendOk: nat -> bool, recv: nat -> RecvResult)
    requires forall j :: 0 <= j < Retries ==> Skips(sendOk, recv, j)
    ensures DiscoverAll(sendOk, recv) == DiscoveryRun(Unanswered, Retries)
  {
    forall j | 0 <= j < Retries ensures RoundAt(sendOk, recv, j) == Continue {
      ContinueIffSkips(sendOk, recv, j);
    }
    NoStopExhausts(sendOk, recv, 0);
  }

  /** If the first `k` rounds are skipped and round `k` receives the token, the loop stops after
      exactly `k + 1` broadcasts and resolves the sender of that datagram. */
  lemma FirstAckResolves(sendOk: nat -> bool, recv: nat -> RecvResult, k: nat, src: SocketAddr)
    requires k < Retries
    requires forall j :: 0 <= j < k ==> Skips(sendOk, recv, j)
    requires sendOk(k) && recv(k) == Received(InitResponse, src)
    ensures DiscoverAll(sendOk, recv) == DiscoveryRun(Resolved(src), k + 1)
  {
    forall j | 0 <= j < k ensures RoundAt(sendOk, recv, j) == Continue {
      ContinueIffSkips(sendOk, recv, j);
    }
    Protocol.InitResponseIsValidText();
    FirstStopDecides(sendOk, recv, 0, k);
  }

  /** A failed send, a failed receive or undecodable bytes in round `k` (after `k` skipped
      rounds) end discovery right there: `k + 1` sends, none after it, and no peer. */
  lemma FatalRoundAborts(sendOk: nat -> bool, recv: nat -> RecvResult, k: nat)
    requires k < Retries
    requires forall j :: 0 <= j < k ==> Skips(sendOk, recv, j)
    requires !sendOk(k) || recv(k).RecvError? || !Utf8.IsValid(recv(k).payload)
    ensures DiscoverAll(sendOk, recv).broadcasts == k + 1
    ensures DiscoverAll(sendOk, recv).resolution ==
      Failed(if !sendOk(k) then SendFailed else if recv(k).RecvError? then RecvFailed else DecodeFailed)
  {
    forall j | 0 <= j < k ensures RoundAt(sendOk, recv, j) == Continue {
      ContinueIffSkips(sendOk, recv, j);
    }
    FirstStopDecides(sendOk, recv, 0, k);
  }

  /** A resolved peer is the source of a datagram that carried exactly the token, received in
      the last round made, and every earlier round was skipped. */
  lemma ResolvedMeansAck(sendOk: nat -> bool, recv: nat -> RecvResult)
    ensures var r := DiscoverAll(sendOk, recv);
      r.resolution.Resolved? ==>
        sendOk(r.broadcasts - 1) &&
        recv(r.broadcasts - 1) == Received(InitResponse, r.resolution.peer) &&
        forall j :: 0 <= j < r.broadcasts - 1 ==> Skips(sendOk, recv, j)
  {
    EarlierRoundsSkipped(sendOk, recv, 0);
  }

  /** Retries run out only when every one of the `Retries` rounds was skipped. */
  lemma UnansweredMeansAllSkipped(sendOk: nat -> bool, recv: nat -> RecvResult)
    ensures var r := DiscoverAll(sendOk, recv);
      r.resolution.Unanswered? <==> (forall j :: 0 <= j < Retries ==> Skips(sendOk, recv, j))
  {
    EarlierRoundsSkipped(sendOk, recv, 0);
    if forall j :: 0 <= j < Retries ==> Skips(sendOk, recv, j) {
      NoAckMeansAllRetries(sendOk, recv);
    }
  }

  /** Text that is not the token is skipped, not an error: the empty payload, a proper prefix
      of the token, and the token followed by more valid text. */
  lemma NearMissesAreSkipped(sendOk: nat -> bool, recv: nat -> RecvResult, i: nat, extra: seq<byte>)
    requires sendOk(i) && recv(i).Received?
    requires var p := recv(i).payload;
      p == [] || p < InitResponse || (p == InitResponse + extra && extra != [] && Utf8.IsValid(extra))
    ensures Skips(sendOk, recv, i)
  {
    var p := recv(i).payload;
    if p < InitResponse {
      Protocol.InitResponseIsAscii();
      Utf8.PrefixOfAsciiIsValid(InitResponse, p);
      assert |p| != |InitResponse|;
    } else if p != [] {
      Protocol.InitResponseIsValidText();
      Utf8.ConcatIsValid(InitResponse, extra);
      assert |p| != |InitResponse|;
    }
  }
}
