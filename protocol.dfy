/** The fixed parameters of the GBA net-boot protocol as `main` uses them, the addresses it
    deals in, and the failures it reports. */
module Protocol {
  import opened Bytes
  import Utf8

  /** Number of broadcast/receive rounds before giving up (`RETRIES`). */
  const Retries: nat := 10

  /** Size of the receive buffer `udp_buf` and of the copy buffer `tcp_buf`. */
  const UdpBufferSize: nat := 0x1000
  const TcpBufferSize: nat := 4096

  newtype Port = p: int | 0 <= p < 0x1_0000

  /** The one port used for the UDP broadcast, the UDP bind and the TCP connection (`PORT`). */
  const NetPort: Port := 31313

  datatype Ipv4Addr = Ipv4Addr(a: byte, b: byte, c: byte, d: byte)

  /** The socket is bound to an IPv4 address, so every peer address is an IPv4 one. */
  datatype SocketAddr = SocketAddr(ip: Ipv4Addr, port: Port)

  /** `SocketAddrV4::new(Ipv4Addr::BROADCAST, PORT)`: where each request is sent. */
  const BroadcastTarget: SocketAddr := SocketAddr(Ipv4Addr(255, 255, 255, 255), NetPort)

  /** `INIT_REQUEST` and `INIT_RESPONSE` as written in the program. */
  const InitRequestText: string := "gba_net_boot_init_beta_0001"
  const InitResponseText: string := "gba_net_boot_ack_beta_0001"

  /** The same two tokens as the bytes that travel in the datagrams. */
  const InitRequest: seq<byte> :=
    [0x67, 0x62, 0x61, 0x5f, 0x6e, 0x65, 0x74, 0x5f, 0x62, 0x6f, 0x6f, 0x74, 0x5f,
     0x69, 0x6e, 0x69, 0x74, 0x5f, 0x62, 0x65, 0x74, 0x61, 0x5f, 0x30, 0x30, 0x30, 0x31]
  const InitResponse: seq<byte> :=
    [0x67, 0x62, 0x61, 0x5f, 0x6e, 0x65, 0x74, 0x5f, 0x62, 0x6f, 0x6f, 0x74, 0x5f,
     0x61, 0x63, 0x6b, 0x5f, 0x62, 0x65, 0x74, 0x61, 0x5f, 0x30, 0x30, 0x30, 0x31]

  /** Every way a run can stop early (all fatal except running out of retries, which is
      reported separately). */
  datatype Failure =
    | BindFailed
    | BroadcastSetupFailed
    | SendFailed
    | RecvFailed
    | DecodeFailed
    | OpenFailed
    | ConnectFailed
    | ReadFailed
    | WriteFailed

  lemma TextFacts()
    ensures |InitRequestText| == |InitRequest| == 27 && |InitResponseText| == |InitResponse| == 26
    ensures forall i :: 0 <= i < |InitRequestText| ==>
      InitRequestText[i] as int < 0x80 && InitRequest[i] as int == InitRequestText[i] as int
    ensures forall i :: 0 <= i < |InitResponseText| ==>
      InitResponseText[i] as int < 0x80 && InitResponse[i] as int == InitResponseText[i] as int
  {
  }

  /** The byte constants are exactly what `as_bytes` yields for the two string literals. */
  lemma TokensAreTheLiterals()
    ensures Utf8.Encode(InitRequestText) == InitRequest
    ensures Utf8.Encode(InitResponseText) == InitResponse
  {
    TextFacts();
    Utf8.EncodeAscii(InitRequestText, InitRequest);
    Utf8.EncodeAscii(InitResponseText, InitResponse);
  }

  /** The acknowledgment token passes the `String::from_utf8` check, so a peer that sends
      it is never turned away as undecodable; and it fits the receive buffer. */
  lemma InitResponseIsValidText()
    ensures Utf8.IsValid(InitResponse)
    ensures 0 < |InitResponse| <= UdpBufferSize
  {
    TokensAreTheLiterals();
    Utf8.EncodeIsValid(InitResponseText);
  }

  lemma InitResponseIsAscii()
    ensures Utf8.IsAscii(InitResponse)
  {
    TextFacts();
  }
}
