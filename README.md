# gba-net-send, modelled in Dafny

gba-net-send is a one-shot sender for the GBA net-boot loader. Its `main` binds a UDP socket
on port 31313, broadcasts the request token `gba_net_boot_init_beta_0001` up to ten times, and
waits after each broadcast for one datagram. The first datagram whose text is exactly
`gba_net_boot_ack_beta_0001` names the peer. `main` then opens the ROM file, connects over TCP
to the peer's IP on port 31313, and copies the file through a fixed 4096-byte buffer until a
read returns 0 bytes. Any I/O error, and any datagram that is not valid UTF-8, ends the run at
once. If ten rounds pass without the token, the run ends with "no peer".

The model keeps the program's control logic and makes every call into the operating system an
input:

- `Bytes` holds the `u8` type, the zero-filled buffers, and `FillPrefix`. `FillPrefix` is the
  in-place effect of `recv_from` and `read` on a buffer: they overwrite the first `n` bytes and
  leave the rest.
- `Utf8` holds the UTF-8 encoding of strings, which is what `as_bytes` yields. It also holds the
  well-formedness check of section 4 of RFC 3629, which is what `String::from_utf8` accepts.
- `Protocol` holds the constants (`RETRIES`, `PORT`, the two tokens, the buffer sizes), IPv4
  socket addresses and the failure kinds.
- `Discovery` holds the retry loop. `Discover` is a method with a `for` loop, a fresh zeroed
  `udp_buf` array in every round, `break` on the token and early `return` on errors. It is
  proved equal to the function `DiscoverAll`, and the lemmas state what that function decides.
- `Transfer` holds the copy loop. `CopyLoop` is a method with a `while` loop over one
  `tcp_buf` array that each read overwrites in place. It writes the whole buffer after every
  non-empty read and adds up what `write` returns. It is proved equal to the function `CopyAll`.
  The lemmas state which bytes each write carries, including the stale tail of a short read.
- `Send` holds the whole run: `SendRom` composes bind, broadcast setup, discovery, file open,
  connect and the copy loop. It is proved equal to `RunOf`, which gives the reported outcome
  and the calls made, in order: broadcasts, file open, connect, writes and progress lines.

Inputs stand for the outside world:
- `sendOk(i)` and `recv(i)` answer the `send_to` and `recv_from` of round `i`.
- `file` lists what the successive reads return. Past its end a read returns 0.
- `stream(k)` answers write number `k`.
- The bind, `set_broadcast`, `File::open` and `TcpStream::connect` each succeed or fail as a
  boolean.

In these details, which are easy to misread, the model follows the code:
- The TCP target is the responder's IP with the fixed port 31313, not the source port of its
  reply (src/main.rs:112).
- Each progress line prints the count before its own write is added (src/main.rs:151-153).
- A short final read still sends the full 4096-byte buffer, stale bytes included
  (src/main.rs:143).
- The count returned by `write` is added up but never compared with the buffer size, so a
  partial write is not retried (src/main.rs:143-153).

## Model

| member | source | states |
|---|---|---|
| `Bytes.Zeros` | src/main.rs:125 | the buffer `[0; n]` holds `n` zero bytes |
| `Bytes.Overlay` | src/main.rs:129 | after a fill of `data`, the buffer starts with `data` and keeps its old bytes from position `|data|` on, at the same length |
| `Bytes.FillPrefix` | src/main.rs:129 | the in-place fill of an array: its new content is `Overlay` of its old content with the bytes read |
| `Utf8.EncodeChar` | src/main.rs:55 | one character encodes to 1 to 4 bytes, and to one byte of the same value exactly when it is ASCII |
| `Utf8.SequenceLength` | src/main.rs:77 | the leading well-formed sequence is at most 4 bytes long, fits the input, and has length 1 exactly for an ASCII lead byte |
| `Utf8.EncodeIsValid` | src/main.rs:77-84 | every UTF-8 encoded string passes the validity check that `String::from_utf8` applies |
| `Utf8.EncodeAscii` | src/main.rs:11-12 | an all-ASCII string encodes to the bytes with the same values |
| `Utf8.AsciiIsValid` | src/main.rs:77-84 | ASCII bytes are valid UTF-8 |
| `Utf8.PrefixOfAsciiIsValid` | src/main.rs:77-84 | every prefix of ASCII bytes is valid UTF-8 |
| `Utf8.ConcatIsValid` | src/main.rs:77-84 | valid UTF-8 followed by valid UTF-8 is valid UTF-8 |
| `Utf8.IsValid` | src/main.rs:77-84 | input that `String::from_utf8` accepts never starts with a stray continuation byte or with 0xC0, 0xC1 or 0xF5 to 0xFF |
| `Protocol.TokensAreTheLiterals` | src/main.rs:11-12 | the request and acknowledgment byte constants are the UTF-8 encoding of the two string literals |
| `Protocol.InitResponseIsValidText` | src/main.rs:12 | the acknowledgment token is valid UTF-8 and fits the 0x1000-byte receive buffer |
| `Protocol.InitResponseIsAscii` | src/main.rs:12 | the acknowledgment token is all ASCII |
| `Discovery.RoundAt` | src/main.rs:55-89 | a round stops with a send failure exactly when its send fails; it resolves only after a successful send and a datagram carrying exactly the token, to that datagram's source; it goes on only after a datagram that is not the token; no single round ends the loop unanswered |
| `Discovery.DiscoverAll` | src/main.rs:53-97 | at most `RETRIES` broadcasts; "no peer" only after all of them; any other result is the stopping result of the last round made |
| `Discovery.ReceiveInto` | src/main.rs:65-74 | `recv_from` into a fresh zeroed `udp_buf`, cut to `num_recvd_bytes`, yields exactly the datagram's payload |
| `Discovery.DiscoverFrom` | src/main.rs:54-90 | the loop sends between 1 and `RETRIES` broadcasts; it runs out of retries only after all of them; any other end is decided by the last round made |
| `Discovery.Discover` | src/main.rs:53-97 | the imperative loop, with a fresh zeroed `udp_buf` each round and only its first `num_recvd_bytes` bytes compared, resolves exactly as `DiscoverAll` does, with the same number of sends |
| `Discovery.FirstStopDecides` | src/main.rs:54-89 | if rounds before `k` continue and round `k` stops, the loop ends there with that round's result after `k + 1` sends |
| `Discovery.NoStopExhausts` | src/main.rs:54-90 | if no round stops, the loop ends unanswered after `RETRIES` sends |
| `Discovery.EarlierRoundsSkipped` | src/main.rs:54-89 | every round before the last one made was skipped, and so was the last one when the retries ran out |
| `Discovery.ContinueIffSkips` | src/main.rs:55-89 | a round goes on to the next exactly when its send and receive succeed and it gets valid text other than the token |
| `Discovery.NoAckMeansAllRetries` | src/main.rs:53-97 | with no failures and no token, exactly 10 broadcasts are sent and no peer is resolved |
| `Discovery.FirstAckResolves` | src/main.rs:54-89 | when the first token arrives in round `k`, exactly `k + 1` broadcasts are sent and the peer is that datagram's source address |
| `Discovery.FatalRoundAborts` | src/main.rs:55-84 | a send error, a receive error or invalid UTF-8 in round `k` ends discovery with that failure after `k + 1` sends |
| `Discovery.ResolvedMeansAck` | src/main.rs:85-88 | a resolved peer is the source of a datagram that carried exactly the token, after only skipped rounds |
| `Discovery.UnansweredMeansAllSkipped` | src/main.rs:91-96 | "no peer" happens if and only if all 10 rounds were skipped |
| `Discovery.NearMissesAreSkipped` | src/main.rs:75-89 | an empty payload, a proper prefix of the token, or the token followed by more valid text is skipped, not an error |
| `Transfer.CopyFrom` | src/main.rs:127-154 | every buffer handed to `write` is 4096 bytes long; at most one write is not followed by a progress line; the count never decreases |
| `Transfer.CopyAll` | src/main.rs:124-155 | every write is a full 4096-byte buffer; no more writes than data-bearing reads before the first empty one; a write failure is exactly the case of one write without a progress line; otherwise the ending is the one the read after the last write gives |
| `Transfer.CopyLoop` | src/main.rs:124-155 | the imperative loop over the in-place `tcp_buf` makes exactly the writes, progress lines, final count and ending given by `CopyAll` |
| `Transfer.CopyStep` | src/main.rs:129-153 | one successful read-and-write round moves one write and one progress line from the rest of the loop to what is done |
| `Transfer.EndOfData` | src/main.rs:138-141 | the loop's stopping read is the first one from `k` on that brings no data; every read before it brings data |
| `Transfer.CopyShape` | src/main.rs:127-154 | one write per data-bearing read, stopping at the first read that brings none unless a write fails first; the ending is a read error, a write error or completion accordingly; the count is the sum of the successful writes |
| `Transfer.ProgressAt` | src/main.rs:151-153 | progress line `j` follows a successful write `j` and shows the count from before that write |
| `Transfer.WrittenBufferAt` | src/main.rs:125-143 | write `j` carries the bytes of read `j` in front and the buffer's previous bytes behind them |
| `Transfer.OneWritePerDataRead` | src/main.rs:127-150 | when writes succeed, writes and progress lines equal the data-bearing reads before the first 0-byte read, and the count is their sum |
| `Transfer.TotalIsSumOfWrites` | src/main.rs:126-155 | the final count is the sum of the write return values, and each progress line shows the sum before its own write |
| `Transfer.StaleBytesAreSent` | src/main.rs:125-143 | a read of `n` bytes sets only the first `n` bytes of the written buffer; the other `4096 - n` are those of the previous write, or zeros before the first |
| `Transfer.EmptyFileSendsNothing` | src/main.rs:126-141 | an empty file gives no write, no progress line and a count of 0 |
| `Transfer.OneFullChunk` | src/main.rs:127-155 | a file of exactly 4096 bytes gives one write of the file and a count of 4096 |
| `Transfer.ShortFileIsZeroPadded` | src/main.rs:125-143 | a file shorter than the buffer is sent padded with zeros to 4096 bytes |
| `Transfer.ShortFinalChunkRepeatsStaleTail` | src/main.rs:125-143 | after a full buffer, a short final read sends its bytes followed by the tail of the previous buffer |
| `Transfer.RegularFileTransfer` | src/main.rs:124-155 | a file read in full buffers, with full writes, gives ceil(size / 4096) writes and a count of 4096 per write; the stream is the file followed by zeros up to 4096 bytes when the file fits one buffer, and otherwise by the bytes `f[|f|-4096 .. (ceil(|f|/4096)-1)*4096]` left over from the previous buffer |
| `Transfer.RegularFileFrom` | src/main.rs:127-154 | the same counts and the file as a prefix of the stream, for the loop resumed after earlier reads and from any buffer content |
| `Transfer.RegularFileBytes` | src/main.rs:127-154 | from any buffer content, the bytes sent for a file read in full buffers are the file followed by the stale tail left in the buffer |
| `Transfer.StaleTailOfLongFile` | src/main.rs:129-143 | for a file longer than one buffer, the stale tail is the part of the second-to-last buffer that the short last read does not overwrite |
| `Send.Broadcasts` | src/main.rs:55 | every broadcast sends the request token to 255.255.255.255:31313 |
| `Send.CopyEffects` | src/main.rs:143-151 | the copy loop's calls alternate write and progress line, in order |
| `Send.TcpTarget` | src/main.rs:112 | the TCP target has the responder's IP and port 31313, so it differs from the reply's source address whenever that came from another port |
| `Send.RunOf` | src/main.rs:33-155 | a setup failure makes no call; every broadcast is the request token to 255.255.255.255:31313; broadcasts come before every other call; "no peer" runs make only broadcasts; the file is opened only when discovery resolved a peer |
| `Send.SendRom` | src/main.rs:33-155 | the run makes exactly the calls and reports exactly the outcome given by `RunOf` |
| `Send.Transmission` | src/main.rs:99-155 | after an acknowledgement the file is opened first, the connection to the peer's IP on port 31313 comes next, then only writes and progress lines; the outcome is never "no peer" |
| `Send.Transmit` | src/main.rs:99-155 | opening the file, connecting and running the copy loop make exactly the calls and outcome of `Transmission` |
| `Send.TransmitOneChunk` | src/main.rs:99-155 | with a one-buffer file and a full write the transmission is open, connect, one write of the file, progress 0, done with 4096 |
| `Send.SetupFailureSendsNothing` | src/main.rs:33-49 | a failed bind or `set_broadcast` ends the run with that failure before any datagram |
| `Send.NoAckNoTransfer` | src/main.rs:53-97 | with no token and no failures, the run is 10 broadcasts and "no peer": no file open, no connection |
| `Send.NoPeerIffAllSkipped` | src/main.rs:91-96 | "no peer" is reported if and only if setup worked and all rounds were skipped; the run then made only the 10 broadcasts |
| `Send.DiscoveryFailureStopsRun` | src/main.rs:55-84 | a discovery failure is reported as such after the broadcasts made; the file is never opened |
| `Send.OpenAndConnectFollowAck` | src/main.rs:91-122 | the file is opened only after a peer acknowledged, right after the last broadcast; the connection comes next and goes to the peer's IP on port 31313 |
| `Send.DoneReportsSumOfWrites` | src/main.rs:151-155 | a completed run reports the sum of what the writes returned |
| `Send.AckOnThirdBroadcast` | src/main.rs:53-155 | when the peer answers the third broadcast and the file is one buffer long, the run is: 3 broadcasts, open, connect to peer IP:31313, one write of the file, progress 0, done with 4096 |

## Left out

- Argument handling and the usage message (src/main.rs:14-30): the model starts at the UDP bind.
- Console output text: only the reported outcome and the count each progress line shows are kept.
- The 100 ms sleep between send and receive (src/main.rs:63): timing only.
- The operating system calls are inputs: `bind`, `set_broadcast`, `send_to`, `recv_from`,
  `File::open`, `TcpStream::connect`, `read` and `write`. Their own semantics are not modelled.
  This covers blocking, timeouts, datagram truncation, partial writes and what `read` may do to
  the buffer beyond the bytes it reports.
- Received datagrams and read chunks are at most 4096 bytes by their types, because these calls
  never report more than the buffer length.
- The `format!("{}:{}", ip, PORT)` string and its name resolution in `TcpStream::connect`: the
  model connects to the address that string denotes.
- Only IPv4 peers: the socket is bound to 0.0.0.0, so `recv_from` yields IPv4 addresses only.
- Only sources whose reads eventually return 0 bytes or fail: `file` is a finite list and past its
  end a read returns 0. On an endless source (such as `/dev/zero`, a FIFO that is never closed or
  a file that keeps growing) the program never stops (src/main.rs:127-154); `SendRom`, `RunOf`
  and `CopyAll` say nothing about that case.
- `total_bytes_written` is a `usize`; its wrap-around past 2^64 bytes is not modelled.
- Closing the socket, the file and the stream when `main` returns: there is no observable
  ordering to state.
