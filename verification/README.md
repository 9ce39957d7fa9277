# XLink Kai bridge core in Dafny

This project models the two parts of the bridge that hold its real logic:

- **The frame codec** (`Includes/NetConversionFunctions.h`). These are pure functions over byte buffers:
  - channel-to-frequency conversion for the 2.4 GHz band;
  - the MAC byte swap and the MAC text form;
  - the radiotap header written in front of injected frames;
  - the ad-hoc IEEE 802.11 data header (the ToDS=0/FromDS=0 layout of section 9.3.2.1 of IEEE 802.11-2016);
  - the Ack frame of section 9.3.1.4 of IEEE 802.11-2016;
  - the diagnostic hex dump.
- **The XLink Kai session** (`Sources/XLinkKaiConnection.cpp`). This is a UDP connection with a handshake flag pair (`connectInitiated`, `connected`), a keepalive reply, the "e;" / "e;e;" data check and a handshake timeout.

Buffers are `seq<byte>` with `byte = 0..255`. A `uint64_t` is a `nat` below 2^64. The host is little-endian, so copying the first k octets of an integer copies `ToLe(x, 8)[..k]`. Every `memcpy` into a buffer is "the buffer with one slice replaced" (`Bytes.Write`). The bitwise operators are defined bit by bit on naturals (`Bits`). Stream formatting with `std::hex`, `setfill('0')` and `setw` is `Hex.HexPad`.

Some constants live in headers that are not part of this model: the radiotap sizes and flag words, the 802.11 frame-control values, the struct sizes, and the XLink Kai protocol strings and timeout. These are parameters:
- `RadioTap.Constants` is constrained by `RadioTap.ValidConstants`.
- `XLinkSession.Protocol` is constrained by `XLinkSession.ValidProtocol`. It requires:
  - each tag is its format followed by the one-character separator, and the separator is not in the format;
  - the acknowledgement string starts with its tag ("connected;"), and "e;e;" starts with its tag "e;";
  - the acknowledgement and data strings carry no NUL, and the acknowledgement is shorter than `npos`;
  - the two tags differ;
  - the keepalive command is non-empty and differs from the "e;" tag, the acknowledgement, and the connect and disconnect requests;
  - the connect and disconnect requests differ.

Besides `ValidConstants`, the model fixes these layouts and lengths, which also come from headers outside it:
- `RadioTapHeader` is version and pad octets, then the 16-bit `bytes_in_header` at offset 2 and the 32-bit `present_flags` at offset 4. Any further octets of the struct are zero.
- `PhysicalDeviceParameters` has a one-octet `mFlags`, `mDataRate`, `mKnownMCSInfo`, `mMCSFlags` and `mMCSInfo`, and a 16-bit `mFrequency` and `mChannelFlags`. So the optional block is 8 octets, plus 3 with MCS.
- `ieee80211_hdr` has frame control at offset 0, duration at 2, and addresses 1, 2 and 3 at 4, 10 and 16. Any further octets are zero.
- `AcknowledgementHeader` has frame control at 0, duration at 2 and the receiver address at 4. Any further octets are zero.
- `cDestinationAddressLength`, `cSourceAddressLength` and `cBSSIDLength` are 6. This sets the six groups of `IntToMac` and the six octets each address copy takes.

The session is an immutable `Session` record, and every member is a pure transition. The operating system's answers are inputs:
- whether the socket opened (`granted`);
- whether a datagram went out (`delivered`);
- the clock (`now`).

Every datagram sent is logged in `sent`. The timeout check inside the receiver loop is `XLinkSession.Tick(now)`. The loop's `poll()` is the receive path, `XLinkSession.ReceiveCallback`. `XLinkTraces` runs any sequence of calls and proves what holds along every run. `IsDisconnected` is `!connected && !connectInitiated`.

Where the code and a natural reading differ, the model follows the code:
- **MAC text round trip.** `MacToInt(IntToMac(m))` is not `m`. It is `SwapMacEndian(m)`, because the text lists the least significant octet first but is parsed most significant first. `Mac.MacTextRoundTrip`, `Mac.MacTextRoundTripSwapped` and `Mac.MacTextNotIdentity` state this.
- **BSSID.** The data header swaps only the BSSID. The source and destination are copied in host order.
- **`Close` keeps the flags.** `Close` does not clear the handshake flags, so a connected session is still "connected" after `Close` (`XLinkSession.CloseKeepsHandshake`). This is recorded under "## Findings". The traces keep the code's `Close`, and the corrected `XLinkSession.CloseDisconnected` stands beside it.
- **Pending sessions are refused too.** `Send` refuses every message other than connect and disconnect whenever `connected` is false, including while a connect is pending.
- **Unsolicited acknowledgement.** The handshake accepts an acknowledgement even when no connect was sent (`XLinkTraces.UnsolicitedAcknowledgement`).
- **Ethernet data is only logged.** A recognised Ethernet data datagram is classified (`EthernetData(payload)`) but only logged. Nothing in this file hands it on.
- **The timeout needs the receiver loop.** The timeout fires only while the receiver loop runs. After a timeout the thread handle stays set and the io service stays stopped, so no later call restarts the loop until `Close`.

## Model

| member | source | states |
|---|---|---|
| `Channel.ConvertChannelToFrequency` | Includes/NetConversionFunctions.h:63-73 | a frequency (not -1) comes back exactly for channels 1..13; it lies in 2412..2472, is 2 modulo 5, and (f - 2407) / 5 gives the channel back |
| `Channel.FrequencyInjective` | Includes/NetConversionFunctions.h:63-73 | two supported channels with the same frequency are the same channel |
| `Packet.GetRawData` | Includes/NetConversionFunctions.h:79-82 | the value read fits the type's width and its little-endian octets are exactly the octets at the index |
| `Packet.GetRawString` | Includes/NetConversionFunctions.h:87-91 | the copy has the requested length and character i is the packet's character at index + i |
| `Packet.RawDataOfWrite` | Includes/NetConversionFunctions.h:79-82 | reading an integer where its octets were just copied gives the integer back |
| `Mac.ByteSwap64` | Includes/NetConversionFunctions.h:101 | `bswap_64` reverses the eight octets |
| `Mac.SwapMacEndian` | Includes/NetConversionFunctions.h:98-103 | the result is below 2^48 and its six octets are the input's six low-order octets in reverse order |
| `Mac.SwapMacEndianInvolution` | Includes/NetConversionFunctions.h:98-103 | swapping twice gives back every value below 2^48 |
| `Frames.InsertIEEE80211Header` | Includes/NetConversionFunctions.h:114-143 | the packet keeps its length and only the octets [index, index + sizeof(ieee80211_hdr)) change |
| `Frames.Ieee80211HeaderLayout` | Includes/NetConversionFunctions.h:117-140 | frame control is the data type, duration 0xffff, address 1 the destination's and address 2 the source's six low-order octets unswapped, address 3 the BSSID's reversed, reading as `SwapMacEndian(bssid)` |
| `Frames.Ieee80211HeaderFields` | Includes/NetConversionFunctions.h:114-143 | the same fields read back from the packet at the insertion index |
| `RadioTap.PresentFlags` | Includes/NetConversionFunctions.h:161-169 | the word fits 32 bits; with MCS bit 2 is cleared and bit 19 set; every other bit is `cSendPresentFlags`'s |
| `RadioTap.HeaderLength` | Includes/NetConversionFunctions.h:162-172 | `cRadioTapSize`, plus 3 exactly when MCS information is known |
| `RadioTap.FlagsField` | Includes/NetConversionFunctions.h:177-180 | bit k of the flags octet is set exactly when k is not the FCS bit (4) and bit k of `mFlags` is set |
| `RadioTap.InsertRadioTapHeader` | Includes/NetConversionFunctions.h:152-218 | the packet keeps its length; the returned size is `cRadioTapSize` (+3 with MCS); octets past the written fields are untouched; with MCS the rate slot is skipped, not written |
| `RadioTap.GeneralHeaderReadBack` | Includes/NetConversionFunctions.h:157-174 | the general header starts with two zero octets, then the header length and the present flags at offsets 2 and 4 |
| `RadioTap.OptionalFieldsReadBack` | Includes/NetConversionFunctions.h:176-215 | the optional block holds flags, rate (or the old octet with MCS), frequency, channel flags, TX flags, then the three MCS octets |
| `RadioTap.RadioTapHeaderReadBack` | Includes/NetConversionFunctions.h:152-218 | every field the function writes reads back at its fixed offset as the value it was given, whether or not MCS is present |
| `Hex.OctetDigits` | Includes/NetConversionFunctions.h:231 | `setw(2)` of an octet prints exactly its two lower-case nibbles, high nibble first |
| `Mac.MacGroupsLayout` | Includes/NetConversionFunctions.h:229-235 | group k of the text is the k-th low-order octet in two hex digits at characters 3k, 3k+1, followed by ':' for every group but the last |
| `Mac.IntToMac` | Includes/NetConversionFunctions.h:225-238 | 17 characters: six two-digit groups, least significant octet first, joined by ':' |
| `Mac.MacToInt` | Includes/NetConversionFunctions.h:246-261 | the empty text, and any text without a hex digit, gives 0 |
| `Mac.ReadMacGroups` | Includes/NetConversionFunctions.h:253-257 | the extraction loop over the printed groups shifts in their octets in text order |
| `Mac.ReadAnyGroup` | Includes/NetConversionFunctions.h:254-256 | one extraction step over any two hex digits of either case followed by ':' shifts in their octet and skips the ':' |
| `Mac.ReadJoinedGroups` | Includes/NetConversionFunctions.h:250-258 | the extraction loop over any groups of two hex digits joined by ':' shifts in their octets in text order |
| `Mac.MacTextParse` | Includes/NetConversionFunctions.h:240-261 | any "xx:xx:xx:xx:xx:xx" text, upper or lower case, converts to the 48-bit value of its six octets, the first group most significant |
| `Mac.AccumulateFromZero` | Includes/NetConversionFunctions.h:255 | shifting octets into zero without overflow reads them most significant first |
| `Mac.MacTextRoundTrip` | Includes/NetConversionFunctions.h:225-261 | parsing the text of m gives `SwapMacEndian(m)` |
| `Mac.MacTextRoundTripSwapped` | Includes/NetConversionFunctions.h:225-261 | printing the swapped value and parsing it back gives every 48-bit address back |
| `Mac.MacTextNotIdentity` | Includes/NetConversionFunctions.h:225-261 | every address whose six octets are not a palindrome comes back changed from the text form |
| `Frames.AcknowledgementHeaderFields` | Includes/NetConversionFunctions.h:294-302 | the Ack header holds `cAcknowledgementType`, duration 0xffff and the receiver's six octets reversed |
| `Frames.ConstructAcknowledgementFrame` | Includes/NetConversionFunctions.h:269-308 | the frame is `cRadioTapSize + sizeof(AcknowledgementHeader)` long, with or without MCS, and the Ack header fills everything from `cRadioTapSize`; without MCS the prefix is the inserted radiotap header |
| `Frames.AcknowledgementFrameLengthMismatch` | Includes/NetConversionFunctions.h:280-304 | with MCS the radiotap length field reads `cRadioTapSize + 3` while the Ack header starts at `cRadioTapSize` |
| `Frames.ConstructAcknowledgementFrameSized` | Includes/NetConversionFunctions.h:269-308 | the corrected frame: the Ack header starts where the announced radiotap length ends and the whole radiotap header is intact |
| `HexDump.PrettyHexString` | Includes/NetConversionFunctions.h:315-337 | the dump starts with a newline and "000000 " |
| `HexDump.PrettyHexStringLines` | Includes/NetConversionFunctions.h:324-331 | the dump of n octets holds one newline per started 64 octets (one when empty) |
| `HexDump.PrettyHexStringLayout` | Includes/NetConversionFunctions.h:324-334 | octet i is two hex digits at a fixed position, preceded by a space, or at a multiple of 64 by a newline, its offset in six digits and a space; the dump ends after the last octet |
| `HexDump.SixtyFiveOctets` | Includes/NetConversionFunctions.h:315-337 | 65 octets print as two lines, the second opening with "000040 " |
| `Text.CString` | Sources/XLinkKaiConnection.cpp:84 | the string is a prefix of the buffer without NUL, ending at the first NUL if there is one |
| `Text.Find` | Sources/XLinkKaiConnection.cpp:85 | `npos` exactly when the character is absent, otherwise the index of its first occurrence |
| `XLinkSession.Open` | Sources/XLinkKaiConnection.cpp:13-28 | succeeds exactly when the socket was closed and the system opens it; only the socket state changes |
| `XLinkSession.Send` | Sources/XLinkKaiConnection.cpp:45-70 | succeeds exactly on an open socket, when connected or the message is connect or disconnect, and the datagram goes out; then the message is appended to the log, otherwise nothing changes |
| `XLinkSession.Connect` | Sources/XLinkKaiConnection.cpp:30-43 | only when the connect request went out is a connect pending, with the timer started at `now`; otherwise nothing changes |
| `XLinkSession.HandleKeepAlive` | Sources/XLinkKaiConnection.cpp:72-80 | the keepalive reply goes out exactly on an open, confirmed session whose datagram is delivered |
| `XLinkSession.StartReceiverThread` | Sources/XLinkKaiConnection.cpp:115-151 | fails exactly on a closed socket; the first call creates the receiver loop with a restarted io service, later calls change nothing |
| `XLinkSession.CommandTag` | Sources/XLinkKaiConnection.cpp:84-86 | the tag is a prefix of the datagram that ends at its first separator; without a separator it is empty (`npos + 1` wraps to 0) |
| `XLinkSession.TagIs` | Sources/XLinkKaiConnection.cpp:85-86 | the tag equals a format plus the separator exactly when the datagram starts with them |
| `XLinkSession.Dispatch` | Sources/XLinkKaiConnection.cpp:98-110 | the keepalive and data branches change nothing but the log, and only a keepalive reply is ever appended |
| `XLinkSession.ReceiveCallback` | Sources/XLinkKaiConnection.cpp:82-113 | a received datagram sends at most the keepalive reply and never touches the timer or the socket |
| `XLinkSession.ReceiveHandshake` | Sources/XLinkKaiConnection.cpp:88-95 | an unconfirmed session becomes connected and stops pending exactly when the datagram starts with the acknowledgement string; all else leaves both flags |
| `XLinkSession.ReceiveKeepAlive` | Sources/XLinkKaiConnection.cpp:98-99 | a keepalive is recognised exactly on a confirmed session whose tag is the keepalive command, and only then is a reply sent |
| `XLinkSession.ReceiveEthernetData` | Sources/XLinkKaiConnection.cpp:100-110 | data exactly when the datagram starts with "e;e;", with the rest as payload; unknown exactly when it starts with "e;" but not "e;e;" |
| `XLinkSession.ReceiveWithoutSeparator` | Sources/XLinkKaiConnection.cpp:84-86 | a datagram without separator is no command, changes no flag and sends nothing |
| `XLinkSession.Tick` | Sources/XLinkKaiConnection.cpp:129-137 | while the loop runs and a pending connect is past its deadline, the check leaves the session disconnected, the socket closed and the io service stopped, with the log, timer and thread handle kept; in every other state it changes nothing |
| `XLinkSession.IsDisconnected` | Sources/XLinkKaiConnection.cpp:181-184 | true exactly when the handshake flags are those of a new connection (`Init`), whatever the socket, loop, timer and log |
| `XLinkSession.TimeoutDisconnects` | Sources/XLinkKaiConnection.cpp:129-137 | while the receiver loop runs, a check up to and including a pending connect's deadline changes nothing; a later one leaves the session disconnected with the socket closed, and no check after that changes it again |
| `XLinkSession.Close` | Sources/XLinkKaiConnection.cpp:153-179 | the socket ends closed and the loop gone; the disconnect request is the one datagram added, exactly when the session is connected or pending on an open socket and the datagram goes out; the io service is stopped if a loop ran; the flags stay |
| `XLinkSession.CloseIdempotent` | Sources/XLinkKaiConnection.cpp:153-179 | a second `Close` changes nothing and sends nothing |
| `XLinkSession.CloseKeepsHandshake` | Sources/XLinkKaiConnection.cpp:153-184 | closing a connected or pending session sends the disconnect request last, yet `IsDisconnected` stays false |
| `XLinkSession.ReopenSkipsHandshake` | Sources/XLinkKaiConnection.cpp:13-179 | a session closed while connected and then reopened sends any message without a handshake; with the receiver loop restarted, a new pending connect is never dropped by the timeout check |
| `XLinkSession.CloseDisconnected` | Sources/XLinkKaiConnection.cpp:153-184 | the corrected `Close`: the same datagrams, closed socket and stopped loop, and the session ends disconnected |
| `XLinkSession.ReopenNeedsHandshake` | Sources/XLinkKaiConnection.cpp:13-184 | after the corrected `Close`, a reopened session is disconnected and refuses every message but connect and disconnect; with the loop restarted, an unanswered new connect is dropped by the first check past its deadline |
| `XLinkTraces.SentGrows` | Sources/XLinkKaiConnection.cpp:45-70 | along any run the datagrams already sent stay a prefix of the log |
| `XLinkTraces.RunKeepsPendingWasSent` | Sources/XLinkKaiConnection.cpp:30-43 | along any run a pending connect always has its connect request in the log |
| `XLinkTraces.NothingBeforeAcknowledgement` | Sources/XLinkKaiConnection.cpp:49-64 | until a datagram starting with the acknowledgement arrives, only connect and disconnect requests are ever sent |
| `XLinkTraces.HandshakeScenario` | Sources/XLinkKaiConnection.cpp:13-179 | open, start the receiver loop, connect (pending), acknowledgement (connected), close: the log is connect then disconnect, the socket is closed, and the flags still say connected |
| `XLinkTraces.UnsolicitedAcknowledgement` | Sources/XLinkKaiConnection.cpp:88-95 | an acknowledgement connects a session that has opened and started receiving but never sent a connect request |
| `XLinkTraces.RunKeepsAwaiting` | Sources/XLinkKaiConnection.cpp:45-113 | sends, keepalive replies, restarts of the loop, datagrams other than the acknowledgement and timeout checks up to the deadline leave a pending connect pending, its timer and the running loop as they were |
| `XLinkTraces.UnansweredConnectTimesOut` | Sources/XLinkKaiConnection.cpp:30-137 | once the loop runs and a connect went out at t0, any such calls followed by a check after t0 + timeout end disconnected with the socket closed |
| `XLinkTraces.TimeoutScenario` | Sources/XLinkKaiConnection.cpp:115-151 | with the loop running, a connect left unanswered is dropped by the first tick past the deadline and not before |

## Left out

- `GetAdapterMACAddress` and `GetNetworks` (Includes/NetConversionFunctions.h:339-494) are left out. They call the operating system's adapter and WLAN interfaces.
- Mac.MacToInt: a leading sign or "0x" prefix, both of which `operator>>` in hex mode accepts, is not read as the stream reads it. A sign is not a hex digit, so the model's loop stops there. On "0x" the model reads the "0" as a group worth 0 and skips the "x" as the separator, then carries on. So "0x12:0x34" gives 0x120034 in the model, where the stream gives 0x1234.
- Packet.GetRawData: only unsigned integer types are modelled, as a little-endian decode. The unaligned `reinterpret_cast` itself is not.
- HexDump.PrettyHexStringLayout: positions are stated only for buffers of up to 2^24 octets, where every offset prints in six digits. The function itself covers any length.
- `PrettyHexString`'s 32-bit loop counter is not modelled. Buffers of 2^32 octets or more are out of scope.
- XLinkSession.Close returns the session only. Its `catch (...)`, which makes it return false when joining or closing throws, is not modelled. The destructor's call to `Close` is not modelled either.
- XLinkSession.Open: the remote endpoint is not modelled. That covers the IP address and port, and `ip::address::from_string`, which throws on a malformed address outside the `try`.
- XLinkSession.Send: a `send_to` that throws is modelled as `delivered == false` with nothing emitted. The bytes on the wire and the remote endpoint are not modelled.
- XLinkSession.ReceiveCallback: `aError` and `aBytesReceived` are ignored, as in the source. Nothing is modelled beyond the classification of the payload logged at TRACE level. The receive buffer is an input.
- The receiver thread, `async_receive_from`, the io service's `poll`, the 1 ms sleep and the thread join are concurrency plumbing. Only the timeout check of the loop body (`XLinkSession.Tick`) and the flags they leave behind are modelled.
- The logger, the `boost::asio` socket and the clock are foreign I/O. They appear only as the inputs `granted`, `delivered` and `now`.
- The protocol strings, the timeout and the radiotap and 802.11 constants are abstract. Their headers are not part of this model. What is assumed of them is the properties in `ValidProtocol` and `ValidConstants`, plus the struct layouts and address lengths listed at the top of this file.
- `Includes/IPCapWrapper.h` is not part of this model. It is an interface over libpcap with no behaviour of its own.
- The terminal user interface is not part of this model (the `UserInterface` sources and headers).

## Findings

| source | as written | input that shows it | evidently intended | confidence | as-written member | corrected member |
|---|---|---|---|---|---|---|
| Sources/XLinkKaiConnection.cpp:153-179 | `Close` sends the disconnect request and closes the socket but leaves `mConnected` and `mConnectInitiated` set, so `IsDisconnected` (181-184) stays false | `Close` on a connected session, then `Open` and `Send` of any message | `Close` ends with both flags cleared, so the next `Open` starts a fresh handshake | not executed; medium | `XLinkSession.ReopenSkipsHandshake` | `XLinkSession.CloseDisconnected` |
| Includes/NetConversionFunctions.h:280-304 | the frame buffer is sized, and the Ack header placed, at `cRadioTapSize`, although with MCS information the radiotap header announces `cRadioTapSize + 3` octets (line 172) and writes its MCS block there | any parameters with `mKnownMCSInfo != 0` | place the Ack header at the length `InsertRadioTapHeader` returns, and size the buffer by it | not executed; medium | `Frames.AcknowledgementFrameLengthMismatch` | `Frames.ConstructAcknowledgementFrameSized` |
