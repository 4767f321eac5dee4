# LAN file transfer: discovery handshake and one-file transfer, in Dafny

This project models the sequential logic of a small C tool that finds a peer on the
local network and sends it one file. It covers four source files:

- `v3/transfer.c`: `share` and `receive`. The sender reduces the path to its base name
  and fills a fixed metadata record (a 256-byte filename field, the size and the mode).
  It sends that record and then the file body. The receiver accepts the record only
  from a single `recv` of the exact record size, creates the named file and copies
  the body into it.
- `transferThing.c`: `sendFile` and `receiveFile`. These are the same protocol, except
  that the full path is sent and the header send's result is ignored. The model also
  covers how `getLocalIp` chooses an address, the passive flag of `setupAddrInfo`, and
  the role choice in `main`.
- `src/discovery.c`: `discoveryAdvertise` and `discoveryListen`.
- `v3/discovery.c`: `AdvertiseUDP` and `DiscoverUDP`.

The advertiser waits for a `DISCOVERY_P2P` datagram and answers `P2P_DEVICE:<ip>`. The
discoverer sends the request, waits once and keeps the reply's source address.

Every system call is an input. Each loop reads the kernel's answers from a sequence:
- the counts `sendfile`, `read` or `send` return,
- the chunks `recv` delivers,
- the datagrams `recvfrom` delivers.

The calls made before data moves (`open`, `fstat`, `getaddrinfo`, `socket`, `bind`,
`listen`, `accept`, `connect`, `setsockopt`) are booleans saying whether each one
succeeded. Each copy loop (sendfile, read/send, recv) is modelled twice:
- a recursive function over the answers, which is the specification;
- a method with the source's `while` loop, proved equal to that function.

The advertisers' wait loop is a method specified by predicates on the datagrams
(`FirstRequestAt`, `NoRequest`).

Lemmas state what the code promises about the function. A loop ends in one of three ways:
- `Done`: its own condition became false.
- `Failed`: it broke out on an error value.
- `OffScript`: the answers ran out, or one answer was a count the call cannot return.
  The model says nothing further about that run.

Buffers the C code fills in place are arrays:
- the 512 KiB copy buffer;
- the 512-character datagram buffer;
- the caller's 64-character address buffer;
- the 16-character `getLocalIp` buffer;
- the 128-character reply buffer.

A C string is the text before the first NUL (`CStrings.CStr`), so `strcmp(a, b) == 0`
is `CStr(a) == CStr(b)`. IPv4 text is written as `inet_ntoa`/`inet_ntop` write it
(`Inet.DottedQuad`). It is read back as the GNU C library's `inet_pton` reads it
(`Inet.Pton`): four decimal octets, no leading zeros, each at most 255.

Files:
- `io_script.dfy`: answers, outcomes, exit status.
- `cstrings.dfy`: strlen, strcmp, strncpy, snprintf.
- `inet.dfy`: addresses and their text.
- `file_header.dfy`: the metadata record.
- `body_copy.dfy`: the three copy loops, which are identical in both transfer files.
- `transfer_v3.dfy` and `transfer_thing.dfy`: the two transfer files.
- `discovery_wire.dfy`: what both discovery files share.
- `discovery_src.dfy` and `discovery_v3.dfy`: the two discovery files.

The model follows the code, including where it lacks behaviour a reader might expect:
- the receiver reads the header with one `recv` and does not loop on a short read;
- the filename is not sanitised;
- the size is not validated;
- a truncated body still gives return code 0.

## Model

| member | source | states |
|---|---|---|
| CStrings.CStrIs | src/discovery.c:79 | `strcmp(buffer, t) == 0` holds exactly when `t` is at the buffer's front, followed by a NUL or by the buffer's end |
| CStrings.CStrCut | src/discovery.c:75 | writing a NUL after the received bytes ends the C string there at the latest, whatever the buffer held after it |
| CStrings.StrNCopyField | v3/transfer.c:47-48 | strncpy into a zero-filled field of width w with n < w copies the first min(n, strlen) characters and leaves every other position, including the last, NUL |
| CStrings.StrNCopyReadBack | v3/transfer.c:48 | the copied field reads back as the first min(n, length) characters of the source's C string |
| CStrings.PutCString | transferThing.c:273 | writing a NUL-free text and its terminator into a larger buffer makes the buffer's C string that text and leaves the rest untouched |
| Inet.DottedQuad | src/discovery.c:178 | the text of an address is 7 to 15 characters with no NUL, so it fits a 16-byte buffer and the 63-character address field |
| Inet.PtonDottedQuad | src/discovery.c:154 | `Pton` (glibc's inet_pton4: four decimal octets, no leading zeros) reads the text inet_ntoa writes back as the same address |
| Inet.DottedQuadInjective | transferThing.c:274 | two addresses have the same text if and only if they are equal |
| Inet.IsLoopbackText | transferThing.c:274 | an address's text equals "127.0.0.1" if and only if the address is 127.0.0.1 |
| FileHeader.FillMetaData | v3/transfer.c:47-50 | the filename field is 256 characters; it holds the first min(255, strlen) characters of the name, NUL everywhere after them, and always a NUL in byte 255; size and mode are the fstat values unchanged |
| BodyCopy.SendfileLoop | v3/transfer.c:117-124 | the offset never decreases and never passes st_size; the loop ends normally exactly when the offset reaches st_size |
| BodyCopy.SendfileBody | v3/transfer.c:117-124 | the sendfile while loop (the same in transferThing.c:177-184) ends with the offset and outcome of SendfileLoop, and the bytes on the connection are the file's first `offset` bytes, in order |
| BodyCopy.SendfileDoneIff | v3/transfer.c:118-123 | the loop reaches the end of the file if and only if the answers begin with positive counts that add up to what was left to send |
| BodyCopy.SendChunk | v3/transfer.c:130-137 | the inner loop's progress stays between the amount already sent and the chunk length, and it uses only answers it was given |
| BodyCopy.SendFromBuffer | v3/transfer.c:130-137 | the inner while loop ends as SendChunk says; what went out is the buffer from its start up to totalSent, in order |
| BodyCopy.SendRead | v3/transfer.c:128-137 | one outer turn: the chunk read at the current file position goes out as the file's bytes from that position, as far as the inner loop got |
| BodyCopy.FallbackLoop | v3/transfer.c:128-138 | the file position never decreases and never passes the end; the loop ends normally only at the end of the file |
| BodyCopy.FallbackBody | v3/transfer.c:126-138 | the nested read/send loops (the same in transferThing.c:187-199) produce exactly the bytes, position and outcome of FallbackLoop |
| BodyCopy.ZeroSendsNeverFinish | v3/transfer.c:130-137 | a send that keeps returning 0 never completes the chunk; the inner loop consumes every answer without progress |
| BodyCopy.ChunkSentWhole | v3/transfer.c:130-137 | with no negative send, an inner loop that ends has sent the whole chunk |
| BodyCopy.FallbackInOrder | v3/transfer.c:128-138 | with no negative send, whatever went out is exactly the file between the start and end positions, in order |
| BodyCopy.ShortChunkMeansFailedSend | v3/transfer.c:130-137 | an inner loop that ends with less than the whole chunk sent stopped on a negative send, the last answer it used |
| BodyCopy.FailedSendDropsTail | v3/transfer.c:131-135 | for every script: when a chunk does not go out whole, a send failed; only the part sent before it is on the wire, the rest of the chunk is dropped, and the outer loop goes on with the next read past the chunk |
| BodyCopy.FailedSendLeavesGap | v3/transfer.c:131-135 | an instance of FailedSendDropsTail: of [1,2,3,4], read in two chunks with the first send failing, only [3,4] arrive |
| BodyCopy.FallbackWireBounded | v3/transfer.c:128-138 | whatever the sends answer, failing ones included, the wire never carries more bytes than the loop read from the file |
| BodyCopy.SendBody | v3/transfer.c:112-139 | the body on the connection is the one the build's loop (sendfile or fallback) produces |
| BodyCopy.BodyExact | v3/transfer.c:116-138 | either loop delivers the whole file byte for byte when it ends normally with no failing call |
| BodyCopy.ReceiveLoop | v3/transfer.c:196-203 | the count received equals the bytes written; the loop ends normally exactly when the count reaches the announced size, and overshoots it by less than one buffer |
| BodyCopy.Recv | v3/transfer.c:199 | recv fills the front of the buffer with the delivered bytes and returns their count, leaving the rest of the buffer as it was; or it returns -1 and leaves the buffer unchanged |
| BodyCopy.ReceiveBody | v3/transfer.c:196-203 | the receive while loop (the same in transferThing.c:225-234) writes exactly the bytes of ReceiveLoop, in order |
| BodyCopy.ReceiveWhole | v3/transfer.c:198-203 | a stream that delivers exactly the announced size in non-empty chunks is written whole, in order |
| BodyCopy.ReceiveTruncated | v3/transfer.c:198-203 | a stream that closes before the announced size leaves exactly the bytes that arrived, and the loop stops as failed |
| BodyCopy.ReceivePrefix | transferThing.c:228-234 | for any stream of chunks, the bytes written are a prefix of the stream, in order; unless the loop ended on reaching the announced size, they are the whole stream. With ReceiveLoop's bound, the last chunk can carry the file past the size by less than one buffer |
| BodyCopy.ReceiveOverReads | transferThing.c:228-234 | each recv asks for a full buffer, so the receiver can write more than the announced size: 2 bytes for a size of 1 |
| TransferV3.LastSlash | v3/transfer.c:44 | strrchr: the index holds '/' and no '/' follows it; none means the path has no '/' |
| TransferV3.BaseNameIsLastComponent | v3/transfer.c:44-45 | `BaseName`, the text after strrchr's '/': the base name has no '/', ends the path, and is either the whole path or preceded by '/' |
| TransferV3.SharedNameHasNoSlash | v3/transfer.c:43-48 | the name in the record share sends is the first min(255, length) characters of the base name and holds no '/' |
| TransferV3.Share | v3/transfer.c:22-148 | returns 0 or -1. It returns 0 exactly when there is a path, every setup call succeeds and the header send returns the full record size. The record offered is built from the base name and the fstat values. The body goes out only on success. |
| TransferV3.Receive | v3/transfer.c:151-212 | for a record that fills the 256-byte field, returns 0 or -1. It returns 0 exactly when every setup call succeeds, the single header recv returns the full record size and the file opens. On 0, the file named by the record is created with its mode and the bytes of the receive loop, whatever the body delivered. Otherwise no file is created. |
| TransferV3.ShareThenReceive | v3/transfer.c:177-203 | a shared file received over a stream that delivers every body byte is recreated under its base name (cut to 255 characters), with its mode and exact content |
| TransferV3.TruncatedBodyStillSaved | v3/transfer.c:196-211 | a body cut short is saved as the bytes that arrived, and receive's code does not depend on the body |
| TransferThing.RoleCases | transferThing.c:59-70 | `SelectRole`, main's choice: fewer than two arguments print the usage; "recv" selects the client with host argv[2]; any other first argument is the file to serve |
| TransferThing.PassiveIff | transferThing.c:102 | `AiFlags`, hints.ai_flags of setupAddrInfo: AI_PASSIVE is set exactly when the host name is NULL: when serving, or for "recv" without a host |
| TransferThing.SendFile | transferThing.c:147-205 | when open and fstat succeed, the record holds the full path as given (not the base name) and the body always follows, whatever the header send returned; otherwise nothing is sent |
| TransferThing.ReceiveFile | transferThing.c:208-239 | a file is created exactly when the single header recv returns the full record size and open succeeds; it gets the record's name (at most 256 characters) and mode and the receive loop's bytes |
| TransferThing.ReceiverKeepsFullPath | transferThing.c:161-162 | a path of at most 255 characters reaches the receiver unchanged, directory part included |
| TransferThing.FullPathExample | transferThing.c:162 | "dir/f" is created as "dir/f", not "f" |
| TransferThing.PickLocalIp | transferThing.c:271-277 | the choice is one of the candidates, and it is 127.0.0.1 exactly when every candidate is |
| TransferThing.PickIsFirstNonLoopback | transferThing.c:271-277 | after a run of loopback candidates, the choice is the first candidate that is not loopback |
| TransferThing.GetLocalIp | transferThing.c:252-281 | the buffer reads "127.0.0.1" when gethostname or getaddrinfo fails; otherwise it holds the text of the chosen candidate (first non-loopback, else the last); an empty list leaves it untouched |
| DiscoveryWire.IsRequestIff | src/discovery.c:70-79 | `IsRequest`, the recvfrom into 511 bytes, the NUL and the strcmp: a datagram is a request if and only if it starts with "DISCOVERY_P2P" followed by its end or a NUL; the 511-byte cut never matters |
| DiscoveryWire.TrailingBytesStillMatch | src/discovery.c:75-79 | bytes after an embedded NUL that follows the token do not prevent a match |
| DiscoveryWire.LongerTokenDoesNotMatch | v3/discovery.c:61 | the token followed by another character is not a request |
| DiscoveryWire.RecvInto | src/discovery.c:70-71 | a datagram lands at the front of the 512-character buffer, with a count below 512 that leaves room for the NUL; the rest of the buffer keeps its contents |
| DiscoveryWire.WaitForRequest | src/discovery.c:69-107 | the advertisers' loop (the same in v3/discovery.c:52-75) stops at the first request, after skipping failed receives and other datagrams; if it returns nothing, there was no request |
| DiscoveryWire.AddressField | src/discovery.c:178-179 | the 64-character field after strncpy of 63 and a NUL in byte 63 reads back as the source's address text |
| DiscoveryWire.StoreSource | v3/discovery.c:123-124 | the caller's buffer gets that field in its first 64 characters and reads back as the source's address text; the rest is unchanged |
| DiscoverySrc.LocalText | src/discovery.c:86-90 | the advertiser's own address text has no NUL and at most 15 characters (inet_ntop text or "UNKNOWN") |
| DiscoverySrc.DiscoveryAdvertise | src/discovery.c:32-111 | exits with 1 on setup failure and keeps waiting while no request arrived. On the first request it returns 0 and replies to the requester with "P2P_DEVICE:" and its own bound address text, whatever the reply send does. |
| DiscoverySrc.AdvertisedAddressReadsBack | src/discovery.c:93 | the reply text is never cut by the 128-byte snprintf, and the text after the prefix reads back as the bound address |
| DiscoverySrc.DiscoveryListen | src/discovery.c:123-190 | exits with 1 on setup failure. The request goes to the broadcast address if the caller's address is empty, otherwise to that address. A failed request send gives -1. A reply with a positive count gives 0 and stores the reply's source address (not its payload). A receive of 0 bytes or less gives -1 and leaves the address unchanged. The target is `ListenTarget`; FoundAddressIsNextTarget states what it is for a found address. |
| DiscoverySrc.FoundAddressIsNextTarget | src/discovery.c:154-179 | the stored address reads back as the replier's text, and a later call given it sends its request to that replier |
| DiscoveryV3.AdvertiseUDP | v3/discovery.c:23-80 | exits with 1 on setup failure and keeps waiting while no request arrived. On the first request it returns 0 and replies to the requester with "P2P_DEVICE:" and the requester's own address text. |
| DiscoveryV3.ReplyNamesRequester | v3/discovery.c:65 | the address in a v3 reply reads back as the requester's address, not the advertiser's |
| DiscoveryV3.DiscoverUDP | v3/discovery.c:90-132 | exits with 1 on setup failure and otherwise returns 0. The request always goes to 255.255.255.255, whatever the buffer holds. A reply with a positive count stores its source address. Anything else leaves the buffer unchanged. |

## Left out

- The macOS `sendfile` branch (v3/transfer.c:112-115, transferThing.c:169-174) is a single platform call with no loop. `BodyCopy.SendBody` covers only the Linux loop and the fallback.
- Closing descriptors and freeing address lists are not modelled. The leaks are visible in the source:
  - `share` does not close the socket when bind or listen fails (v3/transfer.c:72-84);
  - `discoveryListen` does not close it when no reply arrives (src/discovery.c:182-186).
- Printing, colours, `perror` and the progress bars are not modelled; the copy loops do not call the progress bars.
- The receive timeout (`SO_RCVTIMEO`, src/discovery.c:147-148) and blocking are not modelled. A timeout is a `RecvFailed` answer, and an answer script that runs out stands for a call still blocked.
- The model says nothing about a run past the end of its answer script (the `OffScript` outcome). A send that keeps returning 0 therefore shows up only as an inner loop that consumes every answer.
- The in-memory layout of the metadata record is not modelled. Its size is the constant 272 (`sizeof` on LP64 Linux: 256 + 8 + 4 + 4 bytes of padding), and the record travels as a value.
- `st_size` is taken to be the length of the file's content: the file is assumed not to change between `fstat` and the copy.
- The size and the receive counter are unbounded integers, while `off_t` is 64 bits. The signed overflow of `received += bytes` (v3/transfer.c:202, transferThing.c:233), possible only for an announced size within 2^19 of 2^63, is not modelled.
- The mode is an unbounded integer; umask and file-type bits, which `open` applies or ignores, are not modelled.
- BodyCopy.ReceiveBody: each `write` is taken to store the whole chunk. The source ignores `write`'s result, so a short write on disk is not modelled.
- TransferV3.Receive: the record is taken to fill the 256-byte filename field, as every record a recv of 272 bytes does. If that field holds no NUL, the C code reads past it when it opens the file, which is undefined behaviour; the model ends the name at the field's end, so it is at most 256 characters.
- TransferThing.ReceiveFile: the same assumption and the same cut at the field's end as TransferV3.Receive.
- TransferThing.GetLocalIp: modelled only for the buffer size the source passes (`INET_ADDRSTRLEN`, 16 bytes).
- DiscoverySrc.DiscoveryAdvertise: the address that `getsockname` reports is an input. On a socket bound to `INADDR_ANY` the kernel reports 0.0.0.0, so the reply text is in practice "P2P_DEVICE:0.0.0.0".
- `sendto`, `setsockopt(SO_REUSEADDR)` and `get_localIP` results that the advertisers only print are not inputs.
- Parts of `main` in transferThing.c other than the role choice and the passive flag are not modelled: socket setup failures exit, and the process returns `EXIT_SUCCESS`.
- The local-IP helpers (src/get_localIP.c, v3/_getLocalIP.c, test.c, v1/test.py), the CLI mains src/main.c and v3/main.c, and the header files are not part of this model.
