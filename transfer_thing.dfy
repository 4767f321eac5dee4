/**
 * transferThing.c: the single-file tool that either serves one file or
 * receives one. Modelled here are sendFile, receiveFile, the address choice
 * of getLocalIp, the passive flag of setupAddrInfo and the role choice of
 * main.
 */
module TransferThing {
  import opened IoScript
  import opened CStrings
  import opened Inet
  import opened FileHeader
  import opened BodyCopy

  // ------------------------------------------------------------------
  // Role selection and address resolution

  /** What main does with its arguments: print usage and exit, serve a file, or receive from a host. */
  datatype Role = Usage | Server(filepath: string) | Client(hostname: Option<string>)

  /**
   * The role main picks from argv (argv[0] is the program name). argv[argc]
   * is NULL in C, so "recv" without a host leaves the host name NULL.
   */
  function SelectRole(argv: seq<string>): Role
  {
    if |argv| < 2 then Usage
    else if CStr(argv[1]) == "recv" then Client(if |argv| > 2 then Some(argv[2]) else None)
    else Server(argv[1])
  }

  /** The host name main hands to setupAddrInfo: none for the server. */
  function HostName(role: Role): Option<string>
  {
    match role
    case Client(hostname) => hostname
    case _ => None
  }

  const AI_PASSIVE: int := 1

  /** hints.ai_flags in setupAddrInfo. */
  function AiFlags(hostname: Option<string>): int
  {
    if hostname.None? then AI_PASSIVE else 0
  }

  /**
   * The three roles: fewer than two arguments print the usage, "recv" makes a
   * client of argv[2], and any other first argument is the file to serve.
   */
  lemma RoleCases(argv: seq<string>)
    ensures SelectRole(argv).Usage? <==> |argv| < 2
    ensures SelectRole(argv).Client? <==> |argv| >= 2 && CStr(argv[1]) == "recv"
    ensures SelectRole(argv).Server? ==> SelectRole(argv).filepath == argv[1]
    ensures SelectRole(argv).Client? && |argv| > 2 ==> SelectRole(argv).hostname == Some(argv[2])
  {
  }

  /**
   * The socket is resolved for a passive (listening) address exactly when
   * main serves a file, or when "recv" is given without a host.
   */
  lemma PassiveIff(argv: seq<string>)
    requires |argv| >= 2
    ensures AiFlags(HostName(SelectRole(argv))) == AI_PASSIVE
        <==> CStr(argv[1]) != "recv" || |argv| == 2
  {
  }

  // ------------------------------------------------------------------
  // sendFile and receiveFile

  /**
   * sendFile(filepath, sockfd). The header send's count is never looked at,
   * so it is not an input. `header` is the record handed to that send and
   * `wire` the body bytes after it; both are empty when open or fstat fails.
   */
  method SendFile(filepath: string, openOk: bool, fstatOk: bool, content: seq<byte>, mode: int, body: BodyScript)
    returns (header: Option<FileMetaData>, wire: seq<byte>)
    ensures header.Some? <==> openOk && fstatOk
    ensures header.Some? ==> header.value == FillMetaData(filepath, |content|, mode)
    ensures header.Some? ==> wire == BodyWire(content, body)
    ensures header.None? ==> wire == []
  {
    header, wire := None, [];
    if !openOk {
      return;
    }
    if !fstatOk {
      return;
    }
    var metadata := FillMetaData(filepath, |content|, mode);
    header := Some(metadata);
    wire := SendBody(content, body);
  }

  /**
   * receiveFile(sockfd). `header` is the answer of the single recv for the
   * record, which always fills the 256-byte field; the function returns
   * nothing, so the only outcome is the file it leaves.
   */
  method ReceiveFile(header: HeaderAnswer, openOk: bool, answers: seq<RecvAnswer>)
    returns (created: Option<CreatedFile>)
    requires |header.record.filename| == FILENAME_FIELD
    ensures created.Some? <==> header.count == METADATA_SIZE && openOk
    ensures created.Some? ==> created.value.name == CStr(header.record.filename)
    ensures created.Some? ==> |created.value.name| <= FILENAME_FIELD
    ensures created.Some? ==> created.value.mode == header.record.mode
    ensures created.Some? ==> created.value.content == ReceiveLoop(header.record.size, 0, answers).written
  {
    created := None;
    if header.count != METADATA_SIZE {
      return;
    }
    var metadata := header.record;
    if !openOk {
      return;
    }
    var written, received, stop := ReceiveBody(metadata.size, answers);
    created := Some(CreatedFile(CStr(metadata.filename), metadata.mode, written));
  }

  /**
   * The receiver creates the file under the sender's path as given, directory
   * part included (cut to 255 characters): "dir/f" is created as "dir/f",
   * not "f".
   */
  lemma ReceiverKeepsFullPath(path: string, size: int, mode: int)
    requires NoNul(path) && |path| <= FILENAME_FIELD - 1
    ensures CStr(FillMetaData(path, size, mode).filename) == path
  {

  }

  lemma FullPathExample()
    ensures CStr(FillMetaData("dir/f", 3, 420).filename) == "dir/f"
  {

  }

  // ------------------------------------------------------------------
  // getLocalIp

  predicate AllLoopback(candidates: seq<IPv4>)
  {
    forall k :: 0 <= k < |candidates| ==> candidates[k] == LOOPBACK
  }

  /** The address getLocalIp settles on: the first that is not 127.0.0.1, else the last. */
  function PickLocalIp(candidates: seq<IPv4>): (ip: IPv4)
    requires candidates != []
    ensures ip in candidates
    ensures ip == LOOPBACK <==> AllLoopback(candidates)
    decreases |candidates|
  {
    if candidates[0] != LOOPBACK || |candidates| == 1 then candidates[0]
    else
      var ip := PickLocalIp(candidates[1..]);
      assert candidates == [candidates[0]] + candidates[1..];
      ip
  }

  /** After a run of loopback candidates, the pick is the first candidate that is not. */
  lemma {:induction false} PickIsFirstNonLoopback(cs: seq<IPv4>, k: nat)
    requires k < |cs| && cs[k] != LOOPBACK
    requires AllLoopback(cs[..k])
    ensures PickLocalIp(cs) == cs[k]
    decreases k
  {
    if k > 0 {
      assert cs[0] == cs[..k][0];
      assert cs[1..][..k - 1] == cs[..k][1..];
      PickIsFirstNonLoopback(cs[1..], k - 1);
    }
  }

  /** INET_ADDRSTRLEN: the size of the ip buffer startServerConnection passes. */
  const INET_ADDRSTRLEN: nat := 16

  /**
   * getLocalIp(buffer, sizeof(buffer)). `hostnameOk` is whether gethostname
   * succeeded and `candidates` the addresses getaddrinfo lists (None when it
   * fails). Each candidate is written into the buffer as text and compared
   * with "127.0.0.1"; the loop stops at the first other one.
   */
  method GetLocalIp(buffer: array<char>, hostnameOk: bool, candidates: Option<seq<IPv4>>)
    requires buffer.Length == INET_ADDRSTRLEN
    modifies buffer
    ensures !hostnameOk || candidates.None? ==> CStr(buffer[..]) == LOOPBACK_TEXT
    ensures hostnameOk && candidates.Some? && candidates.value != [] ==>
      CStr(buffer[..]) == DottedQuad(PickLocalIp(candidates.value))
    ensures hostnameOk && candidates == Some([]) ==> buffer[..] == old(buffer[..])
  {
    if !hostnameOk || candidates.None? {
      PutCString(buffer, LOOPBACK_TEXT);
      return;
    }
    var cs := candidates.value;
    var k := 0;
    while k < |cs|
      invariant 0 <= k <= |cs|
      invariant AllLoopback(cs[..k])
      invariant k == 0 ==> buffer[..] == old(buffer[..])
      invariant k > 0 ==> CStr(buffer[..]) == LOOPBACK_TEXT
    {
      PutCString(buffer, DottedQuad(cs[k]));
      IsLoopbackText(cs[k]);
      if CStr(buffer[..]) != LOOPBACK_TEXT {
        PickIsFirstNonLoopback(cs, k);
        return;
      }
      assert cs[..k + 1] == cs[..k] + [cs[k]];
      k := k + 1;
    }
    if cs != [] {
      assert cs[..k] == cs;
      LoopbackText();
    }
  }
}
