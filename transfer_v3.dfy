/**
 * share and receive of v3/transfer.c: the sender strips the path to its base
 * name, fills the metadata record, sends it and then the file body; the
 * receiver takes the record from a single recv, creates the file it names
 * and copies the body into it.
 *
 * The socket, file and resolver calls that can fail before the data moves
 * are inputs saying whether each succeeded.
 */
module TransferV3 {
  import opened IoScript
  import opened CStrings
  import opened FileHeader
  import opened BodyCopy

  /** strrchr(path, '/'): the index of the last '/', if any. */
  function LastSlash(path: string): (r: Option<nat>)
    ensures r.Some? ==> r.value < |path| && path[r.value] == '/'
    ensures r.Some? ==> forall k :: r.value < k < |path| ==> path[k] != '/'
    ensures r.None? ==> '/' !in path
    decreases |path|
  {
    if path == [] then None
    else if path[|path| - 1] == '/' then Some(|path| - 1)
    else LastSlash(path[..|path| - 1])
  }

  /** The file name share sends: what follows the last '/', or the whole path when it has none. */
  function BaseName(path: string): string
  {
    match LastSlash(path)
    case None => path
    case Some(i) => path[i + 1..]
  }

  /**
   * The base name is the longest suffix of the path without a '/': it holds
   * no '/', it ends the path, and it is either the whole path or preceded by
   * a '/'.
   */
  lemma BaseNameIsLastComponent(path: string)
    ensures var b := BaseName(path);
      '/' !in b && |b| <= |path| && b == path[|path| - |b|..]
      && (|b| == |path| || path[|path| - |b| - 1] == '/')
  {

  }

  /**
   * The filename field share sends names no directory: it is the first (at
   * most 255) characters of the base name and holds no '/'.
   */
  lemma SharedNameHasNoSlash(path: string, size: int, mode: int)
    requires NoNul(path)
    ensures var name := CStr(FillMetaData(BaseName(path), size, mode).filename);
      '/' !in name && name == BaseName(path)[..Min(FILENAME_FIELD - 1, |BaseName(path)|)]
  {
    var b := BaseName(path);
    BaseNameIsLastComponent(path);
    assert NoNul(b) by {
      assert forall k :: 0 <= k < |b| ==> b[k] == path[|path| - |b| + k];
    }
    CStrTerminated(b, []);
    assert b + [NUL] + [] == b + [NUL];
    assert CStr(b) == b by {
      assert StrLen(b) == |b|;
    }
    var name := CStr(FillMetaData(b, size, mode).filename);
    assert forall k :: 0 <= k < |name| ==> name[k] == b[k];
  }

  /** Whether each call before the header send succeeded, in the order share makes them. */
  datatype ShareSetup = ShareSetup(
    openOk: bool, fstatOk: bool, addrInfoOk: bool, socketOk: bool,
    bindOk: bool, listenOk: bool, acceptOk: bool)

  predicate FileOpened(s: ShareSetup)
  {
    s.openOk && s.fstatOk
  }

  predicate Connected(s: ShareSetup)
  {
    s.addrInfoOk && s.socketOk && s.bindOk && s.listenOk && s.acceptOk
  }

  /**
   * share(filepath). `content` and `mode` are what fstat and the file give;
   * `headerSent` is the count the header send returns. `header` is the record
   * handed to that send, `wire` the body bytes that followed it.
   */
  method Share(filepath: Option<string>, setup: ShareSetup, content: seq<byte>, mode: int,
               headerSent: int, body: BodyScript)
    returns (code: int, header: Option<FileMetaData>, wire: seq<byte>)
    requires filepath.Some? ==> NoNul(filepath.value)
    ensures code == 0 || code == -1
    ensures code == 0 <==> filepath.Some? && FileOpened(setup) && Connected(setup) && headerSent == METADATA_SIZE
    ensures header.Some? <==> filepath.Some? && FileOpened(setup) && Connected(setup)
    ensures header.Some? ==> header.value == FillMetaData(BaseName(filepath.value), |content|, mode)
    ensures code == 0 ==> wire == BodyWire(content, body)
    ensures code != 0 ==> wire == []
  {
    code, header, wire := -1, None, [];
    if filepath.None? {
      return;
    }
    var path := filepath.value;
    if !setup.openOk {
      return;
    }
    if !setup.fstatOk {
      return;
    }
    var metadata := FillMetaData(BaseName(path), |content|, mode);
    if !setup.addrInfoOk {
      return;
    }
    if !setup.socketOk {
      return;
    }
    if !setup.bindOk {
      return;
    }
    if !setup.listenOk {
      return;
    }
    if !setup.acceptOk {
      return;
    }
    header := Some(metadata);
    if headerSent != METADATA_SIZE {
      return;
    }
    wire := SendBody(content, body);
    code := 0;
  }

  /** Whether each call before the header recv succeeded, in the order receive makes them. */
  datatype ReceiveSetup = ReceiveSetup(addrInfoOk: bool, socketOk: bool, connectOk: bool)

  predicate ReceiverConnected(s: ReceiveSetup)
  {
    s.addrInfoOk && s.socketOk && s.connectOk
  }

  /** The file the receiver creates from an accepted header and the body answers. */
  function Saved(record: FileMetaData, answers: seq<RecvAnswer>): CreatedFile
  {
    CreatedFile(CStr(record.filename), record.mode, ReceiveLoop(record.size, 0, answers).written)
  }

  /**
   * receive(server_addr). `header` is the answer of the single recv for the
   * record, `openOk` whether creating the named file succeeded, `answers` the
   * recv answers for the body. The record always fills the 256-byte field.
   */
  method Receive(setup: ReceiveSetup, header: HeaderAnswer, openOk: bool, answers: seq<RecvAnswer>)
    returns (code: int, created: Option<CreatedFile>)
    requires |header.record.filename| == FILENAME_FIELD
    ensures code == 0 || code == -1
    ensures code == 0 <==> ReceiverConnected(setup) && header.count == METADATA_SIZE && openOk
    ensures created.Some? <==> code == 0
    ensures code == 0 ==> created.value == Saved(header.record, answers)
    ensures code == 0 ==> |created.value.name| <= FILENAME_FIELD
  {
    code, created := -1, None;
    if !setup.addrInfoOk {
      return;
    }
    if !setup.socketOk {
      return;
    }
    if !setup.connectOk {
      return;
    }
    if header.count != METADATA_SIZE {
      return;
    }
    var metadata := header.record;
    if !openOk {
      return;
    }
    var written, received, stop := ReceiveBody(metadata.size, answers);
    created := Some(CreatedFile(CStr(metadata.filename), metadata.mode, written));
    code := 0;
  }

  /**
   * A file shared and received over a stream that delivers the header intact
   * and then every body byte is recreated under its base name (cut to 255
   * characters), with its mode and its exact content.
   */
  lemma ShareThenReceive(path: string, content: seq<byte>, mode: int, answers: seq<RecvAnswer>)
    requires NoNul(path)
    requires GoodChunks(answers) && Payload(answers) == content
    ensures var sent := FillMetaData(BaseName(path), |content|, mode);
      Saved(sent, answers)
      == CreatedFile(BaseName(path)[..Min(FILENAME_FIELD - 1, |BaseName(path)|)], mode, content)
  {
    SharedNameHasNoSlash(path, |content|, mode);
    ReceiveWhole(|content|, 0, answers);
  }

  /**
   * The return code of receive does not depend on the body: a stream that
   * closes early still ends in 0, with the bytes that did arrive.
   */
  lemma TruncatedBodyStillSaved(record: FileMetaData, answers: seq<RecvAnswer>)
    requires GoodChunks(answers) && |Payload(answers)| < record.size
    ensures Saved(record, answers + [Data([])]).content == Payload(answers)
  {
    ReceiveTruncated(record.size, 0, answers);
  }
}
