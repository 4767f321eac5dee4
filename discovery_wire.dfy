/**
 * What the two discovery implementations (src/discovery.c and
 * v3/discovery.c) have in common: the request token, the reply prefix, the
 * way a datagram is read into a 512-character buffer and matched, and the way
 * a discoverer stores the address it found in the caller's 64-character
 * buffer.
 */
module DiscoveryWire {
  import opened IoScript
  import opened CStrings
  import opened Inet

  const TOKEN: string := "DISCOVERY_P2P"
  const REPLY_PREFIX: string := "P2P_DEVICE:"
  /** char buffer[512]; recvfrom is given one byte less, for the NUL. */
  const DATAGRAM_BUFFER: nat := 512
  /** The size of the caller's address buffer that the discoverers fill (63 characters and a NUL). */
  const ADDRESS_FIELD: nat := 64

  /** A reply datagram an advertiser sends: its text (strlen bytes of char reply[128]) and where it goes. */
  datatype Reply = Reply(text: string, to: IPv4)

  /** char reply[128]. */
  const REPLY_BUFFER: nat := 128

  /** The answer of one recvfrom: a datagram and the address it came from, or -1. */
  datatype RecvFromAnswer = Datagram(payload: string, source: IPv4) | RecvFailed

  /** recvfrom into sizeof(buffer) - 1 bytes: a longer datagram is cut there. */
  function Received(payload: string): (r: string)
    ensures |r| == Min(|payload|, DATAGRAM_BUFFER - 1) && r == payload[..|r|]
  {
    payload[..Min(|payload|, DATAGRAM_BUFFER - 1)]
  }

  /** The discovery request test: the received bytes, read up to the first NUL, are the token. */
  predicate IsRequest(d: RecvFromAnswer)
  {
    d.Datagram? && CStr(Received(d.payload)) == TOKEN
  }

  /**
   * A datagram is a request exactly when it starts with the token followed by
   * its end or a NUL; whatever follows that NUL is not looked at, and the
   * 511-byte cut never matters.
   */
  lemma IsRequestIff(payload: string, source: IPv4)
    ensures IsRequest(Datagram(payload, source))
        <==> |TOKEN| <= |payload| && payload[..|TOKEN|] == TOKEN
             && (|payload| == |TOKEN| || payload[|TOKEN|] == NUL)
  {
    var r := Received(payload);
    CStrIs(r, TOKEN);
    if |TOKEN| <= |payload| {
      assert r[..|TOKEN|] == payload[..|TOKEN|];
    }
  }

  lemma TrailingBytesStillMatch(junk: string, source: IPv4)
    ensures IsRequest(Datagram(TOKEN + [NUL] + junk, source))
  {
    var p := TOKEN + [NUL] + junk;
    assert p[..|TOKEN|] == TOKEN;
    IsRequestIff(p, source);
  }

  lemma LongerTokenDoesNotMatch(source: IPv4)
    ensures !IsRequest(Datagram(TOKEN + "X", source))
  {

  }

  /** A discoverer got a reply: recvfrom returned a positive count. */
  predicate Replied(answer: RecvFromAnswer)
  {
    answer.Datagram? && |Received(answer.payload)| > 0
  }

  /** ds[k] is the first request among the answers. */
  predicate FirstRequestAt(ds: seq<RecvFromAnswer>, k: nat)
  {
    k < |ds| && IsRequest(ds[k]) && forall l :: 0 <= l < k ==> !IsRequest(ds[l])
  }

  predicate NoRequest(ds: seq<RecvFromAnswer>)
  {
    forall l :: 0 <= l < |ds| ==> !IsRequest(ds[l])
  }

  /** recvfrom(sockfd, buffer, sizeof(buffer) - 1, ...) for a datagram: the bytes land at the buffer's front. */
  method RecvInto(buffer: array<char>, payload: string) returns (n: nat)
    requires buffer.Length == DATAGRAM_BUFFER
    modifies buffer
    ensures n == |Received(payload)| && n < DATAGRAM_BUFFER
    ensures buffer[..n] == Received(payload)
    ensures buffer[n..] == old(buffer[n..])
  {
    var r := Received(payload);
    Load(buffer, r);
    n := |r|;
  }

  /**
   * The advertisers' wait loop: receive into the buffer, skip failed
   * receives, NUL-terminate, compare with the token, and stop at the first
   * request. None means every answer was read and the loop is still waiting.
   */
  method WaitForRequest(datagrams: seq<RecvFromAnswer>) returns (found: Option<nat>)
    ensures found.Some? ==> FirstRequestAt(datagrams, found.value)
    ensures found.None? ==> NoRequest(datagrams)
  {
    var buffer := new char[DATAGRAM_BUFFER];
    var i := 0;
    while i < |datagrams|
      invariant 0 <= i <= |datagrams|
      invariant forall l :: 0 <= l < i ==> !IsRequest(datagrams[l])
    {
      match datagrams[i] {
        case RecvFailed =>
          // n < 0: try again
        case Datagram(payload, source) =>
          var n := RecvInto(buffer, payload);
          buffer[n] := NUL;
          assert buffer[..] == Received(payload) + [NUL] + buffer[n + 1..];
          CStrCut(Received(payload), buffer[n + 1..]);
          if CStr(buffer[..]) == TOKEN {
            return Some(i);
          }
      }
      i := i + 1;
    }
    return None;
  }

  /** The address buffer after strncpy(address, text, 63) and address[63] = '\0'. */
  function AddressField(source: IPv4): (field: string)
    ensures |field| == ADDRESS_FIELD && CStr(field) == DottedQuad(source)
  {
    var text := DottedQuad(source);
    StrNCopyReadBack(text, ADDRESS_FIELD - 1, ADDRESS_FIELD);
    CStrTerminated(text, []);
    assert CStr(text) == text by {
      assert text + [NUL] + [] == text + [NUL];
      CStrCut(text, []);
    }
    StrNCopyField(text, ADDRESS_FIELD - 1, ADDRESS_FIELD)
  }

  /** Stores inet_ntoa(source) in the caller's address buffer, at most 63 characters and a NUL. */
  method StoreSource(address: array<char>, source: IPv4)
    requires address.Length >= ADDRESS_FIELD
    modifies address
    ensures address[..ADDRESS_FIELD] == AddressField(source)
    ensures address[ADDRESS_FIELD..] == old(address[ADDRESS_FIELD..])
    ensures CStr(address[..]) == DottedQuad(source)
  {
    var field := AddressField(source);
    Load(address, field[..ADDRESS_FIELD - 1]);
    address[ADDRESS_FIELD - 1] := NUL;
    assert address[..ADDRESS_FIELD] == field;
    var text := DottedQuad(source);
    assert field == text + [NUL] + field[|text| + 1..];
    assert address[..] == text + [NUL] + (field[|text| + 1..] + address[ADDRESS_FIELD..]);
    CStrTerminated(text, field[|text| + 1..] + address[ADDRESS_FIELD..]);
  }
}
