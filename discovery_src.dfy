/**
 * discoveryAdvertise and discoveryListen of src/discovery.c.
 *
 * The advertiser answers the first discovery request with its own bound
 * address as getsockname reports it; the listener sends the request to the
 * broadcast address or to the address the caller already holds, waits once,
 * and keeps the source address of the reply.
 */
module DiscoverySrc {
  import opened IoScript
  import opened CStrings
  import opened Inet
  import opened DiscoveryWire

  /** The advertiser's own address text: inet_ntop of what getsockname gives, or "UNKNOWN" when it fails. */
  function LocalText(bound: Option<IPv4>): (t: string)
    ensures NoNul(t) && |t| <= 15
  {
    match bound
    case Some(ip) => DottedQuad(ip)
    case None => "UNKNOWN"
  }

  /**
   * discoveryAdvertise(). `setupOk` is whether socket and bind succeeded,
   * `datagrams` the recvfrom answers in order, `bound` what getsockname
   * reports (None when it fails). StillWaiting: no request among the answers.
   */
  method DiscoveryAdvertise(setupOk: bool, datagrams: seq<RecvFromAnswer>, bound: Option<IPv4>)
    returns (status: Status, reply: Option<Reply>)
    ensures !setupOk ==> status == Exited(EXIT_FAILURE) && reply.None?
    ensures setupOk && NoRequest(datagrams) ==> status == StillWaiting && reply.None?
    ensures setupOk && !NoRequest(datagrams) ==> status == Returned(0) && reply.Some?
    ensures reply.Some? ==> exists k: nat :: FirstRequestAt(datagrams, k) && reply.value.to == datagrams[k].source
    ensures reply.Some? ==> reply.value.text == REPLY_PREFIX + LocalText(bound)
  {
    if !setupOk {
      return Exited(EXIT_FAILURE), None;
    }
    var found := WaitForRequest(datagrams);
    if found.None? {
      return StillWaiting, None;
    }
    var k := found.value;
    var buffer := new char[REPLY_BUFFER];
    var text := Truncate(REPLY_PREFIX + LocalText(bound), REPLY_BUFFER);
    PutCString(buffer, text);
    // the sendto result is only reported, and the loop ends either way
    reply := Some(Reply(CStr(buffer[..]), datagrams[k].source));
    status := Returned(0);
  }

  /** The reply text is never cut by snprintf, and what follows the prefix reads back as the bound address. */
  lemma AdvertisedAddressReadsBack(ip: IPv4)
    ensures var text := REPLY_PREFIX + LocalText(Some(ip));
      Truncate(text, REPLY_BUFFER) == text && Pton(text[|REPLY_PREFIX|..]) == Some(ip)
  {
    var text := REPLY_PREFIX + LocalText(Some(ip));
    assert text[|REPLY_PREFIX|..] == DottedQuad(ip);
    PtonDottedQuad(ip);
  }

  /**
   * Where the request goes: the broadcast address when the caller's address
   * is empty, otherwise what inet_pton makes of it, which is 0.0.0.0 (the
   * memset address) when the text is not a dotted quad.
   */
  function ListenTarget(address: string): IPv4
  {
    if |address| == 0 then BROADCAST
    else match Pton(address)
      case Some(ip) => ip
      case None => ANY
  }

  /**
   * discoveryListen(address). `setupOk` is whether socket and SO_BROADCAST
   * succeeded, `requestSent` whether the request sendto succeeded, `answer`
   * the single recvfrom (a timeout is RecvFailed). `target` is where the
   * request went.
   */
  method DiscoveryListen(address: array<char>, setupOk: bool, requestSent: bool, answer: RecvFromAnswer)
    returns (status: Status, target: Option<IPv4>)
    requires address.Length >= ADDRESS_FIELD && NUL in address[..]
    modifies address
    ensures !setupOk ==> status == Exited(EXIT_FAILURE) && target.None?
    ensures setupOk ==> target == Some(ListenTarget(CStr(old(address[..]))))
    ensures setupOk && !requestSent ==> status == Returned(-1)
    ensures setupOk && requestSent && Replied(answer) ==>
      status == Returned(0) && address[..ADDRESS_FIELD] == AddressField(answer.source)
      && address[ADDRESS_FIELD..] == old(address[ADDRESS_FIELD..]) && CStr(address[..]) == DottedQuad(answer.source)
    ensures setupOk && requestSent && !Replied(answer) ==> status == Returned(-1)
    ensures status != Returned(0) ==> address[..] == old(address[..])
  {
    if !setupOk {
      return Exited(EXIT_FAILURE), None;
    }
    var to := ListenTarget(CStr(address[..]));
    target := Some(to);
    if !requestSent {
      return Returned(-1), target;
    }
    if Replied(answer) {
      // the reply's text is only printed; its source address is what is kept
      StoreSource(address, answer.source);
      status := Returned(0);
    } else {
      status := Returned(-1);
    }
  }

  /**
   * The address the listener stores is the text of the replier's address, and
   * handing it to a later call sends that call's request to the replier alone.
   */
  lemma FoundAddressIsNextTarget(source: IPv4, rest: string)
    ensures CStr(AddressField(source) + rest) == DottedQuad(source)
    ensures ListenTarget(CStr(AddressField(source) + rest)) == source
  {
    var text := DottedQuad(source);
    var field := AddressField(source);
    assert field[..|text|] == text;
    CStrIs(field, text);
    assert field == text + [NUL] + field[|text| + 1..];
    assert field + rest == text + [NUL] + (field[|text| + 1..] + rest);
    CStrTerminated(text, field[|text| + 1..] + rest);
    PtonDottedQuad(source);
  }
}
