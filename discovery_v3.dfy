/**
 * AdvertiseUDP and DiscoverUDP of v3/discovery.c.
 *
 * The advertiser answers the first discovery request with the requester's
 * own address; the discoverer always broadcasts, waits once, keeps the
 * source address of a reply, and returns 0 whatever happened.
 */
module DiscoveryV3 {
  import opened IoScript
  import opened CStrings
  import opened Inet
  import opened DiscoveryWire

  /**
   * AdvertiseUDP(). `setupOk` is whether socket and bind succeeded and
   * `datagrams` the recvfrom answers in order. The reply sendto's result is
   * never looked at. StillWaiting: no request among the answers.
   */
  method AdvertiseUDP(setupOk: bool, datagrams: seq<RecvFromAnswer>)
    returns (status: Status, reply: Option<Reply>)
    ensures !setupOk ==> status == Exited(EXIT_FAILURE) && reply.None?
    ensures setupOk && NoRequest(datagrams) ==> status == StillWaiting && reply.None?
    ensures setupOk && !NoRequest(datagrams) ==> status == Returned(0) && reply.Some?
    ensures reply.Some? ==> exists k: nat :: FirstRequestAt(datagrams, k) && reply.value.to == datagrams[k].source
    ensures reply.Some? ==> reply.value.text == REPLY_PREFIX + DottedQuad(reply.value.to)
  {
    if !setupOk {
      return Exited(EXIT_FAILURE), None;
    }
    var found := WaitForRequest(datagrams);
    if found.None? {
      return StillWaiting, None;
    }
    var requester := datagrams[found.value].source;
    var buffer := new char[REPLY_BUFFER];
    PutCString(buffer, REPLY_PREFIX + DottedQuad(requester));
    reply := Some(Reply(CStr(buffer[..]), requester));
    status := Returned(0);
  }

  /** The address in a v3 reply reads back as the requester's own address, not the advertiser's. */
  lemma ReplyNamesRequester(requester: IPv4)
    ensures var text := REPLY_PREFIX + DottedQuad(requester);
      Pton(text[|REPLY_PREFIX|..]) == Some(requester)
  {
    var text := REPLY_PREFIX + DottedQuad(requester);
    assert text[|REPLY_PREFIX|..] == DottedQuad(requester);
    PtonDottedQuad(requester);
  }

  /**
   * DiscoverUDP(address). `setupOk` is whether socket and SO_BROADCAST
   * succeeded and `answer` the single recvfrom; the request sendto's result is
   * never looked at. `target` is where the request went.
   */
  method DiscoverUDP(address: array<char>, setupOk: bool, answer: RecvFromAnswer)
    returns (status: Status, target: Option<IPv4>)
    requires address.Length >= ADDRESS_FIELD
    modifies address
    ensures !setupOk ==> status == Exited(EXIT_FAILURE) && target.None?
    ensures setupOk ==> status == Returned(0) && target == Some(BROADCAST)
    ensures setupOk && Replied(answer) ==>
      address[..ADDRESS_FIELD] == AddressField(answer.source)
      && address[ADDRESS_FIELD..] == old(address[ADDRESS_FIELD..]) && CStr(address[..]) == DottedQuad(answer.source)
    ensures !(setupOk && Replied(answer)) ==> address[..] == old(address[..])
  {
    if !setupOk {
      return Exited(EXIT_FAILURE), None;
    }
    target := Some(BROADCAST);
    if Replied(answer) {
      StoreSource(address, answer.source);
    }
    status := Returned(0);
  }
}
