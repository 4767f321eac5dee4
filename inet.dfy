/**
 * IPv4 addresses and their dotted-decimal text, as produced by inet_ntoa and
 * inet_ntop and read back by inet_pton.
 */
module Inet {
  import opened IoScript
  import opened CStrings

  type Octet = x: int | 0 <= x < 256

  datatype IPv4 = IPv4(a: Octet, b: Octet, c: Octet, d: Octet)

  /** LOOPBACK in transferThing.c. */
  const LOOPBACK: IPv4 := IPv4(127, 0, 0, 1)
  const LOOPBACK_TEXT: string := "127.0.0.1"
  /** BROADCAST_ADDR in both discovery files. */
  const BROADCAST: IPv4 := IPv4(255, 255, 255, 255)
  /** INADDR_ANY, and what a zero-filled sockaddr_in holds. */
  const ANY: IPv4 := IPv4(0, 0, 0, 0)

  predicate IsDigit(ch: char)
  {
    '0' <= ch <= '9'
  }

  predicate AllDigits(s: string)
  {
    forall i :: 0 <= i < |s| ==> IsDigit(s[i])
  }

  function DigitChar(d: nat): (ch: char)
    requires d < 10
    ensures IsDigit(ch) && ch as int - '0' as int == d
  {
    ('0' as int + d) as char
  }

  /** The decimal text of n, most significant digit first, without leading zeros. */
  function Decimal(n: nat): (s: string)
    ensures |s| >= 1 && AllDigits(s)
    ensures n < 10 ==> |s| == 1
    ensures n < 100 ==> |s| <= 2
    ensures n < 1000 ==> |s| <= 3
    decreases n
  {
    if n < 10 then [DigitChar(n)] else Decimal(n / 10) + [DigitChar(n % 10)]
  }

  /** The value of a digit string, most significant digit first. */
  function DigitsValue(s: string): nat
    requires AllDigits(s)
    decreases |s|
  {
    if s == [] then 0 else DigitsValue(s[..|s| - 1]) * 10 + (s[|s| - 1] as int - '0' as int)
  }

  lemma {:induction false} DecimalValue(n: nat)
    ensures DigitsValue(Decimal(n)) == n
    decreases n
  {
    var s := Decimal(n);
    if n >= 10 {
      assert s[..|s| - 1] == Decimal(n / 10);
      DecimalValue(n / 10);
    }
  }

  lemma {:induction false} DecimalNoLeadingZero(n: nat)
    ensures Decimal(n)[0] == '0' ==> n == 0
    decreases n
  {
    if n >= 10 {
      assert Decimal(n)[0] == Decimal(n / 10)[0];
      DecimalNoLeadingZero(n / 10);
    }
  }

  /** inet_ntoa / inet_ntop(AF_INET, ...): "a.b.c.d" in decimal. */
  function DottedQuad(ip: IPv4): (s: string)
    ensures 7 <= |s| <= 15
    ensures NoNul(s)
  {
    var t := Decimal(ip.a) + "." + Decimal(ip.b) + "." + Decimal(ip.c) + "." + Decimal(ip.d);
    assert forall i :: 0 <= i < |t| ==> IsDigit(t[i]) || t[i] == '.';
    t
  }

  /** The length of the run of digits at the front of s. */
  function DigitRun(s: string): (k: nat)
    ensures k <= |s| && AllDigits(s[..k])
    ensures k < |s| ==> !IsDigit(s[k])
  {
    if s == [] || !IsDigit(s[0]) then 0
    else
      var k := 1 + DigitRun(s[1..]);
      assert s[..k] == [s[0]] + s[1..][..k - 1];
      k
  }

  /** One octet as inet_pton accepts it: digits, no leading zero, at most 255. */
  predicate OctetText(s: string)
  {
    |s| >= 1 && AllDigits(s) && (s[0] == '0' ==> |s| == 1) && DigitsValue(s) <= 255
  }

  /** `count` octets separated by single dots, filling the whole of s. */
  function ParseOctets(s: string, count: nat): (r: Option<seq<Octet>>)
    requires count >= 1
    ensures r.Some? ==> |r.value| == count
    decreases count
  {
    var k := DigitRun(s);
    if !OctetText(s[..k]) then None
    else
      var v: Octet := DigitsValue(s[..k]);
      if count == 1 then
        if k == |s| then Some([v]) else None
      else if k < |s| && s[k] == '.' then
        match ParseOctets(s[k + 1..], count - 1)
        case None => None
        case Some(rest) => Some([v] + rest)
      else None
  }

  /**
   * inet_pton(AF_INET, s, dst) as the GNU C library implements it: exactly
   * four dot-separated decimal octets; None where inet_pton returns 0 and
   * leaves dst untouched.
   */
  function Pton(s: string): Option<IPv4>
  {
    match ParseOctets(s, 4)
    case None => None
    case Some(o) => Some(IPv4(o[0], o[1], o[2], o[3]))
  }

  lemma {:induction false} DigitRunOfDigits(p: string, rest: string)
    requires AllDigits(p)
    requires rest == [] || !IsDigit(rest[0])
    ensures DigitRun(p + rest) == |p|
  {
    if p != [] {
      assert (p + rest)[1..] == p[1..] + rest;
      DigitRunOfDigits(p[1..], rest);
    }
  }

  /** The octet text at the front of Decimal(n) + rest is read back as n. */
  lemma DecimalReadsBack(n: Octet, rest: string)
    requires rest == [] || rest[0] == '.'
    ensures var s := Decimal(n) + rest;
      DigitRun(s) == |Decimal(n)| && s[..DigitRun(s)] == Decimal(n) && OctetText(Decimal(n))
      && DigitsValue(Decimal(n)) == n
  {
    DigitRunOfDigits(Decimal(n), rest);
    DecimalValue(n);
    DecimalNoLeadingZero(n);
    var s := Decimal(n) + rest;
    assert s[..|Decimal(n)|] == Decimal(n);
    if Decimal(n)[0] == '0' {
      assert Decimal(n) == [DigitChar(0)];
    }
  }

  lemma ParseOctetsStep(n: Octet, tail: string, count: nat)
    requires count >= 2
    ensures ParseOctets(Decimal(n) + "." + tail, count)
         == match ParseOctets(tail, count - 1)
            case None => None
            case Some(rest) => Some([n] + rest)
  {
    var s := Decimal(n) + ("." + tail);
    assert Decimal(n) + "." + tail == s;
    DecimalReadsBack(n, "." + tail);
    var k := |Decimal(n)|;
    assert s[k] == '.';
    assert s[k + 1..] == tail;
  }

  lemma ParseOctetsLast(n: Octet)
    ensures ParseOctets(Decimal(n), 1) == Some([n])
  {
    DecimalReadsBack(n, []);
    assert Decimal(n) + [] == Decimal(n);
  }

  /** inet_pton reads the text inet_ntoa writes back as the same address. */
  lemma PtonDottedQuad(ip: IPv4)
    ensures Pton(DottedQuad(ip)) == Some(ip)
  {
    var t2 := Decimal(ip.c) + "." + Decimal(ip.d);
    var t1 := Decimal(ip.b) + "." + t2;
    assert DottedQuad(ip) == Decimal(ip.a) + "." + t1;
    ParseOctetsLast(ip.d);
    ParseOctetsStep(ip.c, Decimal(ip.d), 2);
    ParseOctetsStep(ip.b, t2, 3);
    ParseOctetsStep(ip.a, t1, 4);
  }

  /** Two addresses with the same text are the same address. */
  lemma DottedQuadInjective(x: IPv4, y: IPv4)
    ensures DottedQuad(x) == DottedQuad(y) <==> x == y
  {
    PtonDottedQuad(x);
    PtonDottedQuad(y);
  }

  lemma LoopbackText()
    ensures DottedQuad(LOOPBACK) == LOOPBACK_TEXT
  {

  }

  /** strcmp(text, "127.0.0.1") == 0 exactly when the address is the loopback address. */
  lemma IsLoopbackText(ip: IPv4)
    ensures DottedQuad(ip) == LOOPBACK_TEXT <==> ip == LOOPBACK
  {
    LoopbackText();
    DottedQuadInjective(ip, LOOPBACK);
  }
}
