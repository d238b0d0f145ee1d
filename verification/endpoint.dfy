/**
 * The `Endpoint` value object: a listen address built from a port, or a
 * combined "ip:port" text, plus an optional ip. Construction either fails or
 * yields a pair whose ip passes the IP filter and whose port lies strictly
 * between 1024 and 65535; the pair serialises as a bare port for the "any"
 * address, as "localhost:port" for loopback and as "ip:port" otherwise.
 */
module Endpoint {
  import opened Wrappers
  import opened PhpStrings
  import Json

  const PortFloor: int := 1024
  const PortCeil: int := 65535
  const InaddrAny: string := "0.0.0.0"
  const InaddrLoopback: string := "127.0.0.1"

  /** PHP's `FILTER_VALIDATE_IP` filter, kept abstract: the caller supplies it. */
  type IpValidator = string -> bool

  /** The only facts about the IP filter the model relies on. */
  predicate SaneIpValidator(validIp: IpValidator) {
    && validIp(InaddrAny)
    && validIp(InaddrLoopback)
    && !validIp("")
    && !validIp("localhost")
  }

  /** The constructor's first argument: a PHP int or a string. */
  datatype PortArg = PortNumber(n: int) | PortText(text: string)

  datatype Endpoint = Endpoint(ip: string, port: int)

  /**
   * Why construction fails. The ip check throws `InvalidArgumentException`;
   * the two port checks come from `throw_unless` with a bare message, which
   * Laravel raises as a `RuntimeException`.
   */
  datatype EndpointError =
    | InvalidIp(ip: string)
    | PortNotAboveFloor(port: int)
    | PortNotBelowCeil(port: int)

  function Message(e: EndpointError): string {
    match e
    case InvalidIp(ip) => ip + " is an invalid IP address"
    case PortNotAboveFloor(p) => "Port " + IntToString(p) + " must be greater than " + IntToString(PortFloor)
    case PortNotBelowCeil(p) => "Port " + IntToString(p) + " must be less than " + IntToString(PortCeil)
  }

  /** The invariant every constructed endpoint keeps. */
  predicate Valid(e: Endpoint, validIp: IpValidator) {
    validIp(e.ip) && PortFloor < e.port < PortCeil
  }

  /** The ip the constructor starts from: the argument, or the "any" address for null. */
  function DefaultIp(ip: Option<string>): (r: string)
    ensures ip.None? ==> r == InaddrAny
    ensures ip.Some? ==> r == ip.value
  {
    match ip
    case None => InaddrAny
    case Some(a) => a
  }

  /**
   * The ip and port the constructor settles on before checking them. A
   * colon in the port text makes the text before the first colon the ip,
   * whatever ip was passed, and the text up to the next colon the port.
   */
  function Candidate(port: PortArg, ip: Option<string>): (c: (string, int))
    ensures port.PortNumber? ==> c == (DefaultIp(ip), port.n)
    ensures port.PortText? && ':' !in port.text ==> c == (DefaultIp(ip), IntCast(port.text))
    ensures port.PortText? && ':' in port.text ==>
      var s := port.text;
      && c.0 == TakeUntil(s, ':')
      && c.1 == IntCast(TakeUntil(s[|c.0| + 1..], ':'))
  {
    match port
    case PortNumber(n) => (DefaultIp(ip), n)
    case PortText(s) =>
      if ':' in s then SplitHostPort(s)
      else (DefaultIp(ip), IntCast(s))
  }

  /** `[$ip, $port] = explode(':', $port)`, keeping only the first two parts, then the cast of the port part. */
  function SplitHostPort(s: string): (c: (string, int))
    requires ':' in s
    ensures c.0 == TakeUntil(s, ':')
    ensures c.1 == IntCast(TakeUntil(s[|c.0| + 1..], ':'))
  {
    var parts := Explode(s, ':');
    ExplodeFirstTwo(s, ':');
    (parts[0], IntCast(parts[1]))
  }

  /** `new Endpoint($port, $ip)`. */
  function Construct(port: PortArg, ip: Option<string>, validIp: IpValidator): (r: Result<Endpoint, EndpointError>)
    ensures r.Success? ==> Valid(r.value, validIp)
    ensures r.Success? ==> r.value == Endpoint(Candidate(port, ip).0, Candidate(port, ip).1)
    ensures r.Success? <==> validIp(Candidate(port, ip).0) && PortFloor < Candidate(port, ip).1 < PortCeil
    ensures !validIp(Candidate(port, ip).0) ==> r == Failure(InvalidIp(Candidate(port, ip).0))
    ensures validIp(Candidate(port, ip).0) && Candidate(port, ip).1 <= PortFloor ==>
      r == Failure(PortNotAboveFloor(Candidate(port, ip).1))
    ensures validIp(Candidate(port, ip).0) && Candidate(port, ip).1 >= PortCeil ==>
      r == Failure(PortNotBelowCeil(Candidate(port, ip).1))
  {
    var (host, number) := Candidate(port, ip);
    if !validIp(host) then Failure(InvalidIp(host))
    else if number <= PortFloor then Failure(PortNotAboveFloor(number))
    else if number >= PortCeil then Failure(PortNotBelowCeil(number))
    else Success(Endpoint(host, number))
  }

  /** `__toString()`. */
  function Show(e: Endpoint): (r: string)
    ensures ':' in r <==> e.ip != InaddrAny
  {
    if e.ip == InaddrAny then IntToString(e.port)
    else
      var host := if e.ip == InaddrLoopback then "localhost" else e.ip;
      assert (host + ":" + IntToString(e.port))[|host|] == ':';
      host + ":" + IntToString(e.port)
  }

  /** `toJson()`: the JSON string literal of `__toString()`. */
  function ToJson(e: Endpoint): string {
    Json.EncodeString(Show(e))
  }

  /** A port's decimal text carries no colon and casts back to the port. */
  lemma PortTextReadsBack(port: int)
    requires PortFloor < port < PortCeil
    ensures IntToString(port) == NatToString(port)
    ensures ':' !in IntToString(port)
    ensures TakeUntil(IntToString(port), ':') == IntToString(port)
    ensures IntCast(IntToString(port)) == port
  {
    CastOfNatToString(port);
  }

  /**
   * Re-constructing from `__toString()` gives the endpoint back when its ip is
   * the "any" address, or a non-loopback ip without a colon.
   */
  lemma RoundTrip(e: Endpoint, validIp: IpValidator)
    requires Valid(e, validIp)
    requires e.ip == InaddrAny || (e.ip != InaddrLoopback && ':' !in e.ip)
    ensures Construct(PortText(Show(e)), None, validIp) == Success(e)
  {
    assert Candidate(PortText(Show(e)), None) == (e.ip, e.port) by {
      if e.ip == InaddrAny {
        PortTextReadsBack(e.port);
      } else {
        HostPortReadsBack(e.ip, e.port);
      }
    }
  }

  /** The text "ip:port" splits back into the ip and the port. */
  lemma HostPortReadsBack(host: string, port: int)
    requires ':' !in host
    requires PortFloor < port < PortCeil
    ensures ':' in host + ":" + IntToString(port)
    ensures SplitHostPort(host + ":" + IntToString(port)) == (host, port)
  {
    var digits := IntToString(port);
    PortTextReadsBack(port);
    var s := host + ":" + digits;
    assert s == host + [':'] + digits;
    assert s[|host|] == ':';
    TakeUntilSegment(host, digits, ':');
    assert s[|host| + 1..] == digits;
  }

  /** A loopback endpoint prints its ip as localhost. */
  lemma ShowLoopback(port: int)
    ensures Show(Endpoint(InaddrLoopback, port)) == "localhost:" + IntToString(port)
  {
    assert InaddrLoopback != InaddrAny by {
      assert InaddrLoopback[0] != InaddrAny[0];
    }
  }

  lemma NoColonInLocalhost()
    ensures ':' !in "localhost"
  {
    var h := "localhost";
    assert forall i :: 0 <= i < |h| ==> h[i] != ':';
  }

  /** A loopback endpoint prints as "localhost:port", which the constructor rejects as an ip. */
  lemma LoopbackDoesNotRoundTrip(port: int, validIp: IpValidator)
    requires SaneIpValidator(validIp)
    requires PortFloor < port < PortCeil
    ensures Show(Endpoint(InaddrLoopback, port)) == "localhost:" + IntToString(port)
    ensures Construct(PortText(Show(Endpoint(InaddrLoopback, port))), None, validIp) == Failure(InvalidIp("localhost"))
  {
    ShowLoopback(port);
    NoColonInLocalhost();
    HostPortReadsBack("localhost", port);
    var text := "localhost" + ":" + IntToString(port);
    assert Candidate(PortText(text), None) == ("localhost", port);
  }

  /** `toJson()` decodes back to `__toString()`. */
  lemma ToJsonDecodes(e: Endpoint)
    ensures Json.DecodeString(ToJson(e)) == Some(Show(e))
  {
    Json.DecodeEncode(Show(e));
  }

  /** For an ip of plain ASCII (every IPv4 or IPv6 literal), `toJson()` is `__toString()` between double quotes. */
  lemma ToJsonQuotesShow(e: Endpoint)
    requires forall i :: 0 <= i < |e.ip| ==> Json.PlainChar(e.ip[i])
    ensures ToJson(e) == "\"" + Show(e) + "\""
  {
    var digits := IntToString(e.port);
    assert forall i :: 0 <= i < |digits| ==> Json.PlainChar(digits[i]) by {
      var ds := NatToString(if e.port < 0 then -e.port else e.port);
      assert AllDigits(ds);
      if e.port < 0 {
        assert digits == "-" + ds;
        assert forall i :: 0 <= i < |digits| ==> digits[i] == '-' || IsDigit(digits[i]);
      }
    }
    var shown := Show(e);
    assert forall i :: 0 <= i < |shown| ==> Json.PlainChar(shown[i]);
    Json.EscapePlain(shown);
  }

  /** One octet of a dotted quad: one to three digits, no leading zero, at most 255. */
  predicate IsOctet(p: string) {
    1 <= |p| <= 3 && AllDigits(p) && (p[0] != '0' || |p| == 1) && DigitsValue(p) <= 255
  }

  /** The IPv4 half of `FILTER_VALIDATE_IP`: exactly four octets separated by dots. */
  predicate IsIpv4(s: string) {
    var parts := Explode(s, '.');
    |parts| == 4 && forall i :: 0 <= i < 4 ==> IsOctet(parts[i])
  }

  /** A dotted quad written from four dot-free octet texts explodes back into them. */
  lemma QuadParts(a: string, b: string, c: string, d: string)
    requires '.' !in a && '.' !in b && '.' !in c && '.' !in d
    ensures Explode(a + "." + b + "." + c + "." + d, '.') == [a, b, c, d]
  {
    var parts := [a, b, c, d];
    var cd := c + ['.'] + d;
    var bcd := b + ['.'] + cd;
    var abcd := a + ['.'] + bcd;
    assert Implode(parts[3..], '.') == d;
    assert parts[2..][1..] == parts[3..];
    assert Implode(parts[2..], '.') == cd;
    assert parts[1..][1..] == parts[2..];
    assert Implode(parts[1..], '.') == bcd;
    assert Implode(parts, '.') == abcd;
    assert abcd == a + "." + b + "." + c + "." + d;
    assert forall i :: 0 <= i < |parts| ==> '.' !in parts[i];
    ImplodeExplode(parts, '.');
  }

  /** The decimal text of a number up to 255 is an octet. */
  lemma OctetOf(n: nat)
    requires n <= 255
    ensures IsOctet(NatToString(n))
  {
    if n >= 10 {
      assert |NatToString(n / 10)| <= 2 by {
        if n / 10 >= 10 {
          assert |NatToString(n / 100)| == 1;
        }
      }
    }
  }

  /** An octet carries no dot. */
  lemma NoDotInOctet(p: string)
    requires IsOctet(p)
    ensures '.' !in p
  {
    assert forall i :: 0 <= i < |p| ==> IsDigit(p[i]);
  }

  /** Four octets written with dots between them form an IPv4 address. */
  lemma OctetsAreIpv4(a: string, b: string, c: string, d: string)
    requires IsOctet(a) && IsOctet(b) && IsOctet(c) && IsOctet(d)
    ensures IsIpv4(a + "." + b + "." + c + "." + d)
  {
    NoDotInOctet(a);
    NoDotInOctet(b);
    NoDotInOctet(c);
    NoDotInOctet(d);
    QuadParts(a, b, c, d);
    var parts := [a, b, c, d];
    assert forall i :: 0 <= i < 4 ==> IsOctet(parts[i]);
  }

  /** Four numbers up to 255 written with dots between them form an IPv4 address. */
  lemma QuadIsIpv4(a: nat, b: nat, c: nat, d: nat)
    requires a <= 255 && b <= 255 && c <= 255 && d <= 255
    ensures IsIpv4(NatToString(a) + "." + NatToString(b) + "." + NatToString(c) + "." + NatToString(d))
  {
    OctetOf(a);
    OctetOf(b);
    OctetOf(c);
    OctetOf(d);
    OctetsAreIpv4(NatToString(a), NatToString(b), NatToString(c), NatToString(d));
  }

  lemma AnyIsIpv4()
    ensures IsIpv4(InaddrAny)
  {
    QuadIsIpv4(0, 0, 0, 0);
    assert NatToString(0) == "0";
    assert InaddrAny == "0" + "." + "0" + "." + "0" + "." + "0";
  }

  lemma LoopbackIsIpv4()
    ensures IsIpv4(InaddrLoopback)
  {
    QuadIsIpv4(127, 0, 0, 1);
    Digits127();
    assert NatToString(0) == "0";
    assert NatToString(1) == "1";
    assert InaddrLoopback == "127" + "." + "0" + "." + "0" + "." + "1";
  }

  /** A text without a dot is a single part, so no IPv4 address. */
  lemma DotlessIsNotIpv4(s: string)
    requires '.' !in s
    ensures !IsIpv4(s)
  {
    ExplodeWithoutDelimiter(s, '.');
  }

  /** The IPv4 filter meets every fact the model assumes of the IP filter. */
  lemma Ipv4FilterIsSane()
    ensures SaneIpValidator(IsIpv4)
  {
    AnyIsIpv4();
    LoopbackIsIpv4();
    DotlessIsNotIpv4("");
    LocalhostIsNotIpv4();
  }

  lemma LocalhostIsNotIpv4()
    ensures !IsIpv4("localhost")
  {
    var h := "localhost";
    assert forall i :: 0 <= i < |h| ==> h[i] != '.';
    DotlessIsNotIpv4(h);
  }

  lemma Digits127()
    ensures NatToString(127) == "127"
  {
    assert NatToString(1) == "1";
    assert NatToString(12) == "12";
  }

  lemma Digits10()
    ensures NatToString(10) == "10"
  {
    assert NatToString(1) == "1";
  }

  lemma Digits500()
    ensures NatToString(500) == "500"
  {
    assert NatToString(5) == "5";
    assert NatToString(50) == "50";
  }

  lemma Digits25565()
    ensures NatToString(25565) == "25565"
  {
    assert NatToString(2) == "2";
    assert NatToString(25) == "25";
    assert NatToString(255) == "255";
    assert NatToString(2556) == "2556";
  }

  lemma Digits70000()
    ensures NatToString(70000) == "70000"
  {
    assert NatToString(7) == "7";
    assert NatToString(70) == "70";
    assert NatToString(700) == "700";
    assert NatToString(7000) == "7000";
  }

  /** The decimal texts the worked examples use. */
  lemma ExampleDigits()
    ensures NatToString(500) == "500"
    ensures NatToString(25565) == "25565"
    ensures NatToString(70000) == "70000"
  {
    Digits500();
    Digits25565();
    Digits70000();
  }

  /** A bare port text, and its cast, in the worked examples. */
  lemma ExampleBare(port: nat, text: string, ip: Option<string>)
    requires text == NatToString(port) && port <= PhpIntMax
    ensures Candidate(PortText(text), ip) == (DefaultIp(ip), port)
  {
    CastOfNatToString(port);
  }

  lemma ExampleIpIsIpv4()
    ensures IsIpv4("10.0.0.5")
  {
    QuadIsIpv4(10, 0, 0, 5);
    Digits10();
    assert NatToString(0) == "0";
    assert NatToString(5) == "5";
    assert "10.0.0.5" == "10" + "." + "0" + "." + "0" + "." + "5";
  }

  /** Worked example: an explicit ip and a port text. */
  lemma ExampleExplicitIp()
    ensures Construct(PortText("25565"), Some("10.0.0.5"), IsIpv4) == Success(Endpoint("10.0.0.5", 25565))
  {
    ExampleDigits();
    ExampleBare(25565, "25565", Some("10.0.0.5"));
    ExampleIpIsIpv4();
  }

  /** Worked examples: a bare port binds the "any" address; ports at or beyond the bounds fail. */
  lemma ExampleBarePorts()
    ensures Construct(PortText("25565"), None, IsIpv4) == Success(Endpoint(InaddrAny, 25565))
    ensures Construct(PortText("500"), None, IsIpv4) == Failure(PortNotAboveFloor(500))
    ensures Construct(PortText("70000"), None, IsIpv4) == Failure(PortNotBelowCeil(70000))
  {
    Ipv4FilterIsSane();
    ExampleDigits();
    ExampleBare(25565, "25565", None);
    ExampleBare(500, "500", None);
    ExampleBare(70000, "70000", None);
  }

  lemma ExampleLoopbackCandidate()
    ensures Candidate(PortText("127.0.0.1:25565"), None) == (InaddrLoopback, 25565)
  {
    ExampleDigits();
    var s := InaddrLoopback + ":" + IntToString(25565);
    assert s == "127.0.0.1:25565";
    HostPortReadsBack(InaddrLoopback, 25565);
  }

  /** Worked example: a combined loopback text, printed back as localhost. */
  lemma ExampleLoopback()
    ensures Construct(PortText("127.0.0.1:25565"), None, IsIpv4) == Success(Endpoint(InaddrLoopback, 25565))
  {
    LoopbackIsIpv4();
    ExampleLoopbackCandidate();
  }

  /** Worked example of `__toString()` for an explicit ip. */
  lemma ExampleShowExplicit(ip: string, port: int)
    requires ip == "10.0.0.5" && port == 25565
    ensures Show(Endpoint(ip, port)) == "10.0.0.5:25565"
  {
    Digits25565();
    assert ip != InaddrAny && ip != InaddrLoopback by {
      assert ip[0] != InaddrAny[0] && ip[1] != InaddrLoopback[1];
    }
    assert IntToString(port) == "25565";
  }

  /** Worked examples of `__toString()` for the "any" address and for loopback. */
  lemma ExampleShowAnyAndLoopback(port: int)
    requires port == 25565
    ensures Show(Endpoint(InaddrAny, port)) == "25565"
    ensures Show(Endpoint(InaddrLoopback, port)) == "localhost:25565"
  {
    Digits25565();
    assert IntToString(port) == "25565";
    ShowLoopback(port);
  }
}
