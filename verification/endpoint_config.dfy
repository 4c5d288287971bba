/**
 * How ThriftPublisher.publish resolves the endpoint it connects to: system properties
 * override hard-coded defaults, and the default URLs are built from the host and ports.
 */
module EndpointConfig {
  import opened Wrappers
  import opened JavaNumbers

  /** The JVM's system properties; a name that is not in the map reads as null. */
  type Properties = map<string, string>

  const DEFAULT_TYPE: string := "Thrift"
  const BINARY_TYPE: string := "Binary"
  const DEFAULT_BINARY_PORT: Int32 := 9611
  const SECURE_PORT_OFFSET: Int32 := 100
  const DEFAULT_CREDENTIAL: string := "admin"

  /** The property if it is set to a non-empty value, otherwise the default. */
  function GetProperty(props: Properties, name: string, def: string): (r: string)
    ensures name in props && props[name] != "" ==> r == props[name]
    ensures name !in props || props[name] == "" ==> r == def
    ensures r == def || (name in props && r == props[name])
  {
    if name !in props || |props[name]| == 0 || props[name] == "" then def else props[name]
  }

  /** What publish hands to the DataPublisher constructor, with the ports it derived. */
  datatype Endpoint = Endpoint(
    transport: string,
    receiverPort: Int32,
    securePort: Int32,
    url: string,
    authUrl: string,
    username: string,
    password: string)

  /** The URL publish builds by concatenation: scheme://host:port. */
  function Address(scheme: string, host: string, port: Int32): string {
    scheme + "://" + host + ":" + ToDecimal(port)
  }

  /**
   * The endpoint publish resolves for a publisher built with `host` and `port`. The
   * transport type defaults to Thrift; the Binary type always uses port 9611; the secure
   * port is the receiver port plus 100 in int arithmetic; the URLs default to
   * tcp://host:receiverPort and ssl://host:securePort; the credentials to admin/admin.
   */
  function Resolve(props: Properties, host: string, port: Int32): (e: Endpoint)
    ensures e.transport == if "type" in props && props["type"] != "" then props["type"] else DEFAULT_TYPE
    ensures e.transport != ""
    ensures e.receiverPort == if e.transport == BINARY_TYPE then DEFAULT_BINARY_PORT else port
    ensures e.receiverPort <= INT_MAX - SECURE_PORT_OFFSET ==> e.securePort == e.receiverPort + SECURE_PORT_OFFSET
    ensures e.receiverPort > INT_MAX - SECURE_PORT_OFFSET ==> e.securePort == e.receiverPort + SECURE_PORT_OFFSET - 0x1_0000_0000
    ensures e.url == if "url" in props && props["url"] != "" then props["url"] else Address("tcp", host, e.receiverPort)
    ensures e.authUrl == if "authURL" in props && props["authURL"] != "" then props["authURL"] else Address("ssl", host, e.securePort)
    ensures e.username == if "username" in props && props["username"] != "" then props["username"] else DEFAULT_CREDENTIAL
    ensures e.password == if "password" in props && props["password"] != "" then props["password"] else DEFAULT_CREDENTIAL
  {
    var transport := GetProperty(props, "type", DEFAULT_TYPE);
    var receiverPort := if transport == BINARY_TYPE then DEFAULT_BINARY_PORT else port;
    var securePort := AddInt32(receiverPort, SECURE_PORT_OFFSET);
    Endpoint(
      transport,
      receiverPort,
      securePort,
      GetProperty(props, "url", Address("tcp", host, receiverPort)),
      GetProperty(props, "authURL", Address("ssl", host, securePort)),
      GetProperty(props, "username", DEFAULT_CREDENTIAL),
      GetProperty(props, "password", DEFAULT_CREDENTIAL))
  }

  /** The position of the last occurrence of c in s. */
  function LastIndexOf(s: string, c: char): (r: Option<nat>)
    ensures r.Some? ==> r.value < |s| && s[r.value] == c && c !in s[r.value + 1..]
    ensures r.None? ==> c !in s
  {
    if s == [] then None
    else if s[|s| - 1] == c then Some(|s| - 1)
    else
      var r := LastIndexOf(s[..|s| - 1], c);
      assert s[..|s| - 1] + [s[|s| - 1]] == s;
      if r.Some? then assert s[r.value + 1..] == s[..|s| - 1][r.value + 1..] + [s[|s| - 1]]; r
      else r
  }

  /**
   * Reads an address of the form scheme://host:port back: the host is everything up to
   * the last colon, the port what follows it, parsed as an int.
   */
  function AddressOf(url: string, scheme: string): Option<(string, Int32)> {
    var prefix := scheme + "://";
    if |url| < |prefix| || url[..|prefix|] != prefix then None
    else
      var rest := url[|prefix|..];
      match LastIndexOf(rest, ':')
      case None => None
      case Some(i) =>
        match ParseInt(rest[i + 1..])
        case None => None
        case Some(p) => Some((rest[..i], p))
  }

  /** A decimal number holds no colon. */
  lemma DecimalHasNoColon(n: int)
    ensures ':' !in ToDecimal(n)
  {
    var s := ToDecimal(n);
    assert forall k :: 0 <= k < |s| ==> s[k] != ':';
  }

  /** The last c in a + [c] + b is the one after a, when b holds none. */
  lemma LastIndexOfSplit(a: string, c: char, b: string)
    requires c !in b
    ensures LastIndexOf(a + [c] + b, c) == Some(|a|)
  {
    var s := a + [c] + b;
    assert s[|a|] == c;
  }

  /** In prefix + host + ":" + digits, with no colon in digits, the last colon after the prefix ends the host. */
  lemma AddressParts(prefix: string, host: string, digits: string)
    requires ':' !in digits
    ensures var url := prefix + host + ":" + digits;
      var rest := url[|prefix|..];
      && url[..|prefix|] == prefix
      && LastIndexOf(rest, ':') == Some(|host|)
      && rest[..|host|] == host
      && rest[|host| + 1..] == digits
  {
    var url := prefix + host + ":" + digits;
    assert url == prefix + (host + [':'] + digits);
    var rest := url[|prefix|..];
    assert rest == host + [':'] + digits;
    LastIndexOfSplit(host, ':', digits);
  }

  /**
   * An address built from a host and an int port reads back as that host and port: the
   * port's digits hold no colon, so the last colon separates the two.
   */
  lemma AddressRoundTrip(scheme: string, host: string, port: Int32)
    ensures AddressOf(Address(scheme, host, port), scheme) == Some((host, port))
  {
    DecimalHasNoColon(port);
    AddressParts(scheme + "://", host, ToDecimal(port));
    ParseIntToDecimal(port);
  }

  /** Unless overridden, the URL names the host and the receiver port. */
  lemma DefaultUrlNamesReceiver(props: Properties, host: string, port: Int32)
    requires "url" !in props || props["url"] == ""
    ensures AddressOf(Resolve(props, host, port).url, "tcp") == Some((host, Resolve(props, host, port).receiverPort))
  {
    AddressRoundTrip("tcp", host, Resolve(props, host, port).receiverPort);
  }

  /** Unless overridden, the authentication URL names the host and the secure port. */
  lemma DefaultAuthUrlNamesSecurePort(props: Properties, host: string, port: Int32)
    requires "authURL" !in props || props["authURL"] == ""
    ensures AddressOf(Resolve(props, host, port).authUrl, "ssl") == Some((host, Resolve(props, host, port).securePort))
  {
    AddressRoundTrip("ssl", host, Resolve(props, host, port).securePort);
  }

  /** The secure port is the int sum receiverPort + 100, wrapped as Java wraps it. */
  lemma SecurePortWraps(props: Properties, host: string, port: Int32)
    ensures var e := Resolve(props, host, port);
      e.securePort == Wrap32(e.receiverPort + 100)
  {
    AddInt32Wraps(Resolve(props, host, port).receiverPort, SECURE_PORT_OFFSET);
  }

  /** With no properties set, the endpoint is Thrift on the given port and admin/admin. */
  lemma ResolveDefaults(host: string, port: Int32)
    requires port <= INT_MAX - SECURE_PORT_OFFSET
    ensures var e := Resolve(map[], host, port);
      && e.transport == "Thrift"
      && e.receiverPort == port
      && e.securePort == port + 100
      && e.url == "tcp://" + host + ":" + ToDecimal(port)
      && e.authUrl == "ssl://" + host + ":" + ToDecimal(port + 100)
      && e.username == "admin" && e.password == "admin"
  {
    var props: Properties := map[];
    assert "type" !in props && "url" !in props && "authURL" !in props;
    var e := Resolve(props, host, port);
    assert e.transport == DEFAULT_TYPE && e.receiverPort == port;
    assert e.securePort == port + SECURE_PORT_OFFSET;
    assert "tcp" + "://" == "tcp://" && "ssl" + "://" == "ssl://";
    assert e.url == Address("tcp", host, port);
    assert e.authUrl == Address("ssl", host, port + SECURE_PORT_OFFSET);
  }

  /** Selecting the Binary transport fixes the ports at 9611 and 9711, whatever port was given. */
  lemma BinaryTransportPorts(props: Properties, host: string, port: Int32)
    requires "type" in props && props["type"] == "Binary"
    ensures Resolve(props, host, port).receiverPort == 9611
    ensures Resolve(props, host, port).securePort == 9711
  {
  }
}
