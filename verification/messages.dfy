/**
 * The STOMP message model: one variant per frame type, the per-type `parse`
 * that checks mandatory headers, the `marshal` projection to a
 * (command, headers, body) triple, and the per-message serialization cache.
 */
module Messages {
  import opened Wrappers

  /** A header map as an ordered list of (key, value) pairs; the order is the
      order in which the encoder writes them and the decoder first saw them. */
  type Headers = seq<(string, string)>

  /** The `[command, headers, body]` triple produced by `marshal`. */
  datatype Frame = Frame(command: string, headers: Headers, body: Option<string>)

  datatype Msg =
    | Stomp(host: string, acceptVersion: string)
    | Connect(host: string, optAcceptVersion: Option<string>)
    | Connected(version: string)
    | Send(destination: string, body: string, receipt: Option<string>)
    | Error(message: Option<string>, errReceiptId: Option<string>, errBody: Option<string>)
    | Receipt(receiptId: string)
    | Disconnect   // exported and used by the session, but not defined in the source

  const DefaultAcceptVersion := "1.2"

  // ---------------------------------------------------------------- headers

  function KeysOf(h: Headers): set<string>
  {
    if h == [] then {} else {h[0].0} + KeysOf(h[1..])
  }

  predicate DistinctKeys(h: Headers)
  {
    forall i, j :: 0 <= i < j < |h| ==> h[i].0 != h[j].0
  }

  /** Dictionary lookup: the value of the first pair with key `k`. */
  function Lookup(h: Headers, k: string): (r: Option<string>)
    ensures r.Some? <==> k in KeysOf(h)
    ensures r.Some? ==> (k, r.value) in h
  {
    if h == [] then None
    else if h[0].0 == k then Some(h[0].1)
    else Lookup(h[1..], k)
  }

  /** Python dictionary equality: both maps give every key the same value. */
  ghost predicate SameHeaders(a: Headers, b: Headers)
  {
    forall k :: Lookup(a, k) == Lookup(b, k)
  }

  // --------------------------------------------------------------- commands

  function Command(m: Msg): string
  {
    match m
    case Stomp(_, _) => "STOMP"
    case Connect(_, _) => "CONNECT"
    case Connected(_) => "CONNECTED"
    case Send(_, _, _) => "SEND"
    case Error(_, _, _) => "ERROR"
    case Receipt(_) => "RECEIPT"
    case Disconnect => "DISCONNECT"
  }

  /** The commands that have a `parse`; DISCONNECT is outbound only. */
  const ParsableCommands: set<string> := {"STOMP", "CONNECT", "CONNECTED", "SEND", "ERROR", "RECEIPT"}

  /** The headers `marshal` may emit for a command. */
  function AllowedKeys(command: string): set<string>
  {
    match command
    case "STOMP" => {"host", "accept-version"}
    case "CONNECT" => {"host", "accept-version"}
    case "CONNECTED" => {"version"}
    case "SEND" => {"destination", "receipt"}
    case "ERROR" => {"message", "receipt-id"}
    case "RECEIPT" => {"receipt-id"}
    case _ => {}
  }

  /** The headers whose absence makes `parse` raise ProtocolError. */
  function MandatoryKeys(command: string): set<string>
  {
    match command
    case "STOMP" => {"host", "accept-version"}
    case "CONNECT" => {"host"}
    case "CONNECTED" => {"version"}
    case "SEND" => {"destination"}
    case "RECEIPT" => {"receipt-id"}
    case _ => {}
  }

  /** Whether the variant stores a body (SEND and ERROR). */
  predicate CarriesBody(command: string)
  {
    command == "SEND" || command == "ERROR"
  }

  /** The value a message gives header `k`: the field behind that header, or
      None when the header is absent (an optional field left as None). */
  function HeaderValue(m: Msg, k: string): Option<string>
  {
    match m
    case Stomp(host, av) =>
      if k == "host" then Some(host) else if k == "accept-version" then Some(av) else None
    case Connect(host, av) =>
      if k == "host" then Some(host) else if k == "accept-version" then av else None
    case Connected(version) =>
      if k == "version" then Some(version) else None
    case Send(destination, _, receipt) =>
      if k == "destination" then Some(destination) else if k == "receipt" then receipt else None
    case Error(message, receiptId, _) =>
      if k == "message" then message else if k == "receipt-id" then receiptId else None
    case Receipt(receiptId) =>
      if k == "receipt-id" then Some(receiptId) else None
    case Disconnect => None
  }

  /** The body slot of the marshalled triple. */
  function BodyOf(m: Msg): Option<string>
  {
    match m
    case Send(_, body, _) => Some(body)
    case Error(_, _, body) => body
    case _ => None
  }

  // ---------------------------------------------------------------- marshal

  /** The header list of one conditional dictionary entry: present only when
      the field is not None. */
  function Entry(k: string, v: Option<string>): (h: Headers)
    ensures DistinctKeys(h)
    ensures KeysOf(h) == if v.Some? then {k} else {}
    ensures forall x :: Lookup(h, x) == if x == k then v else None
  {
    if v.Some? then [(k, v.value)] else []
  }

  lemma {:induction false} KeysOfAppend(a: Headers, b: Headers)
    ensures KeysOf(a + b) == KeysOf(a) + KeysOf(b)
  {
    if a == [] {
      assert a + b == b;
    } else {
      assert (a + b)[1..] == a[1..] + b;
      KeysOfAppend(a[1..], b);
    }
  }

  /** Looking up in a concatenation finds the first list's entry first. */
  lemma {:induction false} LookupAppend(a: Headers, b: Headers, k: string)
    ensures Lookup(a + b, k) == if k in KeysOf(a) then Lookup(a, k) else Lookup(b, k)
  {
    if a == [] {
      assert a + b == b;
    } else {
      assert (a + b)[1..] == a[1..] + b;
      LookupAppend(a[1..], b, k);
    }
  }

  /** Two dictionary entries under different keys. */
  lemma TwoEntries(k1: string, v1: Option<string>, k2: string, v2: Option<string>)
    requires k1 != k2
    ensures var h := Entry(k1, v1) + Entry(k2, v2);
            DistinctKeys(h)
            && KeysOf(h) == KeysOf(Entry(k1, v1)) + KeysOf(Entry(k2, v2))
            && forall x :: Lookup(h, x) == if x == k1 then v1 else if x == k2 then v2 else None
  {
    var h := Entry(k1, v1) + Entry(k2, v2);
    KeysOfAppend(Entry(k1, v1), Entry(k2, v2));
    forall x ensures Lookup(h, x) == if x == k1 then v1 else if x == k2 then v2 else None {
      LookupAppend(Entry(k1, v1), Entry(k2, v2), x);
    }
  }

  /** Projects a message to its `[command, headers, body]` triple; optional
      fields that are None produce no header. */
  function Marshal(m: Msg): (f: Frame)
    ensures f.command == Command(m)
    ensures DistinctKeys(f.headers)
    ensures MandatoryKeys(f.command) <= KeysOf(f.headers) <= AllowedKeys(f.command)
    ensures forall k :: Lookup(f.headers, k) == HeaderValue(m, k)
    ensures f.body == BodyOf(m)
    ensures !CarriesBody(f.command) ==> f.body == None
  {
    match m
    case Stomp(host, av) =>
      TwoEntries("host", Some(host), "accept-version", Some(av));
      Frame("STOMP", Entry("host", Some(host)) + Entry("accept-version", Some(av)), None)
    case Connect(host, av) =>
      TwoEntries("host", Some(host), "accept-version", av);
      Frame("CONNECT", Entry("host", Some(host)) + Entry("accept-version", av), None)
    case Connected(version) =>
      Frame("CONNECTED", Entry("version", Some(version)), None)
    case Send(destination, body, receipt) =>
      TwoEntries("destination", Some(destination), "receipt", receipt);
      Frame("SEND", Entry("destination", Some(destination)) + Entry("receipt", receipt), Some(body))
    case Error(message, receiptId, body) =>
      TwoEntries("message", message, "receipt-id", receiptId);
      Frame("ERROR", Entry("message", message) + Entry("receipt-id", receiptId), body)
    case Receipt(receiptId) =>
      Frame("RECEIPT", Entry("receipt-id", Some(receiptId)), None)
    case Disconnect =>
      Frame("DISCONNECT", [], None)
  }

  // ------------------------------------------------------------------ parse

  /** The value of a mandatory header, or ProtocolError(`missing`). */
  function Require(h: Headers, k: string, missing: string): (r: Result<string>)
    ensures r.Ok? <==> k in KeysOf(h)
    ensures r.Ok? ==> Lookup(h, k) == Some(r.value)
    ensures r.Err? ==> r.error == ProtocolError(missing)
  {
    match Lookup(h, k)
    case Some(v) => Ok(v)
    case None => Err(ProtocolError(missing))
  }

  function ParseStomp(h: Headers): (r: Result<Msg>)
    ensures "host" !in KeysOf(h) ==> r == Err(ProtocolError("missing host in STOMP"))
    ensures "host" in KeysOf(h) && "accept-version" !in KeysOf(h) ==>
              r == Err(ProtocolError("missing accept-version in STOMP"))
    ensures r.Ok? <==> {"host", "accept-version"} <= KeysOf(h)
    ensures r.Ok? ==> r.value.Stomp? && forall k :: k in AllowedKeys("STOMP") ==> HeaderValue(r.value, k) == Lookup(h, k)
  {
    var host :- Require(h, "host", "missing host in STOMP");
    var acceptVersion :- Require(h, "accept-version", "missing accept-version in STOMP");
    Ok(Stomp(host, acceptVersion))
  }

  function ParseConnect(h: Headers): (r: Result<Msg>)
    ensures r.Ok? <==> "host" in KeysOf(h)
    ensures r.Err? ==> r.error == ProtocolError("missing host in CONNECT")
    ensures r.Ok? ==> r.value.Connect? && forall k :: k in AllowedKeys("CONNECT") ==> HeaderValue(r.value, k) == Lookup(h, k)
  {
    var host :- Require(h, "host", "missing host in CONNECT");
    Ok(Connect(host, Lookup(h, "accept-version")))
  }

  function ParseConnected(h: Headers): (r: Result<Msg>)
    ensures r.Ok? <==> "version" in KeysOf(h)
    ensures r.Err? ==> r.error == ProtocolError("missing version in CONNECTED")
    ensures r.Ok? ==> r.value.Connected? && Lookup(h, "version") == Some(r.value.version)
  {
    var version :- Require(h, "version", "missing version in CONNECTED");
    Ok(Connected(version))
  }

  /** SEND: a missing destination is reported before a missing body; an empty
      body is accepted, only an absent one is refused. */
  function ParseSend(h: Headers, body: Option<string>): (r: Result<Msg>)
    ensures "destination" !in KeysOf(h) ==> r == Err(ProtocolError("missing destination in SEND"))
    ensures "destination" in KeysOf(h) && body == None ==> r == Err(ProtocolError("missing body in SEND"))
    ensures r.Ok? <==> "destination" in KeysOf(h) && body.Some?
    ensures r.Ok? ==> r.value.Send? && Some(r.value.body) == body
                      && forall k :: k in AllowedKeys("SEND") ==> HeaderValue(r.value, k) == Lookup(h, k)
  {
    var destination :- Require(h, "destination", "missing destination in SEND");
    var receipt := Lookup(h, "receipt");
    if body.None? then Err(ProtocolError("missing body in SEND"))
    else Ok(Send(destination, body.value, receipt))
  }

  /** ERROR never fails: every header and the body are optional. */
  function ParseError(h: Headers, body: Option<string>): (r: Msg)
    ensures r.Error? && r.errBody == body
    ensures forall k :: k in AllowedKeys("ERROR") ==> HeaderValue(r, k) == Lookup(h, k)
  {
    Error(Lookup(h, "message"), Lookup(h, "receipt-id"), body)
  }

  function ParseReceipt(h: Headers): (r: Result<Msg>)
    ensures r.Ok? <==> "receipt-id" in KeysOf(h)
    ensures r.Err? ==> r.error == ProtocolError("missing receipt-id in RECEIPT")
    ensures r.Ok? ==> r.value.Receipt? && Lookup(h, "receipt-id") == Some(r.value.receiptId)
  {
    var receiptId :- Require(h, "receipt-id", "missing receipt-id in RECEIPT");
    Ok(Receipt(receiptId))
  }

  /** The `parse` of the class registered for `command`. */
  function Parse(command: string, h: Headers, body: Option<string>): (r: Result<Msg>)
    requires command in ParsableCommands
    ensures r.Ok? <==> MandatoryKeys(command) <= KeysOf(h) && (command == "SEND" ==> body.Some?)
    ensures r.Ok? ==> Command(r.value) == command
    ensures r.Ok? ==> forall k :: k in AllowedKeys(command) ==> HeaderValue(r.value, k) == Lookup(h, k)
    ensures r.Ok? && CarriesBody(command) ==> BodyOf(r.value) == body
  {
    match command
    case "STOMP" => ParseStomp(h)
    case "CONNECT" => ParseConnect(h)
    case "CONNECTED" => ParseConnected(h)
    case "SEND" => ParseSend(h, body)
    case "ERROR" => Ok(ParseError(h, body))
    case "RECEIPT" => ParseReceipt(h)
  }

  // ----------------------------------------------------------- round trips

  /** Two messages of one type that agree on every header and on the body are
      the same message: the fields are exactly what marshal projects. */
  lemma FieldsDetermineMessage(a: Msg, b: Msg)
    requires Command(a) == Command(b)
    requires forall k :: k in AllowedKeys(Command(a)) ==> HeaderValue(a, k) == HeaderValue(b, k)
    requires BodyOf(a) == BodyOf(b)
    ensures a == b
  {
    match a
    case Stomp(_, _) =>
      assert HeaderValue(a, "host") == HeaderValue(b, "host");
      assert HeaderValue(a, "accept-version") == HeaderValue(b, "accept-version");
    case Connect(_, _) =>
      assert HeaderValue(a, "host") == HeaderValue(b, "host");
      assert HeaderValue(a, "accept-version") == HeaderValue(b, "accept-version");
    case Connected(_) =>
      assert HeaderValue(a, "version") == HeaderValue(b, "version");
    case Send(_, _, _) =>
      assert HeaderValue(a, "destination") == HeaderValue(b, "destination");
      assert HeaderValue(a, "receipt") == HeaderValue(b, "receipt");
    case Error(_, _, _) =>
      assert HeaderValue(a, "message") == HeaderValue(b, "message");
      assert HeaderValue(a, "receipt-id") == HeaderValue(b, "receipt-id");
    case Receipt(_) =>
      assert HeaderValue(a, "receipt-id") == HeaderValue(b, "receipt-id");
    case Disconnect =>
  }

  /** parse(marshal(m)) == m for every variant that has a parse. */
  lemma ParseMarshal(m: Msg)
    requires !m.Disconnect?
    ensures var f := Marshal(m); Parse(f.command, f.headers, f.body) == Ok(m)
  {
    var f := Marshal(m);
    var r := Parse(f.command, f.headers, f.body);
    assert r.Ok?;
    FieldsDetermineMessage(r.value, m);
  }

  /** marshal(parse(h, b)) == [command, h, b] when h holds a permitted set of
      that command's headers, all mandatory ones included, and b is what the
      variant stores (nothing for the header-only variants). */
  lemma MarshalParse(command: string, h: Headers, body: Option<string>)
    requires command in ParsableCommands
    requires MandatoryKeys(command) <= KeysOf(h) <= AllowedKeys(command)
    requires if CarriesBody(command) then (command == "SEND" ==> body.Some?) else body == None
    ensures Parse(command, h, body).Ok?
    ensures var f := Marshal(Parse(command, h, body).value);
            f.command == command && SameHeaders(f.headers, h) && f.body == body
  {
    var m := Parse(command, h, body).value;
    var f := Marshal(m);
    forall k ensures Lookup(f.headers, k) == Lookup(h, k) {
      if k !in AllowedKeys(command) {
        assert k !in KeysOf(h);
        assert k !in KeysOf(f.headers);
      }
    }
  }

  /** Built without an accept-version, CONNECT defaults to "1.2" and marshals
      both headers; built with None, it marshals only `host`. */
  lemma ConnectDefaults(host: string)
    ensures Marshal(Connect(host, Some(DefaultAcceptVersion))).headers
            == [("host", host), ("accept-version", "1.2")]
    ensures Marshal(Connect(host, None)).headers == [("host", host)]
  {
    assert Entry("host", Some(host)) == [("host", host)];
  }

  // ----------------------------------------------------- serialization cache

  /** A message object: immutable declared fields plus the private
      `_serialized` cache. */
  class Message {
    const fields: Msg
    var serialized: Option<Frame>
    /** How often `marshal` has run for this object. */
    ghost var marshalCount: nat

    /** A filled cache always holds the marshalled fields. */
    ghost predicate Valid()
      reads this
    {
      serialized.Some? ==> serialized.value == Marshal(fields)
    }

    constructor (m: Msg)
      ensures Valid()
      ensures fields == m && serialized == None && marshalCount == 0
    {
      fields := m;
      serialized := None;
      marshalCount := 0;
    }

    /** Returns the cached triple, marshalling only when the cache is empty. */
    method Serialize() returns (f: Frame)
      requires Valid()
      modifies this
      ensures Valid()
      ensures f == Marshal(fields) && serialized == Some(f)
      ensures old(serialized).Some? ==> f == old(serialized).value && marshalCount == old(marshalCount)
      ensures old(serialized).None? ==> marshalCount == old(marshalCount) + 1
    {
      if serialized.None? {
        serialized := Some(Marshal(fields));
        marshalCount := marshalCount + 1;
      }
      f := serialized.value;
    }

    method Uncache()
      modifies this
      ensures Valid()
      ensures serialized == None && marshalCount == old(marshalCount)
    {
      serialized := None;
    }

    /** Attribute-wise equality that skips the cache. */
    method Equals(other: Message) returns (eq: bool)
      ensures eq <==> fields == other.fields
    {
      eq := fields == other.fields;
    }
  }
}
