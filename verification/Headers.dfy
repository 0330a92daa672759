/** The MCP header mirror against header validation (crates/imbh-mcp/src/proxy.rs, lib.rs, json.rs). */
module Headers {
  import opened Basics
  import Base64
  import Utf8

  /** A JSON value; a number is known by its text. */
  datatype Value =
    | Null
    | Bool(b: bool)
    | Number(text: string)
    | String(s: string)
    | Array(items: seq<Value>)
    | Object(fields: map<string, Value>)

  const META_VERSION: string := "io.modelcontextprotocol/protocolVersion"
  const LATEST_VERSION: string := "2026-07-28"

  // ----- values in headers

  const PREFIX: string := "=?base64?"
  const SUFFIX: string := "?="

  predicate PlainChar(c: char) {
    '0' <= c <= '9' || 'A' <= c <= 'Z' || 'a' <= c <= 'z' || c == '_' || c == '.' || c == '-'
  }

  predicate Plain(s: string) {
    s != [] && forall c :: c in s ==> PlainChar(c)
  }

  /** `encode_header_value`. */
  function EncodeHeader(s: string): string {
    if Plain(s) then s else PREFIX + Base64.Encode(Utf8.Encode(s)) + SUFFIX
  }

  function StripPrefix(s: string, prefix: string): Option<string> {
    if prefix <= s then Some(s[|prefix|..]) else None
  }

  function StripSuffix(s: string, suffix: string): Option<string> {
    if |suffix| <= |s| && s[|s| - |suffix|..] == suffix then Some(s[..|s| - |suffix|]) else None
  }

  /** `decode_header_value`: `None` for a malformed sentinel. */
  function DecodeHeader(s: string): Option<string> {
    match StripPrefix(s, PREFIX)
    case None => Some(s)
    case Some(rest) =>
      match StripSuffix(rest, SUFFIX)
      case None => Some(s)
      case Some(inner) =>
        match Base64.Decode(inner)
        case None => None
        case Some(bytes) => Utf8.Decode(bytes)
  }

  /** Every string survives the header encoding. */
  lemma DecodeOfEncode(s: string)
    ensures DecodeHeader(EncodeHeader(s)) == Some(s)
  {
    if Plain(s) {
      assert s[0] in s;
      assert PREFIX[0] == '=';
    } else {
      var inner := Base64.Encode(Utf8.Encode(s));
      var text := PREFIX + inner + SUFFIX;
      assert text[..|PREFIX|] == PREFIX && text[|PREFIX|..] == inner + SUFFIX;
      var rest := inner + SUFFIX;
      assert rest[|rest| - |SUFFIX|..] == SUFFIX && rest[..|rest| - |SUFFIX|] == inner;
      Base64.DecodeOfEncode(Utf8.Encode(s));
      Utf8.DecodeOfEncode(s);
    }
  }

  // ----- what a header line carries

  predicate Blank(c: char) { c == ' ' || c == '\t' }

  /** A character that cannot stand in a header line. */
  predicate Control(c: char) { (c as int < 0x20 && c != '\t') || c as int == 0x7F }

  predicate Ascii(c: char) { c as int < 0x80 }

  function TrimLeft(s: string): string {
    if s != [] && Blank(s[0]) then TrimLeft(s[1..]) else s
  }

  function TrimRight(s: string): string {
    if s != [] && Blank(s[|s| - 1]) then TrimRight(s[..|s| - 1]) else s
  }

  /** What becomes of a header value written on the wire as it is: it arrives without the blanks at its
      ends; it arrives but is no readable text; or it leaves no header line. */
  datatype Carriage = Arrives(text: string) | Unreadable | Breaks

  function Carried(value: string): Carriage {
    if exists i :: 0 <= i < |value| && Control(value[i]) then Breaks
    else if exists i :: 0 <= i < |value| && !Ascii(value[i]) then Unreadable
    else Arrives(TrimRight(TrimLeft(value)))
  }

  predicate VisibleEnds(s: string) {
    s == [] || (!Blank(s[0]) && !Blank(s[|s| - 1]))
  }

  /** Printable ASCII and tabs, with no blank at either end. */
  predicate Visible(s: string) {
    VisibleEnds(s) && forall i :: 0 <= i < |s| ==> Ascii(s[i]) && !Control(s[i])
  }

  lemma {:induction false} TrimLeftShrinks(s: string)
    ensures |TrimLeft(s)| <= |s| && (|TrimLeft(s)| == |s| ==> s == [] || !Blank(s[0]))
  {
    if s != [] && Blank(s[0]) {
      TrimLeftShrinks(s[1..]);
    }
  }

  lemma {:induction false} TrimRightShrinks(s: string)
    ensures |TrimRight(s)| <= |s| && (|TrimRight(s)| == |s| ==> s == [] || !Blank(s[|s| - 1]))
  {
    if s != [] && Blank(s[|s| - 1]) {
      TrimRightShrinks(s[..|s| - 1]);
    }
  }

  /** A value arrives unchanged exactly when it is visible. */
  lemma {:induction false} CarriedUnchangedIff(value: string)
    ensures Carried(value) == Arrives(value) <==> Visible(value)
  {
    TrimLeftShrinks(value);
    TrimRightShrinks(TrimLeft(value));
  }

  /** Every string, once encoded, travels unchanged. */
  lemma {:induction false} EncodedIsCarried(s: string)
    ensures Carried(EncodeHeader(s)) == Arrives(EncodeHeader(s))
  {
    CarriedUnchangedIff(EncodeHeader(s));
    if Plain(s) {
      assert forall i :: 0 <= i < |s| ==> s[i] in s;
    } else {
      Base64.EncodeSymbols(Utf8.Encode(s));
    }
  }

  // ----- reading a message

  function Get(v: Value, name: string): Option<Value> {
    if v.Object? && name in v.fields then Some(v.fields[name]) else None
  }

  /** A member that is there and not null. */
  function Present(v: Option<Value>, name: string): Option<Value> {
    match v
    case None => None
    case Some(o) =>
      match Get(o, name)
      case None => None
      case Some(x) => if x.Null? then None else Some(x)
  }

  function AsString(v: Option<Value>): Option<string> {
    if v.Some? && v.value.String? then Some(v.value.s) else None
  }

  function Member(v: Option<Value>, name: string): Option<Value> {
    match v
    case None => None
    case Some(o) => Get(o, name)
  }

  /** The version a modern message declares in `params._meta`. */
  function Declared(message: Value): Option<string> {
    AsString(Member(Present(Present(Some(message), "params"), "_meta"), META_VERSION))
  }

  function Method(message: Value): Option<string> {
    AsString(Present(Some(message), "method"))
  }

  function ToolName(message: Value): Option<Value> {
    Present(Present(Some(message), "params"), "name")
  }

  // ----- the proxy's side

  datatype Header = Header(name: string, value: string)

  /** `mirror`. It reads the message on its own terms: nulls are filtered per parameter only. */
  function Mirror(message: Value): seq<Header> {
    var params := Get(message, "params");
    match AsString(Member(Present(params, "_meta"), META_VERSION))
    case None => []
    case Some(version) =>
      match AsString(Get(message, "method"))
      case None => []
      case Some(verb) =>
        [Header("MCP-Protocol-Version", version), Header("Mcp-Method", verb)]
          + match AsString(Present(params, "name"))
            case Some(name) => if verb == "tools/call" then [Header("Mcp-Name", EncodeHeader(name))] else []
            case None => []
  }

  // ----- the daemon's side

  datatype Received = Received(version: Option<string>, verb: Option<string>, name: Option<string>)

  datatype Transport = Http(headers: Received) | Stdio

  function Lookup(headers: seq<Header>, name: string): Option<string> {
    if headers == [] then None
    else if headers[0].name == name then Some(headers[0].value)
    else Lookup(headers[1..], name)
  }

  /** `to_str` on a header that arrived. */
  function Readable(value: Option<string>): Option<string> {
    if value.Some? && Carried(value.value).Arrives? then Some(Carried(value.value).text) else None
  }

  function Receive(headers: seq<Header>): Received {
    Received(
      Readable(Lookup(headers, "MCP-Protocol-Version")),
      Readable(Lookup(headers, "Mcp-Method")),
      Readable(Lookup(headers, "Mcp-Name")))
  }

  datatype Refusal = HeaderMismatch | UnsupportedVersion

  predicate HeadersAgree(verb: string, declared: Option<string>, name: Option<Value>, h: Received) {
    && h.version.Some? && h.version == declared
    && h.verb == Some(verb)
    && (verb == "tools/call" ==>
          && h.name.Some?
          && DecodeHeader(h.name.value) == Some(if AsString(name).Some? then AsString(name).value else ""))
  }

  /** `validate_modern`; `None` lets the message through. */
  function Validate(verb: string, declared: Option<string>, name: Option<Value>, t: Transport): Option<Refusal> {
    if t.Http? && verb != "server/discover" && !HeadersAgree(verb, declared, name, t.headers) then Some(HeaderMismatch)
    else
      var requested := if declared.Some? then declared else if t.Http? then t.headers.version else None;
      if requested == Some(LATEST_VERSION) then None
      else if requested.None? && verb == "server/discover" then None
      else Some(UnsupportedVersion)
  }

  datatype Outcome = Unframed | NotAnObject | NoMethod | Accepted | Refused(why: Refusal) | Dispatched

  /** The first part of `handle_with`, up to the dispatch on the method. */
  function Handle(message: Value, t: Transport): Outcome {
    if !message.Object? then NotAnObject
    else
      var id := Present(Some(message), "id");
      match Method(message)
      case None => if id.Some? then NoMethod else Accepted
      case Some(verb) =>
        var modern := Declared(message).Some? || verb == "server/discover";
        if id.None? then Accepted
        else if modern then
          match Validate(verb, Declared(message), ToolName(message), t)
          case Some(why) => Refused(why)
          case None => Dispatched
        else Dispatched
  }

  /** `post`, and the daemon at the other end. A control character in a value leaves a head that is no
      longer this list of headers. */
  function Send(message: Value): Outcome {
    var headers := Mirror(message);
    if exists i :: 0 <= i < |headers| && Carried(headers[i].value) == Breaks then Unframed
    else Handle(message, Http(Receive(headers)))
  }

  // ----- the two sides agree

  lemma SameReading(message: Value)
    ensures AsString(Member(Present(Get(message, "params"), "_meta"), META_VERSION)) == Declared(message)
    ensures AsString(Get(message, "method")) == Method(message)
    ensures AsString(Present(Get(message, "params"), "name")) == AsString(ToolName(message))
  {
  }

  /** A request that declares a version and a method: the headers say both. */
  predicate Declares(message: Value, version: string, verb: string) {
    Declared(message) == Some(version) && Method(message) == Some(verb)
  }

  predicate Nameless(message: Value) {
    Method(message) == Some("tools/call") && AsString(ToolName(message)).None?
  }

  lemma MirroredHeaders(message: Value, version: string, verb: string)
    requires Declares(message, version, verb)
    ensures Receive(Mirror(message)) == Received(
      Readable(Some(version)),
      Readable(Some(verb)),
      if verb == "tools/call" && !Nameless(message) then Some(EncodeHeader(AsString(ToolName(message)).value))
        else None)
    ensures (exists i :: 0 <= i < |Mirror(message)| && Carried(Mirror(message)[i].value) == Breaks) <==>
      Carried(version) == Breaks || Carried(verb) == Breaks
  {
    SameReading(message);
    var h := Mirror(message);
    assert h[0] == Header("MCP-Protocol-Version", version) && h[1] == Header("Mcp-Method", verb);
    if |h| == 3 {
      EncodedIsCarried(AsString(ToolName(message)).value);
      LookupThree(h[0], h[1], h[2]);
      assert h == [h[0], h[1], h[2]];
    } else {
      LookupTwo(h[0], h[1]);
      assert h == [h[0], h[1]];
    }
  }

  lemma LookupTwo(a: Header, b: Header)
    requires a.name == "MCP-Protocol-Version" && b.name == "Mcp-Method"
    ensures Receive([a, b]) == Received(Readable(Some(a.value)), Readable(Some(b.value)), None)
  {
    assert |a.name| == 20 && |b.name| == 10 && |"Mcp-Name"| == 8;
    assert [a, b][1..] == [b] && [b][1..] == [];
    assert Lookup([b], "Mcp-Method") == Some(b.value);
    assert Lookup([], "Mcp-Name") == None && Lookup([b], "Mcp-Name") == None;
  }

  lemma LookupThree(a: Header, b: Header, c: Header)
    requires a.name == "MCP-Protocol-Version" && b.name == "Mcp-Method" && c.name == "Mcp-Name"
    ensures Receive([a, b, c]) == Received(Readable(Some(a.value)), Readable(Some(b.value)), Readable(Some(c.value)))
  {
    assert |a.name| == 20 && |b.name| == 10 && |c.name| == 8;
    assert [a, b, c][1..] == [b, c] && [b, c][1..] == [c];
    assert Lookup([b, c], "Mcp-Method") == Some(b.value);
    assert Lookup([c], "Mcp-Name") == Some(c.value) && Lookup([b, c], "Mcp-Name") == Some(c.value);
  }

  /** The headers a message arrives with agree with it exactly when its version and method travel
      unchanged and a `tools/call` names its tool by a string. */
  lemma MirrorAgreesIff(message: Value, version: string, verb: string)
    requires Declares(message, version, verb)
    ensures HeadersAgree(verb, Some(version), ToolName(message), Receive(Mirror(message))) <==>
      Visible(version) && Visible(verb) && !Nameless(message)
  {
    MirroredHeaders(message, version, verb);
    CarriedUnchangedIff(version);
    CarriedUnchangedIff(verb);
    if AsString(ToolName(message)).Some? {
      DecodeOfEncode(AsString(ToolName(message)).value);
    }
  }

  /** A request, as opposed to a notification, that selects the modern era and names a method. */
  predicate ModernRequest(message: Value) {
    && message.Object? && Present(Some(message), "id").Some?
    && Declared(message).Some? && Method(message).Some?
  }

  /** Neither value breaks its header line. */
  predicate Framed(message: Value)
    requires ModernRequest(message)
  {
    Carried(Declared(message).value) != Breaks && Carried(Method(message).value) != Breaks
  }

  /** The mirror is sound for this request: what it says arrives and is what validation wants. */
  predicate Mirrorable(message: Value)
    requires ModernRequest(message)
  {
    Visible(Declared(message).value) && Visible(Method(message).value) && !Nameless(message)
  }

  /** What becomes of a modern request sent through the proxy. */
  lemma ModernOutcome(message: Value)
    requires ModernRequest(message)
    ensures Send(message) ==
      if !Framed(message) then Unframed
      else if Method(message) != Some("server/discover") && !Mirrorable(message) then Refused(HeaderMismatch)
      else if Declared(message) == Some(LATEST_VERSION) then Dispatched
      else Refused(UnsupportedVersion)
  {
    var version, verb := Declared(message).value, Method(message).value;
    MirroredHeaders(message, version, verb);
    MirrorAgreesIff(message, version, verb);
    assert Send(message) == if !Framed(message) then Unframed else Handle(message, Http(Receive(Mirror(message))));
  }

  /** Nothing else is refused by header validation: a legacy request, and `server/discover` without a
      version, are dispatched, and a notification is accepted if it can be framed. */
  lemma OtherOutcome(message: Value)
    requires !ModernRequest(message)
    ensures match Send(message)
      case Unframed => Declared(message).Some? && Method(message).Some? && Present(Some(message), "id").None?
      case NotAnObject => !message.Object?
      case NoMethod => message.Object? && Present(Some(message), "id").Some? && Method(message).None?
      case Accepted => message.Object? && Present(Some(message), "id").None?
      case Refused(_) => false
      case Dispatched => Present(Some(message), "id").Some? && Method(message).Some? && Declared(message).None?
  {
    SameReading(message);
    if Declared(message).None? || Method(message).None? {
      assert Mirror(message) == [];
    }
  }

  /** A missing or null id makes a notification, whatever it asks for: it is accepted without an answer. */
  lemma NullIdIsANotification(fields: map<string, Value>, t: Transport)
    requires "id" in fields ==> fields["id"] == Null
    ensures Handle(Object(fields), t) == Accepted
  {
  }

  /** Whatever headers arrive: a modern request other than `server/discover` is dispatched exactly when it
      declares the supported version and the headers say its version, its method and, for a `tools/call`,
      the name of its tool, encoded or plain. */
  lemma DispatchedIff(message: Value, h: Received)
    requires ModernRequest(message) && Method(message) != Some("server/discover")
    ensures Handle(message, Http(h)) == Dispatched <==>
      && Declared(message) == Some(LATEST_VERSION) == h.version && h.verb == Method(message)
      && (Method(message) == Some("tools/call") ==>
            && h.name.Some?
            && DecodeHeader(h.name.value) == Some(if Nameless(message) then "" else AsString(ToolName(message)).value))
  {
  }

  /** Header mirror soundness, exactly: a message sent with the headers derived from it is refused for a
      header mismatch iff it is a modern request, not `server/discover`, whose version or method is not
      visible ASCII text, or a `tools/call` that names no tool by a string. */
  lemma MirrorMismatchIff(message: Value)
    ensures Send(message) == Refused(HeaderMismatch) <==>
      && ModernRequest(message) && Framed(message)
      && Method(message) != Some("server/discover") && !Mirrorable(message)
  {
    if ModernRequest(message) {
      ModernOutcome(message);
    } else {
      OtherOutcome(message);
    }
  }

  /** It is refused for its version iff the headers pass and it declares another one. */
  lemma MirrorVersionIff(message: Value)
    ensures Send(message) == Refused(UnsupportedVersion) <==>
      && ModernRequest(message) && Framed(message) && Declared(message) != Some(LATEST_VERSION)
      && (Method(message) == Some("server/discover") || Mirrorable(message))
  {
    if ModernRequest(message) {
      ModernOutcome(message);
    } else {
      OtherOutcome(message);
    }
  }

  // ----- requests that are refused

  /** A modern request with nothing but a version and a method. */
  function Bare(version: string, verb: string): Value {
    var meta := Object(map[META_VERSION := String(version)]);
    Object(map["id" := Number("1"), "method" := String(verb), "params" := Object(map["_meta" := meta])])
  }

  lemma BareIsModern(version: string, verb: string)
    ensures ModernRequest(Bare(version, verb)) && Declares(Bare(version, verb), version, verb)
    ensures AsString(ToolName(Bare(version, verb))).None?
  {
    var meta := Object(map[META_VERSION := String(version)]);
    var params := Object(map["_meta" := meta]);
    assert Get(Bare(version, verb), "params") == Some(params);
    assert Get(params, "_meta") == Some(meta) && Get(params, "name") == None;
  }

  /** When such a request is refused for a mismatch. */
  lemma {:induction false} BareIsRefused(version: string, verb: string)
    requires Carried(version) != Breaks && Carried(verb) != Breaks && verb != "server/discover"
    requires !Visible(version) || !Visible(verb) || verb == "tools/call"
    ensures Send(Bare(version, verb)) == Refused(HeaderMismatch)
  {
    BareIsModern(version, verb);
    MirrorMismatchIff(Bare(version, verb));
  }

  lemma {:induction false} VisibleIsFramed(s: string)
    requires forall i :: 0 <= i < |s| ==> !Control(s[i])
    ensures Carried(s) != Breaks
  {
  }

  /** A method outside ASCII arrives unread, even under the supported version. */
  lemma {:induction false} UnreadMethodIsRefused(version: string, verb: string)
    requires version == LATEST_VERSION && verb == ['é']
    ensures Send(Bare(version, verb)) == Refused(HeaderMismatch)
  {
    VisibleIsFramed(version);
    VisibleIsFramed(verb);
    assert !Ascii(verb[0]);
    assert |verb| != |"server/discover"|;
    BareIsRefused(version, verb);
  }

  /** A blank at the end of a value is lost on the way. */
  lemma {:induction false} TrimmedVersionIsRefused(version: string, verb: string)
    requires version == LATEST_VERSION + " " && Visible(verb) && verb != "server/discover"
    ensures Send(Bare(version, verb)) == Refused(HeaderMismatch)
  {
    VisibleIsFramed(version);
    VisibleIsFramed(verb);
    assert Blank(version[|version| - 1]);
    BareIsRefused(version, verb);
  }

  /** A call that names no tool has no name header to agree with. */
  lemma {:induction false} NamelessCallIsRefused(version: string, verb: string)
    requires version == LATEST_VERSION && verb == "tools/call"
    ensures Send(Bare(version, verb)) == Refused(HeaderMismatch)
  {
    VisibleIsFramed(version);
    VisibleIsFramed(verb);
    assert |verb| != |"server/discover"|;
    BareIsRefused(version, verb);
  }
}
