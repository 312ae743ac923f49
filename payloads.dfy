/**
 * The RPC documents the session writes to the device: the hello, the
 * configuration operations, lock and unlock, and close-session.  Each
 * builder is the concatenation its StringBuilder performs, and ends with
 * the end-of-message marker of section 4.1 of RFC 4742.  Beside each
 * builder sits a reader that takes the document apart again; the
 * round-trip lemmas show that a document carries exactly the arguments it
 * was built from.  The message-id stamping of sendRequest lives here too.
 */
module Payloads {
  import opened Util
  import opened Text

  const EndPattern := "]]>]]>"
  const NewLine := "\n"
  const MessageIdString := "message-id"
  const HelloString := "hello"

  /** The capability a session advertises until setDeviceCapabilities is called. */
  const BaseCapability := "urn:ietf:params:netconf:base:1.0"
  const DefaultCapabilities: seq<string> := [BaseCapability]

  // ---------------------------------------------------------------------
  // The client hello (createHelloString)
  // ---------------------------------------------------------------------

  const HelloXmlDecl := "<?xml version=\"1.0\" encoding=\"UTF-8\"?>\n"
  /** The namespace of the hello and of every numbered RPC (RFC 6241). */
  const NetconfBaseNamespace := "urn:ietf:params:xml:ns:netconf:base:1.0"
  const HelloOpen := "<hello xmlns=\"" + NetconfBaseNamespace + "\">\n"
  const CapabilitiesOpen := "  <capabilities>\n"
  const CapabilityOpen := "    <capability>"
  const CapabilityClose := "<" + CapabilityCloseRest
  const CapabilityCloseRest := "/capability>\n"
  const CapabilitiesClose := "  </capabilities>\n"
  const HelloClose := "</hello>\n"

  const HelloHead := HelloXmlDecl + HelloOpen + CapabilitiesOpen
  const HelloFoot := CapabilitiesClose + HelloClose + EndPattern

  /** One line of the capability list. */
  function CapabilityLine(cap: string): string {
    CapabilityOpen + cap + CapabilityClose
  }

  /** The capability lines, one per capability, in list order. */
  function CapabilityLines(caps: seq<string>): string {
    if caps == [] then "" else CapabilityLine(caps[0]) + CapabilityLines(caps[1..])
  }

  /** Appending a capability appends its line (the shape of the builder's loop). */
  lemma {:induction false} CapabilityLinesSnoc(caps: seq<string>, cap: string)
    ensures CapabilityLines(caps + [cap]) == CapabilityLines(caps) + CapabilityLine(cap)
  {
    if caps == [] {
      assert [] + [cap] == [cap];
      assert CapabilityLines([cap]) == CapabilityLine(cap) + CapabilityLines([]);
    } else {
      assert (caps + [cap])[1..] == caps[1..] + [cap];
      CapabilityLinesSnoc(caps[1..], cap);
    }
  }

  /** The hello the session sends for its device capabilities. */
  function Hello(caps: seq<string>): (r: string)
    ensures EndsWith(r, EndPattern)
  {
    HelloXmlDecl + HelloOpen + CapabilitiesOpen + CapabilityLines(caps)
      + CapabilitiesClose + HelloClose + EndPattern
  }

  /** No capability may contain the character that opens the closing tag. */
  predicate PlainCapabilities(caps: seq<string>) {
    forall i :: 0 <= i < |caps| ==> '<' !in caps[i]
  }

  /** Reads a list of capability lines back; every list it returns prints as its input. */
  function ParseCapabilityLines(s: string): (r: Option<seq<string>>)
    ensures r.Some? ==> CapabilityLines(r.value) == s && PlainCapabilities(r.value)
    decreases |s|
  {
    if s == [] then Some([])
    else
      match StripPrefix(s, CapabilityOpen)
      case None => None
      case Some(r1) =>
        match SplitAtChar(r1, '<')
        case None => None
        case Some((cap, r2)) =>
          match StripPrefix(r2, CapabilityCloseRest)
          case None => None
          case Some(r3) =>
            match ParseCapabilityLines(r3)
            case None => None
            case Some(caps) =>
              LinesCons(cap, caps);
              LineOfParts(cap, r3);
              PlainCons(cap, caps);
              Some([cap] + caps)
  }

  /** The lines of a non-empty list are its first line and the rest. */
  lemma LinesCons(cap: string, caps: seq<string>)
    ensures CapabilityLines([cap] + caps) == CapabilityLine(cap) + CapabilityLines(caps)
  {
    assert ([cap] + caps)[1..] == caps;
  }

  /** A capability line split at the character that opens its closing tag. */
  lemma LineOfParts(cap: string, rest: string)
    ensures CapabilityLine(cap) + rest == CapabilityOpen + (cap + ['<'] + (CapabilityCloseRest + rest))
  {
    RegroupLine(CapabilityOpen, cap, CapabilityCloseRest, rest);
  }

  lemma PlainCons(cap: string, caps: seq<string>)
    requires '<' !in cap && PlainCapabilities(caps)
    ensures PlainCapabilities([cap] + caps)
  {
    forall i | 0 <= i < |[cap] + caps| ensures '<' !in ([cap] + caps)[i] {
      if i > 0 { assert ([cap] + caps)[i] == caps[i - 1]; }
    }
  }

  /** Capability lines are read back as the capabilities they list. */
  lemma {:induction false} ParseCapabilityLinesOf(caps: seq<string>)
    requires PlainCapabilities(caps)
    ensures ParseCapabilityLines(CapabilityLines(caps)) == Some(caps)
  {
    if caps != [] {
      var c, rest := caps[0], CapabilityLines(caps[1..]);
      var tail := CapabilityCloseRest;
      assert [c] + caps[1..] == caps;
      LinesCons(c, caps[1..]);
      LineOfParts(c, rest);
      StripPrefixConcat(CapabilityOpen, c + ['<'] + (tail + rest));
      SplitAtCharConcat(c, '<', tail + rest);
      StripPrefixConcat(tail, rest);
      ParseCapabilityLinesOf(caps[1..]);
      assert [c] + caps[1..] == caps;
    }
  }

  /** The capabilities a hello advertises, if the text is a client hello. */
  function HelloCapabilities(msg: string): Option<seq<string>> {
    match StripPrefix(msg, HelloHead)
    case None => None
    case Some(r) =>
      match StripSuffix(r, HelloFoot)
      case None => None
      case Some(lines) => ParseCapabilityLines(lines)
  }

  /** A hello is its fixed head, its capability lines and its fixed foot. */
  lemma HelloInParts(caps: seq<string>)
    ensures Hello(caps) == HelloHead + (CapabilityLines(caps) + HelloFoot)
  {
    RegroupHelloParts(HelloXmlDecl, HelloOpen, CapabilitiesOpen, CapabilityLines(caps),
      CapabilitiesClose, HelloClose, EndPattern);
  }

  /** The hello lists exactly the device capabilities, one per line, in order. */
  lemma HelloListsCapabilities(caps: seq<string>)
    requires PlainCapabilities(caps)
    ensures HelloCapabilities(Hello(caps)) == Some(caps)
  {
    var lines := CapabilityLines(caps);
    HelloInParts(caps);
    StripPrefixConcat(HelloHead, lines + HelloFoot);
    StripSuffixConcat(lines, HelloFoot);
    ParseCapabilityLinesOf(caps);
  }

  /** A text read as a hello is the hello of the capabilities read from it. */
  lemma HelloCapabilitiesSound(msg: string)
    requires HelloCapabilities(msg).Some?
    ensures msg == Hello(HelloCapabilities(msg).value)
  {
    var r := StripPrefix(msg, HelloHead).value;
    var lines := StripSuffix(r, HelloFoot).value;
    var caps := ParseCapabilityLines(lines).value;
    assert CapabilityLines(caps) == lines;
    HelloInParts(caps);
  }

  /** The default hello advertises the base capability alone. */
  lemma DefaultHello()
    ensures HelloCapabilities(Hello(DefaultCapabilities)) == Some([BaseCapability])
  {
    assert PlainCapabilities(DefaultCapabilities);
    HelloListsCapabilities(DefaultCapabilities);
  }

  // ---------------------------------------------------------------------
  // Pieces shared by the RPC builders
  // ---------------------------------------------------------------------

  /** The XML declaration every RPC starts with, kept in three parts for the proofs about `">`. */
  const XmlDeclVersion := "<?xml version=\"1.0\" "
  const XmlDeclEncoding := "encoding=\"UTF-8\""
  const XmlDeclEnd := "?>"
  const XmlDecl := XmlDeclVersion + XmlDeclEncoding + XmlDeclEnd
  const RpcIdOpen := RpcTagOpen + IdAttribute
  const RpcTagOpen := "<rpc "
  const RpcIdClose := "\"  " + "xmlns=\"" + NetconfBaseNamespace + "\">\n"

  /** The declaration and the `rpc` start tag carrying message-id `id` (getConfig, editConfig). */
  function RpcHeader(id: nat): string {
    XmlDecl + RpcIdOpen + NatToString(id) + RpcIdClose
  }

  /** Reads an RPC header: the message id it carries and the text after it. */
  function ReadRpcHeader(msg: string): Option<(nat, string)> {
    match StripPrefix(msg, XmlDecl + RpcIdOpen)
    case None => None
    case Some(r1) =>
      match SplitAtChar(r1, '"')
      case None => None
      case Some((digits, r2)) =>
        if forall k :: 0 <= k < |digits| ==> IsDigit(digits[k]) then
          match StripPrefix(r2, RpcIdClose[1..])
          case None => None
          case Some(rest) => Some((DigitsValue(digits), rest))
        else None
  }

  /** The decimal form of a number has no quote in it. */
  lemma NoQuoteInNumber(n: nat)
    ensures '"' !in NatToString(n)
  {
    NoQuoteInDigits(NatToString(n));
  }

  /** A header is read back as the message id it was built with. */
  lemma ReadRpcHeaderOf(id: nat, rest: string)
    ensures ReadRpcHeader(RpcHeader(id) + rest) == Some((id, rest))
  {
    var n, tail := NatToString(id), RpcIdClose[1..];
    assert RpcIdClose == ['"'] + tail;
    NoQuoteInNumber(id);
    assert RpcHeader(id) + rest == (XmlDecl + RpcIdOpen) + (n + ['"'] + (tail + rest));
    StripPrefixConcat(XmlDecl + RpcIdOpen, n + ['"'] + (tail + rest));
    SplitAtCharConcat(n, '"', tail + rest);
    StripPrefixConcat(tail, rest);
    DigitsValueOfNatToString(id);
  }

  /** The empty element `<t/>` naming a datastore. */
  function DatastoreElement(t: string): string {
    "<" + t + "/>"
  }

  /** Reads a datastore element: its name and the text after it. */
  function ReadDatastoreElement(s: string): Option<(string, string)> {
    match StripPrefix(s, "<")
    case None => None
    case Some(r1) =>
      match SplitAtChar(r1, '/')
      case None => None
      case Some((t, r2)) =>
        match StripPrefix(r2, ">")
        case None => None
        case Some(rest) => Some((t, rest))
  }

  /** A datastore element is read back as its name, if the name has no slash. */
  lemma ReadDatastoreElementOf(t: string, rest: string)
    requires '/' !in t
    ensures ReadDatastoreElement(DatastoreElement(t) + rest) == Some((t, rest))
  {
    assert DatastoreElement(t) + rest == "<" + (t + ['/'] + (">" + rest));
    StripPrefixConcat("<", t + ['/'] + (">" + rest));
    SplitAtCharConcat(t, '/', ">" + rest);
    StripPrefixConcat(">", rest);
  }

  // ---------------------------------------------------------------------
  // get-config (getConfig)
  // ---------------------------------------------------------------------

  const FilterOpen := "<filter type=\"subtree\">\n"
  const FilterClose := "</filter>\n"
  const GetConfigOpen := "<get-config>\n" + "<source>\n"
  const GetConfigFoot := "</get-config>\n" + "</rpc>\n" + EndPattern

  /** The subtree filter, present exactly when a schema is given. */
  function SubtreeFilter(schema: Option<string>): string {
    match schema
    case None => ""
    case Some(s) => FilterOpen + s + NewLine + FilterClose
  }

  /** What follows the header of a get-config: the source datastore and the optional filter. */
  function GetConfigBody(target: string, schema: Option<string>): string {
    GetConfigOpen + DatastoreElement(target) + "</source>" + SubtreeFilter(schema) + GetConfigFoot
  }

  /** The get-config RPC for datastore `target`, filtered by `schema` when there is one. */
  function GetConfigRpc(id: nat, target: string, schema: Option<string>): (r: string)
    ensures EndsWith(r, EndPattern)
  {
    RpcHeader(id) + GetConfigBody(target, schema)
  }

  /** Reads the filter part of a get-config: nothing, or one subtree filter. */
  function ReadSubtreeFilter(s: string): Option<Option<string>> {
    if s == "" then Some(None)
    else
      match StripPrefix(s, FilterOpen)
      case None => None
      case Some(r) =>
        match StripSuffix(r, NewLine + FilterClose)
        case None => None
        case Some(schema) => Some(Some(schema))
  }

  /** Reads the body of a get-config: source datastore and schema. */
  function ReadGetConfigBody(s: string): Option<(string, Option<string>)> {
    match StripPrefix(s, GetConfigOpen)
    case None => None
    case Some(r1) =>
      match ReadDatastoreElement(r1)
      case None => None
      case Some((target, r2)) =>
        match StripPrefix(r2, "</source>")
        case None => None
        case Some(r3) =>
          match StripSuffix(r3, GetConfigFoot)
          case None => None
          case Some(f) =>
            match ReadSubtreeFilter(f)
            case None => None
            case Some(schema) => Some((target, schema))
  }

  /** Reads a get-config RPC: its message id, source datastore and schema. */
  function ReadGetConfig(msg: string): Option<(nat, string, Option<string>)> {
    match ReadRpcHeader(msg)
    case None => None
    case Some((id, body)) =>
      match ReadGetConfigBody(body)
      case None => None
      case Some((target, schema)) => Some((id, target, schema))
  }

  lemma ReadSubtreeFilterOf(schema: Option<string>)
    ensures ReadSubtreeFilter(SubtreeFilter(schema)) == Some(schema)
  {
    if schema.Some? {
      var s := schema.value;
      assert SubtreeFilter(schema) == FilterOpen + (s + (NewLine + FilterClose));
      StripPrefixConcat(FilterOpen, s + (NewLine + FilterClose));
      StripSuffixConcat(s, NewLine + FilterClose);
    }
  }

  lemma ReadGetConfigBodyOf(target: string, schema: Option<string>)
    requires '/' !in target
    ensures ReadGetConfigBody(GetConfigBody(target, schema)) == Some((target, schema))
  {
    var f := SubtreeFilter(schema);
    var r2 := "</source>" + (f + GetConfigFoot);
    var r1 := DatastoreElement(target) + r2;
    assert GetConfigBody(target, schema) == GetConfigOpen + r1;
    StripPrefixConcat(GetConfigOpen, r1);
    ReadDatastoreElementOf(target, r2);
    StripPrefixConcat("</source>", f + GetConfigFoot);
    StripSuffixConcat(f, GetConfigFoot);
    ReadSubtreeFilterOf(schema);
  }

  /**
   * A get-config carries its message id, its source datastore and, exactly
   * when a schema was given, a subtree filter holding that schema.
   */
  lemma GetConfigRoundTrip(id: nat, target: string, schema: Option<string>)
    requires '/' !in target
    ensures ReadGetConfig(GetConfigRpc(id, target, schema)) == Some((id, target, schema))
  {
    ReadRpcHeaderOf(id, GetConfigBody(target, schema));
    ReadGetConfigBodyOf(target, schema);
  }

  // ---------------------------------------------------------------------
  // edit-config (both editConfig overloads) and requestSync framing
  // ---------------------------------------------------------------------

  /** requestSync: the caller's request, a newline and the end-of-message marker. */
  function SyncRequest(request: string): (r: string)
    ensures EndsWith(r, EndPattern) && StartsWith(r, request)
  {
    request + NewLine + EndPattern
  }

  /** The one-argument editConfig: the caller's document followed by the marker. */
  function RawEditConfig(config: string): (r: string)
    ensures EndsWith(r, EndPattern) && StartsWith(r, config)
  {
    config + EndPattern
  }

  const EditConfigOpen := "<edit-config>" + "<target>"
  const DefaultOperationOpen := "</target>" + "<default-operation>"
  const DefaultOperationClose := "</default-operation>" + "<config>"
  const EditConfigFoot := "</config>" + "</edit-config>" + "</rpc>" + EndPattern

  /** What follows the header of an edit-config: target, default operation and configuration. */
  function EditConfigBody(target: string, mode: string, config: string): string {
    EditConfigOpen + DatastoreElement(target) + DefaultOperationOpen + mode
      + DefaultOperationClose + config + EditConfigFoot
  }

  /** The edit-config RPC: target datastore, default operation and the trimmed configuration. */
  function EditConfigRpc(id: nat, target: string, mode: string, config: string): (r: string)
    ensures EndsWith(r, EndPattern)
  {
    RpcHeader(id) + EditConfigBody(target, mode, Trim(config))
  }

  /** Reads the default operation and the configuration that follows it. */
  function ReadDefaultOperation(s: string): Option<(string, string)> {
    match SplitAtChar(s, '<')
    case None => None
    case Some((mode, r1)) =>
      match StripPrefix(r1, DefaultOperationClose[1..])
      case None => None
      case Some(r2) =>
        match StripSuffix(r2, EditConfigFoot)
        case None => None
        case Some(config) => Some((mode, config))
  }

  /** Reads the body of an edit-config: target, default operation and configuration. */
  function ReadEditConfigBody(s: string): Option<(string, string, string)> {
    match StripPrefix(s, EditConfigOpen)
    case None => None
    case Some(r1) =>
      match ReadDatastoreElement(r1)
      case None => None
      case Some((target, r2)) =>
        match StripPrefix(r2, DefaultOperationOpen)
        case None => None
        case Some(r3) =>
          match ReadDefaultOperation(r3)
          case None => None
          case Some((mode, config)) => Some((target, mode, config))
  }

  /** Reads an edit-config RPC: message id, target, default operation and configuration. */
  function ReadEditConfig(msg: string): Option<(nat, string, string, string)> {
    match ReadRpcHeader(msg)
    case None => None
    case Some((id, body)) =>
      match ReadEditConfigBody(body)
      case None => None
      case Some((target, mode, config)) => Some((id, target, mode, config))
  }

  lemma ReadDefaultOperationOf(mode: string, config: string)
    requires '<' !in mode
    ensures ReadDefaultOperation(mode + DefaultOperationClose + config + EditConfigFoot)
         == Some((mode, config))
  {
    var tail := DefaultOperationClose[1..];
    assert DefaultOperationClose == ['<'] + tail;
    var r2 := config + EditConfigFoot;
    assert mode + DefaultOperationClose + config + EditConfigFoot == mode + ['<'] + (tail + r2);
    SplitAtCharConcat(mode, '<', tail + r2);
    StripPrefixConcat(tail, r2);
    StripSuffixConcat(config, EditConfigFoot);
  }

  lemma ReadEditConfigBodyOf(target: string, mode: string, config: string)
    requires '/' !in target && '<' !in mode
    ensures ReadEditConfigBody(EditConfigBody(target, mode, config)) == Some((target, mode, config))
  {
    var r3 := mode + DefaultOperationClose + config + EditConfigFoot;
    var r2 := DefaultOperationOpen + r3;
    var r1 := DatastoreElement(target) + r2;
    RegroupEdit(EditConfigOpen, DatastoreElement(target), DefaultOperationOpen, mode,
      DefaultOperationClose, config, EditConfigFoot);
    assert EditConfigBody(target, mode, config) == EditConfigOpen + r1;
    StripPrefixConcat(EditConfigOpen, r1);
    ReadDatastoreElementOf(target, r2);
    StripPrefixConcat(DefaultOperationOpen, r3);
    ReadDefaultOperationOf(mode, config);
  }

  /**
   * An edit-config carries its message id, target datastore and default
   * operation, and the configuration with surrounding blanks removed.
   */
  lemma EditConfigRoundTrip(id: nat, target: string, mode: string, config: string)
    requires '/' !in target && '<' !in mode
    ensures ReadEditConfig(EditConfigRpc(id, target, mode, config))
         == Some((id, target, mode, Trim(config)))
  {
    ReadRpcHeaderOf(id, EditConfigBody(target, mode, Trim(config)));
    ReadEditConfigBodyOf(target, mode, Trim(config));
  }

  /** Trimming is idempotent, so an edit-config of a trimmed document is the same RPC. */
  lemma EditConfigTrimsOnce(id: nat, target: string, mode: string, config: string)
    ensures EditConfigRpc(id, target, mode, Trim(config)) == EditConfigRpc(id, target, mode, config)
  {
    TrimTrimmed(Trim(config));
  }

  // ---------------------------------------------------------------------
  // copy-config (copyConfig)
  // ---------------------------------------------------------------------

  const ConfigurationOpen := "<configuration>"
  const ConfigurationClose := "</configuration>"

  /** The trimmed configuration, wrapped in `<configuration>` unless it already starts with it. */
  function ConfigurationBody(config: string): string {
    var t := Trim(config);
    if StartsWith(t, ConfigurationOpen) then t else ConfigurationOpen + t + ConfigurationClose
  }

  /** The body always starts with `<configuration>`, and is the trimmed text iff that already did. */
  lemma ConfigurationBodyWraps(config: string)
    ensures StartsWith(ConfigurationBody(config), ConfigurationOpen)
    ensures ConfigurationBody(config) == Trim(config) <==> StartsWith(Trim(config), ConfigurationOpen)
  {
    var t := Trim(config);
    if !StartsWith(t, ConfigurationOpen) {
      StripPrefixConcat(ConfigurationOpen, t + ConfigurationClose);
      assert |ConfigurationBody(config)| > |t|;
    }
  }

  /** Preparing an already prepared body changes nothing. */
  lemma ConfigurationBodyIdempotent(config: string)
    ensures ConfigurationBody(ConfigurationBody(config)) == ConfigurationBody(config)
  {
    var b := ConfigurationBody(config);
    ConfigurationBodyWraps(config);
    assert b[0] == '<';
    if b == Trim(config) {
      TrimTrimmed(Trim(config));
    } else {
      var t := Trim(config);
      assert b == ConfigurationOpen + t + ConfigurationClose;
      assert b[|b| - 1] == ConfigurationClose[|ConfigurationClose| - 1] == '>';
      TrimTrimmed(b);
    }
  }

  const CopyConfigOpen := "<rpc>" + "<copy-config>" + "<target>"
  const CopySourceOpen := "</target>" + "<source>"
  const CopyConfigFoot := "</source>" + "</copy-config>" + "</rpc>" + EndPattern

  /** What follows the declaration of a copy-config whose `<source>` holds `source`. */
  function CopyConfigBody(target: string, source: string): string {
    CopyConfigOpen + DatastoreElement(target) + CopySourceOpen + source + CopyConfigFoot
  }

  /**
   * The copy-config RPC with the prepared body as the content of `<source>`.
   * This corrects the document the source builds (CopyConfigRpcAsWritten).
   */
  function CopyConfigRpc(target: string, config: string): (r: string)
    ensures EndsWith(r, EndPattern)
  {
    XmlDecl + CopyConfigBody(target, ConfigurationBody(config))
  }

  /** The copy-config document as the source writes it: the body inside a `<.../>` element. */
  function CopyConfigRpcAsWritten(target: string, config: string): (r: string)
    ensures EndsWith(r, EndPattern)
  {
    XmlDecl + CopyConfigBody(target, DatastoreElement(ConfigurationBody(config)))
  }

  /** Reads a copy-config RPC: the target datastore and the content of `<source>`. */
  function ReadCopyConfig(msg: string): Option<(string, string)> {
    match StripPrefix(msg, XmlDecl + CopyConfigOpen)
    case None => None
    case Some(r1) =>
      match ReadDatastoreElement(r1)
      case None => None
      case Some((target, r2)) =>
        match StripPrefix(r2, CopySourceOpen)
        case None => None
        case Some(r3) =>
          match StripSuffix(r3, CopyConfigFoot)
          case None => None
          case Some(source) => Some((target, source))
  }

  lemma ReadCopyConfigOf(target: string, source: string)
    requires '/' !in target
    ensures ReadCopyConfig(XmlDecl + CopyConfigBody(target, source)) == Some((target, source))
  {
    var r2 := CopySourceOpen + (source + CopyConfigFoot);
    RegroupCopy(XmlDecl, CopyConfigOpen, DatastoreElement(target), CopySourceOpen, source,
      CopyConfigFoot);
    StripPrefixConcat(XmlDecl + CopyConfigOpen, DatastoreElement(target) + r2);
    ReadDatastoreElementOf(target, r2);
    StripPrefixConcat(CopySourceOpen, source + CopyConfigFoot);
    StripSuffixConcat(source, CopyConfigFoot);
  }

  /** The corrected copy-config carries its target and the prepared body as `<source>`. */
  lemma CopyConfigRoundTrip(target: string, config: string)
    requires '/' !in target
    ensures ReadCopyConfig(CopyConfigRpc(target, config)) == Some((target, ConfigurationBody(config)))
  {
    ReadCopyConfigOf(target, ConfigurationBody(config));
  }

  /**
   * As written, `<source>` holds `<` + body + `/>`: since the body starts
   * with `<configuration>`, the source content opens with `<<`, which is
   * not XML, and it never equals the body.
   */
  lemma CopyConfigAsWrittenMalformed(target: string, config: string)
    requires '/' !in target
    ensures ReadCopyConfig(CopyConfigRpcAsWritten(target, config)).Some?
    ensures var source := ReadCopyConfig(CopyConfigRpcAsWritten(target, config)).value.1;
      StartsWith(source, "<" + ConfigurationOpen) && source != ConfigurationBody(config)
  {
    var b := ConfigurationBody(config);
    var e := DatastoreElement(b);
    ReadCopyConfigOf(target, e);
    ConfigurationBodyWraps(config);
    ElementOfBody(b, ConfigurationOpen);
  }

  /** Putting a text inside `<.../>` puts `<` before its prefix and changes it. */
  lemma ElementOfBody(b: string, o: string)
    requires StartsWith(b, o)
    ensures StartsWith(DatastoreElement(b), "<" + o) && DatastoreElement(b) != b
  {
    var e := DatastoreElement(b);
    assert e == "<" + b + "/>";
    assert e[..1 + |o|] == "<" + b[..|o|];
    assert |e| == |b| + 3;
  }

  // ---------------------------------------------------------------------
  // delete-config, lock and unlock: an operation on one datastore
  // ---------------------------------------------------------------------

  const RunningDatastore := "running"
  const CandidateDatastore := "candidate"

  /** What follows the declaration of an RPC applying `op` to the datastore `target`. */
  function TargetRpcBody(op: string, target: string): string {
    "<rpc>" + "<" + op + ">" + "<target>" + DatastoreElement(target) + TargetRpcFoot(op)
  }

  /** The RPC applying operation `op` to the datastore `target`, without message-id. */
  function TargetRpc(op: string, target: string): (r: string)
    ensures EndsWith(r, EndPattern)
  {
    XmlDecl + TargetRpcBody(op, target)
  }

  /** What follows the datastore element of a TargetRpc for `op`. */
  function TargetRpcFoot(op: string): string {
    "</target>" + "</" + op + ">" + "</rpc>" + EndPattern
  }

  /** Reads an operation-on-a-datastore RPC: the operation and the datastore. */
  function ReadTargetRpc(msg: string): Option<(string, string)> {
    match StripPrefix(msg, XmlDecl + "<rpc>" + "<")
    case None => None
    case Some(r1) =>
      match SplitAtChar(r1, '>')
      case None => None
      case Some((op, r2)) =>
        match StripPrefix(r2, "<target>")
        case None => None
        case Some(r3) =>
          match ReadDatastoreElement(r3)
          case None => None
          case Some((target, r4)) =>
            if r4 == TargetRpcFoot(op) then Some((op, target)) else None
  }

  /** An operation-on-a-datastore RPC carries its operation and its datastore. */
  lemma TargetRpcRoundTrip(op: string, target: string)
    requires '>' !in op && '/' !in target
    ensures ReadTargetRpc(TargetRpc(op, target)) == Some((op, target))
  {
    var r3 := DatastoreElement(target) + TargetRpcFoot(op);
    var r1 := op + ['>'] + ("<target>" + r3);
    Regroup8(XmlDecl, "<rpc>", "<", op, ">", "<target>", DatastoreElement(target), TargetRpcFoot(op));
    StripPrefixConcat(XmlDecl + "<rpc>" + "<", r1);
    SplitAtCharConcat(op, '>', "<target>" + r3);
    StripPrefixConcat("<target>", r3);
    ReadDatastoreElementOf(target, TargetRpcFoot(op));
  }

  /** deleteConfig's document, or None for the running datastore, which it refuses. */
  function DeleteConfigRpc(target: string): Option<string> {
    if target == RunningDatastore then None else Some(TargetRpc("delete-config", target))
  }

  const LockRpc := TargetRpc("lock", CandidateDatastore)
  const UnlockRpc := TargetRpc("unlock", CandidateDatastore)

  /** deleteConfig refuses exactly the running datastore and otherwise deletes the one named. */
  lemma DeleteConfigRoundTrip(target: string)
    requires '/' !in target
    ensures DeleteConfigRpc(target).None? <==> target == RunningDatastore
    ensures DeleteConfigRpc(target).Some? ==>
      ReadTargetRpc(DeleteConfigRpc(target).value) == Some(("delete-config", target))
  {
    if target != RunningDatastore {
      TargetRpcRoundTrip("delete-config", target);
    }
  }

  /** lock and unlock name their operation and the candidate datastore. */
  lemma LockUnlockRoundTrip()
    ensures ReadTargetRpc(LockRpc) == Some(("lock", CandidateDatastore))
    ensures ReadTargetRpc(UnlockRpc) == Some(("unlock", CandidateDatastore))
  {
    TargetRpcRoundTrip("lock", CandidateDatastore);
    TargetRpcRoundTrip("unlock", CandidateDatastore);
  }

  // ---------------------------------------------------------------------
  // close-session (close(force))
  // ---------------------------------------------------------------------

  const KillConfiguration := "<kill-configuration/>"
  const CloseConfiguration := "<close-configuration/>"
  const CloseFoot := CloseConfiguration + "</rpc>" + EndPattern

  /** The close RPC: a kill element when forced, then always a close element. */
  function CloseRpc(force: bool): (r: string)
    ensures EndsWith(r, EndPattern)
  {
    "<rpc>" + (if force then KillConfiguration else CloseConfiguration) + CloseConfiguration
      + "</rpc>" + EndPattern
  }

  /** Reads a close RPC: whether it is forced. */
  function ReadClose(msg: string): Option<bool> {
    match StripPrefix(msg, "<rpc>")
    case None => None
    case Some(r) =>
      match StripPrefix(r, KillConfiguration)
      case Some(rest) => if rest == CloseFoot then Some(true) else None
      case None =>
        match StripPrefix(r, CloseConfiguration)
        case Some(rest) => if rest == CloseFoot then Some(false) else None
        case None => None
  }

  /** A close RPC is forced, i.e. holds a kill element, exactly when built with force. */
  lemma CloseRoundTrip(force: bool)
    ensures ReadClose(CloseRpc(force)) == Some(force)
  {
    var first := if force then KillConfiguration else CloseConfiguration;
    Regroup5("<rpc>", first, CloseConfiguration, "</rpc>", EndPattern);
    assert CloseRpc(force) == "<rpc>" + (first + CloseFoot);
    StripPrefixConcat("<rpc>", first + CloseFoot);
    StripPrefixConcat(first, CloseFoot);
    if !force {
      CloseIsNotKill(CloseFoot);
    }
  }

  /** The two close elements differ in their second character. */
  lemma CloseIsNotKill(rest: string)
    ensures !StartsWith(CloseConfiguration + rest, KillConfiguration)
  {
    var r := CloseConfiguration + rest;
    assert r[1] == CloseConfiguration[1] == 'c' != KillConfiguration[1];
  }

  // ---------------------------------------------------------------------
  // Message-id stamping (sendRequest)
  // ---------------------------------------------------------------------

  /** The attribute stamping writes, up to the quote that opens its value. */
  const IdAttribute := MessageIdString + "=\""
  /** The end of a quoted attribute followed by the end of a start tag: what stamping replaces. */
  const IdSlot := "\">"

  /** The replacement for the first `">`: the same two characters around a message-id attribute. */
  function StampText(n: nat): string {
    "\" " + IdAttribute + NatToString(n) + "\"" + ">"
  }

  /** Whether sendRequest stamps a request: it mentions neither message-id nor hello. */
  predicate Stampable(request: string) {
    !Contains(request, MessageIdString) && !Contains(request, HelloString)
  }

  /** The request sendRequest sends when the counter reads `n`. */
  function Stamp(request: string, n: nat): (r: string)
    ensures !Stampable(request) || !Contains(request, IdSlot) ==> r == request
  {
    if Stampable(request) then ReplaceFirst(request, IdSlot, StampText(n)) else request
  }

  /** The message id a document carries: the digits after the first `message-id="`. */
  function MessageIdOf(msg: string): Option<nat> {
    NumberAfter(msg, IdAttribute)
  }

  /** The decimal number between the first `attr` of `msg` and the next quote. */
  function NumberAfter(msg: string, attr: string): Option<nat> {
    var r := IndexOf(msg, attr);
    if r.None? then None else QuotedNumber(msg[r.value + |attr|..])
  }

  /** The decimal number that `t` holds before its first quote. */
  function QuotedNumber(t: string): Option<nat> {
    match SplitAtChar(t, '"')
    case None => None
    case Some((digits, _)) =>
      if digits != [] && forall k :: 0 <= k < |digits| ==> IsDigit(digits[k])
      then Some(DigitsValue(digits)) else None
  }

  /** Digits followed by a quote are read as their value. */
  lemma QuotedNumberOf(digits: string, rest: string)
    requires digits != [] && forall k :: 0 <= k < |digits| ==> IsDigit(digits[k])
    ensures QuotedNumber(digits + ['"'] + rest) == Some(DigitsValue(digits))
  {
    NoQuoteInDigits(digits);
    SplitAtCharConcat(digits, '"', rest);
  }

  /** The number read after the first `attr` is the digits placed there. */
  lemma NumberAfterAt(msg: string, attr: string, n: nat, digits: string, rest: string)
    requires IndexOf(msg, attr) == Some(n) && n + |attr| <= |msg|
    requires msg[n + |attr|..] == digits + ['"'] + rest
    requires digits != [] && forall k :: 0 <= k < |digits| ==> IsDigit(digits[k])
    ensures NumberAfter(msg, attr) == Some(DigitsValue(digits))
  {
    QuotedNumberOf(digits, rest);
  }

  /** IdAttribute opens with a character it does not repeat. */
  lemma IdAttributeFirstCharUnique()
    ensures |IdAttribute| == 12 && IdAttribute[..10] == MessageIdString
    ensures forall k :: 0 < k < |IdAttribute| ==> IdAttribute[k] != IdAttribute[0]
  {
  }

  /**
   * In front of the inserted attribute there is no `message-id="`: any such
   * occurrence would already put `message-id` into the request.
   */
  lemma NoIdAttributeBefore(pre: string)
    requires !Contains(pre, MessageIdString)
    ensures !Contains(pre + "\" ", IdAttribute)
  {
    var q := "=\"";
    assert |q| == 2 && q[0] == '=';
    NoLongerPatternWithin(pre, "\" ", MessageIdString, q);
  }

  /**
   * When the tail `t` of `pre + t` is no longer than `q` and does not start
   * where `q` does, every occurrence of `m + q` needs one of `m` in `pre`.
   */
  lemma NoLongerPatternWithin(pre: string, t: string, m: string, q: string)
    requires !Contains(pre, m) && 0 < |t| <= |q| && t[0] != q[0]
    ensures !Contains(pre + t, m + q)
  {
    forall j | OccursAt(pre + t, m + q, j) ensures OccursAt(pre, m, j) {
      LongerPatternAt(pre, t, m, q, j);
    }
  }

  lemma LongerPatternAt(pre: string, t: string, m: string, q: string, j: int)
    requires 0 < |t| <= |q| && t[0] != q[0] && OccursAt(pre + t, m + q, j)
    ensures OccursAt(pre, m, j)
  {
    var s := pre + t;
    assert s[j..j + |m| + |q|][|m|] == s[j + |m|] == q[0];
    assert s[|pre|] == t[0];
    assert j + |m| < |pre|;
    assert s[j..j + |m|] == s[j..j + |m| + |q|][..|m|] == m;
    assert pre[j..j + |m|] == s[j..j + |m|];
  }

  lemma NoQuoteInDigits(digits: string)
    requires forall k :: 0 <= k < |digits| ==> IsDigit(digits[k])
    ensures '"' !in digits
  {
    forall k | 0 <= k < |digits| ensures digits[k] != '"' { assert IsDigit(digits[k]); }
  }

  /** The first `message-id="` is the one placed right after a text without one. */
  lemma IdAttributeAt(a: string, tail: string)
    requires !Contains(a, IdAttribute)
    ensures IndexOf(a + (IdAttribute + tail), IdAttribute) == Some(|a|)
  {
    IdAttributeFirstCharUnique();
    StripPrefixConcat(IdAttribute, tail);
    IndexOfAfter(a, IdAttribute + tail, IdAttribute);
  }

  /** A message id is read from the digits after the first `message-id="`. */
  lemma MessageIdAfter(a: string, digits: string, rest: string)
    requires !Contains(a, IdAttribute) && digits != []
    requires forall k :: 0 <= k < |digits| ==> IsDigit(digits[k])
    ensures MessageIdOf(a + (IdAttribute + (digits + ['"'] + rest))) == Some(DigitsValue(digits))
  {
    var tail := digits + ['"'] + rest;
    IdAttributeAt(a, tail);
    DropJoin(a, IdAttribute, tail);
    NumberAfterAt(a + (IdAttribute + tail), IdAttribute, |a|, digits, rest);
  }

  /** A part of a request without `message-id` has none either. */
  lemma NoMessageIdInPrefix(request: string, i: nat)
    requires i <= |request| && !Contains(request, MessageIdString)
    ensures !Contains(request[..i], MessageIdString)
  {
    var pre := request[..i];
    forall j | OccursAt(pre, MessageIdString, j) ensures OccursAt(request, MessageIdString, j) {
      assert request[j..j + |MessageIdString|] == pre[j..j + |MessageIdString|];
    }
  }

  /** Stamping replaces the first `">` by the attribute and the counter value. */
  lemma StampShape(request: string, n: nat) returns (a: string, post: string)
    requires Stampable(request) && Contains(request, IdSlot)
    ensures !Contains(a, IdAttribute)
    ensures Stamp(request, n) == a + (IdAttribute + (NatToString(n) + ['"'] + (">" + post)))
  {
    var i := IndexOf(request, IdSlot).value;
    var pre := request[..i];
    post := request[i + 2..];
    a := pre + "\" ";
    NoMessageIdInPrefix(request, i);
    NoIdAttributeBefore(pre);
    assert Stamp(request, n) == pre + StampText(n) + post;
    RegroupStamp(pre, "\" ", IdAttribute, NatToString(n), "\"", ">", post);
  }

  /** The document sendRequest stamps carries the counter value it was stamped with. */
  lemma StampCarriesId(request: string, n: nat)
    requires Stampable(request) && Contains(request, IdSlot)
    ensures MessageIdOf(Stamp(request, n)) == Some(n)
  {
    var a, post := StampShape(request, n);
    MessageIdAfter(a, NatToString(n), ">" + post);
    DigitsValueOfNatToString(n);
  }

  /** Stamping at two counter values gives two different message ids. */
  lemma StampDistinguishes(request: string, m: nat, n: nat)
    requires Stampable(request) && Contains(request, IdSlot) && m != n
    ensures Stamp(request, m) != Stamp(request, n)
  {
    StampCarriesId(request, m);
    StampCarriesId(request, n);
  }

  /**
   * A request that mentions neither message-id nor hello has its first `">`
   * replaced by StampText(n), that is `" message-id="n">`, and nothing else changes.
   */
  lemma StampAtFirstSlot(request: string, n: nat)
    requires Stampable(request) && Contains(request, IdSlot)
    ensures exists i :: (OccursAt(request, IdSlot, i) && (forall j :: 0 <= j < i ==> !OccursAt(request, IdSlot, j))
      && Stamp(request, n) == request[..i] + StampText(n) + request[i + |IdSlot|..])
  {
    ReplaceFirstAtFirst(request, IdSlot, StampText(n));
  }

  /** The hello names itself, so it is never stamped. */
  lemma HelloNotStamped(caps: seq<string>, n: nat)
    ensures Stamp(Hello(caps), n) == Hello(caps)
  {
    var rest := CapabilitiesOpen + CapabilityLines(caps) + CapabilitiesClose + HelloClose + EndPattern;
    RegroupHello(HelloXmlDecl, HelloOpen, CapabilitiesOpen, CapabilityLines(caps), CapabilitiesClose,
      HelloClose, EndPattern);
    HelloOpenNamesHello();
    OccursInMiddle(HelloXmlDecl, HelloOpen, rest, HelloString, 1);
  }

  lemma HelloOpenNamesHello()
    ensures OccursAt(HelloOpen, HelloString, 1)
  {
  }

  /** A document with an RPC header already carries a message-id, so it is not stamped again. */
  lemma NumberedNotStamped(id: nat, rest: string, n: nat)
    ensures Stamp(RpcHeader(id) + rest, n) == RpcHeader(id) + rest
  {
    Regroup5(XmlDecl, RpcIdOpen, NatToString(id), RpcIdClose, rest);
    RpcIdOpenNamesMessageId();
    OccursInMiddle(XmlDecl, RpcIdOpen, NatToString(id) + RpcIdClose + rest, MessageIdString, 5);
  }

  /** A numbered RPC carries, as its first message-id attribute, the id it was built with. */
  lemma HeaderCarriesId(id: nat, rest: string)
    ensures MessageIdOf(RpcHeader(id) + rest) == Some(id)
  {
    var tail := RpcIdClose[1..];
    RpcIdCloseOpensWithQuote();
    HeaderLacksIdAttribute();
    RegroupHeader(XmlDecl, RpcTagOpen, IdAttribute, NatToString(id), RpcIdClose, tail, rest);
    MessageIdAfter(XmlDecl + RpcTagOpen, NatToString(id), tail + rest);
    DigitsValueOfNatToString(id);
  }

  lemma RpcIdCloseOpensWithQuote()
    ensures RpcIdClose == ['"'] + RpcIdClose[1..]
  {
  }

  /** The text in front of the attribute of a numbered RPC has no `a`, which the attribute has. */
  lemma HeaderLacksIdAttribute()
    ensures !Contains(XmlDecl + RpcTagOpen, IdAttribute)
  {
    XmlDeclVersionLacksA();
    XmlDeclEncodingLacksA();
    XmlDeclEndLacksA();
    RpcTagOpenLacksA();
    assert IdAttribute[4] == 'a';
    AbsentChar(XmlDecl + RpcTagOpen, IdAttribute, 4);
  }

  lemma RpcIdOpenNamesMessageId()
    ensures OccursAt(RpcIdOpen, MessageIdString, 5)
  {
  }

  /** getConfig and editConfig documents are sent as built. */
  lemma ConfigRpcsNotStamped(id: nat, target: string, schema: Option<string>, mode: string,
                             config: string, n: nat)
    ensures Stamp(GetConfigRpc(id, target, schema), n) == GetConfigRpc(id, target, schema)
    ensures Stamp(EditConfigRpc(id, target, mode, config), n) == EditConfigRpc(id, target, mode, config)
  {
    NumberedNotStamped(id, GetConfigBody(target, schema), n);
    NumberedNotStamped(id, EditConfigBody(target, mode, Trim(config)), n);
  }

  /** No `">` straddles two texts unless the first ends with a quote and the second starts with `>`. */
  lemma NoIdSlotAcross(a: string, b: string)
    requires !Contains(a, IdSlot) && !Contains(b, IdSlot)
    requires a == [] || b == [] || a[|a| - 1] != '"' || b[0] != '>'
    ensures !Contains(a + b, IdSlot)
  {
    forall i | 0 <= i < |a| < i + 2 <= |a + b| ensures !OccursAt(a + b, IdSlot, i) {
      assert (a + b)[i] == a[|a| - 1] && (a + b)[i + 1] == b[0];
    }
    forall i | OccursAt(a + b, IdSlot, i) ensures OccursAt(a, IdSlot, i) || OccursAt(b, IdSlot, i - |a|) {
      OccursInPart(a, b, IdSlot, i);
    }
  }

  lemma XmlDeclVersionFacts()
    ensures !Contains(XmlDeclVersion, IdSlot) && XmlDeclVersion[|XmlDeclVersion| - 1] == ' '
  {
    AbsentChar(XmlDeclVersion, IdSlot, 1);
  }

  lemma XmlDeclEncodingFacts()
    ensures !Contains(XmlDeclEncoding, IdSlot)
  {
    AbsentChar(XmlDeclEncoding, IdSlot, 1);
  }

  lemma XmlDeclEndFacts()
    ensures !Contains(XmlDeclEnd, IdSlot) && XmlDeclEnd[0] == '?'
  {
    AbsentChar(XmlDeclEnd, IdSlot, 0);
  }

  /** The XML declaration has no `">`. */
  lemma XmlDeclHasNoIdSlot()
    ensures !Contains(XmlDecl, IdSlot)
  {
    XmlDeclVersionFacts();
    XmlDeclEncodingFacts();
    XmlDeclEndFacts();
    NoIdSlotAcross(XmlDeclVersion, XmlDeclEncoding);
    NoIdSlotAcross(XmlDeclVersion + XmlDeclEncoding, XmlDeclEnd);
  }

  /** A document that is the declaration followed by quote-free text has no `">` to stamp. */
  lemma DeclaredUnstamped(body: string, n: nat)
    requires '"' !in body
    ensures !Contains(XmlDecl + body, IdSlot) && Stamp(XmlDecl + body, n) == XmlDecl + body
  {
    XmlDeclHasNoIdSlot();
    AbsentChar(body, IdSlot, 0);
    NoIdSlotAcross(XmlDecl, body);
  }

  /**
   * delete-config, lock and unlock name no attribute, so the `">` stamping
   * looks for is absent and they are sent without message-id.
   */
  lemma TargetRpcUnstamped(op: string, target: string, n: nat)
    requires '"' !in op && '"' !in target
    ensures !Contains(TargetRpc(op, target), IdSlot)
    ensures Stamp(TargetRpc(op, target), n) == TargetRpc(op, target)
  {
    DeclaredUnstamped(TargetRpcBody(op, target), n);
  }

  /** close documents have no quote at all, so they are sent without message-id. */
  lemma CloseUnstamped(force: bool, n: nat)
    ensures !Contains(CloseRpc(force), IdSlot) && Stamp(CloseRpc(force), n) == CloseRpc(force)
  {
    RpcOpenLacksQuote(); RpcCloseLacksQuote(); KillLacksQuote(); CloseLacksQuote(); EndLacksQuote();
    assert IdSlot[0] == '"';
    AbsentChar(CloseRpc(force), IdSlot, 0);
  }

  /*
   * Solver helpers. Each states one regrouping of a concatenation, or that one
   * literal lacks one character, so that the proofs above stay small.
   */

  lemma RegroupLine(o: string, c: string, t: string, x: string)
    ensures o + c + (['<'] + t) + x == o + (c + ['<'] + (t + x))
  {
  }

  lemma RegroupHelloParts(a: string, b: string, c: string, d: string, e: string, f: string,
                          g: string)
    ensures a + b + c + d + e + f + g == (a + b + c) + (d + (e + f + g))
  {
  }

  lemma RegroupCopy(a: string, b: string, c: string, d: string, e: string, f: string)
    ensures a + (b + c + d + e + f) == (a + b) + (c + (d + (e + f)))
  {
  }

  lemma Regroup8(a: string, b: string, c: string, d: string, e: string, f: string, g: string,
                 h: string)
    ensures a + (b + c + d + e + f + g + h) == (a + b + c) + (d + e + (f + (g + h)))
  {
  }

  lemma RegroupStamp(a: string, b: string, c: string, d: string, e: string, f: string, g: string)
    ensures a + (b + c + d + e + f) + g == (a + b) + (c + (d + e + (f + g)))
  {
  }

  lemma RegroupHello(a: string, b: string, c: string, d: string, e: string, f: string, g: string)
    ensures a + b + c + d + e + f + g == a + b + (c + d + e + f + g)
  {
  }

  lemma RegroupHeader(x: string, t: string, b: string, c: string, d: string, e: string, f: string)
    requires d == ['"'] + e
    ensures x + (t + b) + c + d + f == (x + t) + (b + (c + ['"'] + (e + f)))
  {
  }

  lemma RegroupEdit(a: string, b: string, c: string, d: string, e: string, f: string, g: string)
    ensures a + b + c + d + e + f + g == a + (b + (c + (d + e + f + g)))
  {
  }

  lemma XmlDeclVersionLacksA() ensures 'a' !in XmlDeclVersion { }
  lemma XmlDeclEncodingLacksA() ensures 'a' !in XmlDeclEncoding { }
  lemma XmlDeclEndLacksA() ensures 'a' !in XmlDeclEnd { }
  lemma RpcTagOpenLacksA() ensures 'a' !in RpcTagOpen { }
  lemma RpcOpenLacksQuote() ensures '"' !in "<rpc>" { }
  lemma RpcCloseLacksQuote() ensures '"' !in "</rpc>" { }
  lemma KillLacksQuote() ensures '"' !in KillConfiguration { }
  lemma CloseLacksQuote() ensures '"' !in CloseConfiguration { }
  lemma EndLacksQuote() ensures '"' !in EndPattern { }
}
