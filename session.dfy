/**
 * The NETCONF session object (NetconfSessionImpl): opening the connection
 * and the SSH session, the hello exchange, the lazy repair run before every
 * request, message-id stamping and correlation through the replies table,
 * and the operations built on sendRequest.
 *
 * The SSH library and the reader thread are not modelled; their answers are
 * inputs: whether the connection opens and authenticates, whether a session
 * channel opens, the session state seen by the repair, and the device's
 * reply to each request.  The pure functions over State say what each step
 * does; the class NetconfSession performs the steps on its fields, and each
 * method's contract ties its new state to those functions.
 */
module Session {
  import opened Util
  import opened Text
  import opened Replies
  import opened Payloads

  /** The SSH session state that counts as open; any other value triggers a restart. */
  const StateOpen: int := 2

  /** The outcome of authenticating: the library threw, or answered false or true. */
  datatype Auth = AuthIoFailure | AuthDenied | AuthGranted

  /** A session channel: whether openSession and startSubSystem succeed, and the device's hello. */
  datatype Channel = Channel(opens: bool, helloReply: string)

  /** A connection attempt: whether connect succeeds, how authentication ends, the channel opened on it. */
  datatype Link = Link(connects: bool, auth: Auth, channel: Channel)

  /** What the repair before a request meets: the session state, a restart channel, a reconnection. */
  datatype Liveness = Liveness(state: int, restart: Channel, reopen: Link)

  /** What one sendRequest meets: the repair's environment and the device's reply. */
  datatype Exchange = Exchange(liveness: Liveness, reply: string)

  /**
   * The exceptions the session raises: NetconfException for a failed connect,
   * a failed authentication, a failed session or a failed re-open;
   * IllegalArgumentException when the device refuses the credentials.
   * Unanswered is the model's own: the answers given for close ran out.
   */
  datatype NetconfError =
    | CannotConnect
    | AuthenticationFailed
    | AuthenticationRejected
    | SessionFailed
    | CannotReopen
    | Unanswered

  /** The session's fields; `sessions` counts the SSH sessions opened, `sent` is what went to the device. */
  datatype State = State(
    connectionActive: bool,
    sessions: nat,
    deviceCapabilities: seq<string>,
    serverCapabilities: string,
    messageId: nat,
    replies: map<int, Option<string>>,
    sent: seq<string>)

  /** Every entry of the replies table sits at a counter value already read. */
  predicate Valid(s: State) {
    forall k | k in s.replies :: 0 <= k <= s.messageId
  }

  /** A new session before startConnection, with the counter at `firstId`. */
  function Initial(firstId: nat): (s: State)
    ensures Valid(s) && !s.connectionActive && s.replies == map[] && s.sent == []
  {
    State(false, 0, DefaultCapabilities, "", firstId, map[], [])
  }

  // ---------------------------------------------------------------------
  // The replies table
  // ---------------------------------------------------------------------

  /** request: the message goes out and a pending entry is put under the counter's current value. */
  function Registered(s: State, request: string): State {
    s.(sent := s.sent + [request], replies := s.replies[s.messageId := None])
  }

  /** notify: the entry `id` is completed with the payload, unless it already was. */
  function Completed(s: State, id: int, payload: string): State
    requires id in s.replies
  {
    var entry := s.replies[id];
    s.(replies := s.replies[id := if entry.None? then Some(payload) else entry])
  }

  /** sendRequest up to the join: stamp with the counter, register under it, advance it by one. */
  function Issued(s: State, request: string): State {
    var r := Registered(s, Stamp(request, s.messageId));
    r.(messageId := r.messageId + 1)
  }

  /** A document sent as it stands, registered under the counter, the counter advanced, the reply delivered. */
  function Posted(s: State, doc: string, reply: string): State {
    Completed(Registered(s, doc).(messageId := s.messageId + 1), s.messageId, reply)
  }

  /** A request issued and answered by the device with `reply`. */
  function Exchanged(s: State, request: string, reply: string): State {
    Posted(s, Stamp(request, s.messageId), reply)
  }

  /**
   * request puts a pending entry under the counter's value and leaves every
   * other entry, and the counter, as they were.
   */
  lemma RegisteredEntries(s: State, request: string)
    ensures var t := Registered(s, request);
      t.messageId == s.messageId && t.sent == s.sent + [request]
      && s.messageId in t.replies && t.replies[s.messageId] == None
      && (forall k | k in s.replies && k != s.messageId :: k in t.replies && t.replies[k] == s.replies[k])
      && (Valid(s) ==> Valid(t))
  {
  }

  /** notify completes the entry of its id, once, and touches no other entry. */
  lemma CompletedEntries(s: State, id: int, payload: string)
    requires id in s.replies
    ensures var t := Completed(s, id, payload);
      t.replies.Keys == s.replies.Keys
      && t.replies[id] == (if s.replies[id].None? then Some(payload) else s.replies[id])
      && (forall k | k in s.replies && k != id :: t.replies[k] == s.replies[k])
      && t.messageId == s.messageId && t.sent == s.sent
      && (Valid(s) ==> Valid(t))
  {
  }

  /**
   * sendRequest sends the request stamped with the counter's value, puts a
   * pending entry under that value, advances the counter by exactly one, and
   * leaves every other entry as it was; afterwards every key is below the counter.
   */
  lemma IssuedEntries(s: State, request: string)
    ensures var t := Issued(s, request);
      t.messageId == s.messageId + 1
      && t.sent == s.sent + [Stamp(request, s.messageId)]
      && s.messageId in t.replies && t.replies[s.messageId] == None
      && (forall k | k in s.replies && k != s.messageId :: k in t.replies && t.replies[k] == s.replies[k])
      && (Valid(s) ==> Valid(t) && forall k | k in t.replies :: k < t.messageId)
  {
    RegisteredEntries(s, Stamp(request, s.messageId));
  }

  /** A posted document: the last message sent, its reply under the counter's old value. */
  lemma PostedEntries(s: State, doc: string, reply: string)
    ensures var t := Posted(s, doc, reply);
      t.messageId == s.messageId + 1 && t.sent == s.sent + [doc]
      && s.messageId in t.replies && t.replies[s.messageId] == Some(reply)
      && (forall k | k in s.replies && k != s.messageId :: k in t.replies && t.replies[k] == s.replies[k])
  {
    RegisteredEntries(s, doc);
    CompletedEntries(Registered(s, doc).(messageId := s.messageId + 1), s.messageId, reply);
  }

  /** An answered sendRequest: the entry under the id it was sent with holds the reply. */
  lemma ExchangedEntries(s: State, request: string, reply: string)
    ensures var t := Exchanged(s, request, reply);
      t.messageId == s.messageId + 1
      && t.sent == s.sent + [Stamp(request, s.messageId)]
      && s.messageId in t.replies && t.replies[s.messageId] == Some(reply)
      && (forall k | k in s.replies && k != s.messageId :: k in t.replies && t.replies[k] == s.replies[k])
      && (Valid(s) ==> Valid(t))
  {
    IssuedEntries(s, request);
    CompletedEntries(Issued(s, request), s.messageId, reply);
    assert Exchanged(s, request, reply) == Completed(Issued(s, request), s.messageId, reply);
  }

  /** Requests issued one after the other. */
  function IssuedAll(s: State, requests: seq<string>): State
    decreases |requests|
  {
    if requests == [] then s else IssuedAll(Issued(s, requests[0]), requests[1..])
  }

  /**
   * Successive sendRequests take the ids s.messageId, s.messageId + 1, ... in
   * order, each with a pending entry of its own, and leave every entry below
   * the first id as it was.
   */
  lemma {:induction false} IssuedInOrder(s: State, requests: seq<string>)
    ensures IssuedAll(s, requests).messageId == s.messageId + |requests|
    ensures forall k | s.messageId <= k < s.messageId + |requests| ::
      k in IssuedAll(s, requests).replies && IssuedAll(s, requests).replies[k] == None
    ensures forall k | k in s.replies && k < s.messageId ::
      k in IssuedAll(s, requests).replies && IssuedAll(s, requests).replies[k] == s.replies[k]
    decreases |requests|
  {
    if requests != [] {
      var s1 := Issued(s, requests[0]);
      IssuedEntries(s, requests[0]);
      IssuedInOrder(s1, requests[1..]);
      assert IssuedAll(s1, requests[1..]) == IssuedAll(s, requests);
    }
  }

  /**
   * Two replies delivered in the opposite order to their requests each land
   * in the entry of their own request.
   */
  lemma OutOfOrderDelivery(s: State, a: string, b: string, replyA: string, replyB: string)
    ensures var t := Issued(Issued(s, a), b);
      var u := Completed(Completed(t, s.messageId + 1, replyB), s.messageId, replyA);
      u.replies[s.messageId] == Some(replyA) && u.replies[s.messageId + 1] == Some(replyB)
  {
    IssuedEntries(s, a);
    IssuedEntries(Issued(s, a), b);
    var t := Issued(Issued(s, a), b);
    CompletedEntries(t, s.messageId + 1, replyB);
    CompletedEntries(Completed(t, s.messageId + 1, replyB), s.messageId, replyA);
  }

  /** A second notification for an entry already completed changes nothing. */
  lemma CompletedOnce(s: State, id: int, first: string, second: string)
    requires id in s.replies && s.replies[id] == None
    ensures Completed(Completed(s, id, first), id, second) == Completed(s, id, first)
  {
  }

  /**
   * request registers under the counter's value without advancing it, so the
   * next sendRequest puts its own pending entry under the same key: the
   * future handed out by request is no longer in the table.
   */
  lemma RequestKeyReused(s: State, a: string, b: string, payload: string)
    ensures var t := Issued(Completed(Registered(s, a), s.messageId, payload), b);
      Registered(s, a).replies[s.messageId] == None &&
      Completed(Registered(s, a), s.messageId, payload).replies[s.messageId] == Some(payload) &&
      t.replies[s.messageId] == None
  {
  }

  // ---------------------------------------------------------------------
  // Opening and repairing the session
  // ---------------------------------------------------------------------

  /**
   * startSshSession: open a channel and send the hello through sendRequest
   * (whose repair finds the new session open); the device's hello becomes
   * the server capabilities.  Any failure is SessionFailed.
   */
  function SessionStarted(s: State, ch: Channel): (State, Result<(), NetconfError>) {
    if !ch.opens then (s, Err(SessionFailed))
    else
      var t := Posted(s.(sessions := s.sessions + 1), Hello(s.deviceCapabilities), ch.helloReply);
      (t.(serverCapabilities := ch.helloReply), Ok(()))
  }

  /** sendRequest leaves the hello unstamped: the hello exchange above is sendRequest's. */
  lemma HelloExchange(s: State, caps: seq<string>, reply: string)
    ensures Exchanged(s, Hello(caps), reply) == Posted(s, Hello(caps), reply)
  {
    HelloNotStamped(caps, s.messageId);
  }

  /**
   * A started session has sent the hello as built, unstamped, and stores the
   * device's hello both as the server capabilities and under the hello's id.
   */
  lemma StartedSendsHello(s: State, ch: Channel)
    requires ch.opens
    ensures var (t, r) := SessionStarted(s, ch);
      r == Ok(()) && t.sessions == s.sessions + 1
      && t.serverCapabilities == ch.helloReply
      && t.sent == s.sent + [Hello(s.deviceCapabilities)]
      && t.replies == s.replies[s.messageId := Some(ch.helloReply)]
      && t.messageId == s.messageId + 1
      && t.connectionActive == s.connectionActive && t.deviceCapabilities == s.deviceCapabilities
  {
  }

  /**
   * startConnection: nothing when the connection is already active; otherwise
   * connect, authenticate, mark the connection active (before the
   * authentication result is checked) and start the SSH session.
   */
  function Connected(s: State, link: Link): (State, Result<(), NetconfError>) {
    if s.connectionActive then (s, Ok(()))
    else if !link.connects then (s, Err(CannotConnect))
    else match link.auth
      case AuthIoFailure => (s, Err(AuthenticationFailed))
      case AuthDenied => (s.(connectionActive := true), Err(AuthenticationRejected))
      case AuthGranted => SessionStarted(s.(connectionActive := true), link.channel)
  }

  /**
   * The connection is marked active before the authentication result is
   * checked, so after a refused login every later startConnection does
   * nothing: the session never authenticates again.
   */
  lemma RejectedLoginNeverRetried(s: State, link: Link, later: Link)
    requires !s.connectionActive && link.connects && link.auth == AuthDenied
    ensures Connected(s, link).1 == Err(AuthenticationRejected)
    ensures Connected(Connected(s, link).0, later) == (Connected(s, link).0, Ok(()))
  {
  }

  /**
   * checkAndRestablishSession: when the session state is not open, restart
   * the SSH session; when that fails, fall back on startConnection, whose
   * NetconfException becomes CannotReopen and whose IllegalArgumentException
   * passes through.
   */
  function Reestablished(s: State, l: Liveness): (State, Result<(), NetconfError>) {
    if l.state == StateOpen then (s, Ok(()))
    else
      var (s1, r1) := SessionStarted(s, l.restart);
      if r1.Ok? then (s1, r1)
      else
        var (s2, r2) := Connected(s1, l.reopen);
        if r2.Err? && r2.error != AuthenticationRejected then (s2, Err(CannotReopen)) else (s2, r2)
  }

  /** An open session is left alone; a restart that opens a channel is a new SSH session. */
  lemma ReestablishedCases(s: State, l: Liveness)
    ensures l.state == StateOpen ==> Reestablished(s, l) == (s, Ok(()))
    ensures l.state != StateOpen && l.restart.opens ==> Reestablished(s, l) == SessionStarted(s, l.restart)
    ensures Reestablished(s, l).1.Err? ==> Reestablished(s, l).1.error in {CannotReopen, AuthenticationRejected}
    ensures s.connectionActive ==> Reestablished(s, l).0.connectionActive
    ensures Reestablished(s, l).0.deviceCapabilities == s.deviceCapabilities
  {
  }

  /**
   * Once the connection is active, a failed restart is followed by a
   * startConnection that does nothing: the repair reports success although
   * no session was opened and the state is what it was.
   */
  lemma SilentFallback(s: State, l: Liveness)
    requires s.connectionActive && l.state != StateOpen && !l.restart.opens
    ensures Reestablished(s, l) == (s, Ok(()))
  {
  }

  /** Only a session whose connection was never made active can fail to repair. */
  lemma RepairFailsOnlyUnconnected(s: State, l: Liveness)
    requires Reestablished(s, l).1.Err?
    ensures !s.connectionActive && l.state != StateOpen && !l.restart.opens
  {
  }

  /** Opening, restarting and repairing keep every key of the table at or below the counter. */
  lemma ValidStarted(s: State, ch: Channel)
    requires Valid(s)
    ensures Valid(SessionStarted(s, ch).0)
  {
    if ch.opens {
      var s1 := s.(sessions := s.sessions + 1);
      RegisteredEntries(s1, Hello(s.deviceCapabilities));
      CompletedEntries(Registered(s1, Hello(s.deviceCapabilities)).(messageId := s.messageId + 1), s.messageId, ch.helloReply);
    }
  }

  lemma ValidConnected(s: State, link: Link)
    requires Valid(s)
    ensures Valid(Connected(s, link).0)
  {
    ValidStarted(s.(connectionActive := true), link.channel);
  }

  lemma ValidReestablished(s: State, l: Liveness)
    requires Valid(s)
    ensures Valid(Reestablished(s, l).0)
  {
    ValidStarted(s, l.restart);
    ValidConnected(SessionStarted(s, l.restart).0, l.reopen);
  }

  // ---------------------------------------------------------------------
  // sendRequest and the operations on it
  // ---------------------------------------------------------------------

  /** sendRequest: the repair, then the stamped request, answered with the device's reply. */
  function Sent(s: State, request: string, x: Exchange): (State, Result<string, NetconfError>) {
    var (s1, c) := Reestablished(s, x.liveness);
    if c.Err? then (s1, Err(c.error)) else (Exchanged(s1, request, x.reply), Ok(x.reply))
  }

  /**
   * What sendRequest returns is the device's reply, and it is what the table
   * holds under the id the request was sent with, the last message sent.
   */
  lemma SentAnswersRequest(s: State, request: string, x: Exchange)
    requires Sent(s, request, x).1.Ok?
    ensures Sent(s, request, x).1.value == x.reply
    ensures var t := Sent(s, request, x).0;
      t.messageId >= 1 && |t.sent| >= 1 && t.sent[|t.sent| - 1] == Stamp(request, t.messageId - 1)
    ensures var t := Sent(s, request, x).0;
      t.messageId - 1 in t.replies && t.replies[t.messageId - 1] == Some(x.reply)
    ensures Sent(s, request, x).0.messageId > s.messageId
    ensures var t := Sent(s, request, x).0;
      forall k | k in s.replies && k < s.messageId :: k in t.replies && t.replies[k] == s.replies[k]
  {
    var (s1, c) := Reestablished(s, x.liveness);
    var t := Exchanged(s1, request, x.reply);
    assert Sent(s, request, x) == (t, Ok(x.reply));
    ReestablishedKeepsEarlier(s, x.liveness);
    ExchangedEntries(s1, request, x.reply);
  }

  /**
   * The repair only moves the counter forward and leaves every entry under
   * an earlier id as it was.
   */
  lemma ReestablishedKeepsEarlier(s: State, l: Liveness)
    ensures Reestablished(s, l).0.messageId >= s.messageId
    ensures var t := Reestablished(s, l).0;
      forall k | k in s.replies && k < s.messageId :: k in t.replies && t.replies[k] == s.replies[k]
  {
    if l.state != StateOpen {
      var s1 := SessionStarted(s, l.restart).0;
      if l.restart.opens {
        StartedSendsHello(s, l.restart);
      } else if !s1.connectionActive && l.reopen.connects && l.reopen.auth == AuthGranted
        && l.reopen.channel.opens {
        StartedSendsHello(s1.(connectionActive := true), l.reopen.channel);
      }
    }
  }

  /** sendRequest keeps every key of the table at or below the counter. */
  lemma ValidSent(s: State, request: string, x: Exchange)
    requires Valid(s)
    ensures Valid(Sent(s, request, x).0)
  {
    ValidReestablished(s, x.liveness);
    ExchangedEntries(Reestablished(s, x.liveness).0, request, x.reply);
  }

  /** requestSync and getConfig: the reply, or "ERROR " and the reply when checkReply refuses it. */
  function Marked(o: (State, Result<string, NetconfError>)): (State, Result<string, NetconfError>) {
    (o.0, if o.1.Ok? then Ok(MarkReply(o.1.value)) else o.1)
  }

  /** The boolean operations: checkReply of the reply. */
  function Checked(o: (State, Result<string, NetconfError>)): (State, Result<bool, NetconfError>) {
    (o.0, if o.1.Ok? then Ok(Accepted(Some(o.1.value))) else Err(o.1.error))
  }

  /** The two operations whose document carries a message-id of its own. */
  datatype NumberedOp =
    | GetConfigOp(target: string, schema: Option<string>)
    | EditConfigOp(target: string, mode: string, config: string)

  function NumberedRpc(op: NumberedOp, id: nat): (r: string)
    ensures Stamp(r, id) == r && MessageIdOf(r) == Some(id)
  {
    match op
    case GetConfigOp(target, schema) =>
      ConfigRpcsNotStamped(id, target, schema, "", "", id);
      HeaderCarriesId(id, GetConfigBody(target, schema));
      GetConfigRpc(id, target, schema)
    case EditConfigOp(target, mode, config) =>
      ConfigRpcsNotStamped(id, target, None, mode, config, id);
      HeaderCarriesId(id, EditConfigBody(target, mode, Trim(config)));
      EditConfigRpc(id, target, mode, config)
  }

  /**
   * getConfig and editConfig as written: the document is numbered with the
   * counter read before sendRequest, whose repair may use that value first.
   */
  function SentNumberedAsWritten(s: State, op: NumberedOp, x: Exchange): (State, Result<string, NetconfError>) {
    Sent(s, NumberedRpc(op, s.messageId), x)
  }

  /** The same operations with the document numbered after the repair, as sendRequest does with its stamp. */
  function SentNumbered(s: State, op: NumberedOp, x: Exchange): (State, Result<string, NetconfError>) {
    var (s1, c) := Reestablished(s, x.liveness);
    if c.Err? then (s1, Err(c.error)) else (Posted(s1, NumberedRpc(op, s1.messageId), x.reply), Ok(x.reply))
  }

  /**
   * Numbered after the repair, the document sent is the one numbered with
   * the key its reply is stored under (NumberedRpc carries its number as
   * its message-id).
   */
  lemma NumberedIdMatchesKey(s: State, op: NumberedOp, x: Exchange)
    ensures var (t, r) := SentNumbered(s, op, x);
      r.Ok? ==> (t.messageId >= 1 && |t.sent| >= 1 && t.sent[|t.sent| - 1] == NumberedRpc(op, t.messageId - 1)
        && t.messageId - 1 in t.replies && t.replies[t.messageId - 1] == Some(x.reply))
  {
    var (s1, c) := Reestablished(s, x.liveness);
    if c.Ok? {
      var doc := NumberedRpc(op, s1.messageId);
      var t := Posted(s1, doc, x.reply);
      assert SentNumbered(s, op, x) == (t, Ok(x.reply));
      assert t.sent[|t.sent| - 1] == doc;
    }
  }

  /** Without a restart, numbering before sendRequest is the same as numbering after the repair. */
  lemma NumberedAgreeWhenOpen(s: State, op: NumberedOp, x: Exchange)
    requires x.liveness.state == StateOpen
    ensures SentNumberedAsWritten(s, op, x) == SentNumbered(s, op, x)
  {
  }

  /**
   * As written, when the repair restarts the session, the hello takes the
   * counter value the document names, and the document's own reply is
   * stored one key further on.
   */
  lemma NumberedAsWrittenMismatch(s: State, op: NumberedOp, x: Exchange)
    requires x.liveness.state != StateOpen && x.liveness.restart.opens
    ensures var (t, r) := SentNumberedAsWritten(s, op, x);
      r.Ok? && |t.sent| >= 1 && t.sent[|t.sent| - 1] == NumberedRpc(op, s.messageId)
        && t.messageId == s.messageId + 2
        && s.messageId in t.replies && t.replies[s.messageId] == Some(x.liveness.restart.helloReply)
        && s.messageId + 1 in t.replies && t.replies[s.messageId + 1] == Some(x.reply)
  {
    var doc := NumberedRpc(op, s.messageId);
    var s1 := SessionStarted(s, x.liveness.restart).0;
    StartedSendsHello(s, x.liveness.restart);
    ConfigRpcsNotStampedAny(op, s.messageId, s1.messageId);
    var t := Posted(s1, doc, x.reply);
    assert SentNumberedAsWritten(s, op, x) == (t, Ok(x.reply));
    PostedEntries(s1, doc, x.reply);
  }

  /** A numbered document is sent unchanged whatever the counter reads. */
  lemma ConfigRpcsNotStampedAny(op: NumberedOp, id: nat, n: nat)
    ensures Stamp(NumberedRpc(op, id), n) == NumberedRpc(op, id)
  {
    match op
    case GetConfigOp(target, schema) =>
      ConfigRpcsNotStamped(id, target, schema, "", "", n);
    case EditConfigOp(target, mode, config) =>
      ConfigRpcsNotStamped(id, target, None, mode, config, n);
  }

  /**
   * close(force): send the close document; an accepted reply ends with true,
   * a refused one is followed by close(true).  The answers bound the retries.
   */
  function Closed(s: State, force: bool, answers: seq<Exchange>): (State, Result<bool, NetconfError>)
    decreases |answers|
  {
    if answers == [] then (s, Err(Unanswered))
    else
      var (s1, r1) := Sent(s, CloseRpc(force), answers[0]);
      if r1.Err? then (s1, Err(r1.error))
      else if Accepted(Some(r1.value)) then (s1, Ok(true))
      else Closed(s1, true, answers[1..])
  }

  /** close never returns false: it either succeeds, fails with an exception, or keeps retrying. */
  lemma {:induction false} CloseNeverRefuses(s: State, force: bool, answers: seq<Exchange>)
    ensures Closed(s, force, answers).1 != Ok(false)
    decreases |answers|
  {
    if answers != [] {
      var (s1, r1) := Sent(s, CloseRpc(force), answers[0]);
      if r1.Ok? && !Accepted(Some(r1.value)) {
        CloseNeverRefuses(s1, true, answers[1..]);
      }
    }
  }

  /** close succeeds only on a reply checkReply accepts, the first such answer, with every earlier one refused. */
  lemma {:induction false} CloseSucceedsOnAccepted(s: State, force: bool, answers: seq<Exchange>)
    requires Closed(s, force, answers).1 == Ok(true)
    ensures exists i :: (0 <= i < |answers| && Accepted(Some(answers[i].reply))
      && (forall j :: 0 <= j < i ==> !Accepted(Some(answers[j].reply))))
    decreases |answers|
  {
    CloseAttempt(s, force, answers);
    if !Accepted(Some(answers[0].reply)) {
      var s1 := Sent(s, CloseRpc(force), answers[0]).0;
      CloseSucceedsOnAccepted(s1, true, answers[1..]);
      var i :| 0 <= i < |answers[1..]| && Accepted(Some(answers[1..][i].reply))
        && (forall j :: 0 <= j < i ==> !Accepted(Some(answers[1..][j].reply)));
      FirstAcceptedBehind(answers, i);
    }
  }

  /** A close that succeeds either stopped at its first answer or succeeded on the rest after a refusal. */
  lemma CloseAttempt(s: State, force: bool, answers: seq<Exchange>)
    requires Closed(s, force, answers).1 == Ok(true)
    ensures answers != []
    ensures Accepted(Some(answers[0].reply))
      || Closed(Sent(s, CloseRpc(force), answers[0]).0, true, answers[1..]).1 == Ok(true)
  {
  }

  /** The first accepted answer of the rest, behind a refused one, is the first accepted answer. */
  lemma FirstAcceptedBehind(answers: seq<Exchange>, i: nat)
    requires |answers| > 0 && !Accepted(Some(answers[0].reply))
    requires i < |answers[1..]| && Accepted(Some(answers[1..][i].reply))
    requires forall j :: 0 <= j < i ==> !Accepted(Some(answers[1..][j].reply))
    ensures Accepted(Some(answers[i + 1].reply))
    ensures forall j :: 0 <= j < i + 1 ==> !Accepted(Some(answers[j].reply))
  {
    assert answers[i + 1] == answers[1..][i];
    forall j | 0 <= j < i + 1 ensures !Accepted(Some(answers[j].reply)) {
      if j > 0 { assert answers[j] == answers[1..][j - 1]; }
    }
  }

  /** The documents of a close that makes `n` attempts: the first with `force`, every retry forced. */
  function CloseDocuments(force: bool, n: nat): (r: seq<string>)
    ensures |r| == n
    ensures n > 0 ==> r[0] == CloseRpc(force)
    ensures forall i :: 1 <= i < n ==> r[i] == CloseRpc(true)
    decreases n
  {
    if n == 0 then [] else [CloseRpc(force)] + CloseDocuments(true, n - 1)
  }

  /**
   * On an open session close sends nothing but close documents, unstamped:
   * `CloseRpc(force)` first and `CloseRpc(true)` for every retry.
   */
  lemma {:induction false} ClosedSendsCloses(s: State, force: bool, answers: seq<Exchange>)
    requires forall i :: 0 <= i < |answers| ==> answers[i].liveness.state == StateOpen
    ensures exists n :: (0 <= n <= |answers| && (answers != [] ==> 1 <= n)
      && Closed(s, force, answers).0.sent == s.sent + CloseDocuments(force, n))
    decreases |answers|
  {
    if answers == [] {
      assert Closed(s, force, answers).0.sent == s.sent + CloseDocuments(force, 0);
    } else {
      var s1 := Exchanged(s, CloseRpc(force), answers[0].reply);
      OpenCloseSent(s, force, answers[0]);
      assert s1.sent == s.sent + CloseDocuments(force, 1);
      if !Accepted(Some(answers[0].reply)) {
        var rest := answers[1..];
        forall i | 0 <= i < |rest| ensures rest[i].liveness.state == StateOpen {
          assert rest[i] == answers[i + 1];
        }
        ClosedSendsCloses(s1, true, rest);
        var m :| 0 <= m <= |rest| && Closed(s1, true, rest).0.sent == s1.sent + CloseDocuments(true, m);
        assert CloseDocuments(force, m + 1) == [CloseRpc(force)] + CloseDocuments(true, m);
        assert s.sent + CloseDocuments(force, m + 1) == s1.sent + CloseDocuments(true, m);
      }
    }
  }

  /** On an open session one close attempt sends its document unstamped and returns the reply. */
  lemma OpenCloseSent(s: State, force: bool, x: Exchange)
    requires x.liveness.state == StateOpen
    ensures Sent(s, CloseRpc(force), x) == (Exchanged(s, CloseRpc(force), x.reply), Ok(x.reply))
    ensures Exchanged(s, CloseRpc(force), x.reply).sent == s.sent + [CloseRpc(force)]
  {
    ReestablishedCases(s, x.liveness);
    ExchangedEntries(s, CloseRpc(force), x.reply);
    CloseUnstamped(force, s.messageId);
  }

  /** Every close keeps the table's invariant. */
  lemma {:induction false} ClosedValid(s: State, force: bool, answers: seq<Exchange>)
    requires Valid(s)
    ensures Valid(Closed(s, force, answers).0)
    decreases |answers|
  {
    if answers != [] {
      var (s1, r1) := Sent(s, CloseRpc(force), answers[0]);
      ValidSent(s, CloseRpc(force), answers[0]);
      if r1.Ok? && !Accepted(Some(r1.value)) {
        ClosedValid(s1, true, answers[1..]);
      }
    }
  }

  // ---------------------------------------------------------------------
  // The session object
  // ---------------------------------------------------------------------

  class NetconfSession {
    var connectionActive: bool
    var sessions: nat
    var deviceCapabilities: seq<string>
    var serverCapabilities: string
    var messageId: nat
    var replies: map<int, Option<string>>
    var sent: seq<string>

    function Snapshot(): State
      reads this
    {
      State(connectionActive, sessions, deviceCapabilities, serverCapabilities, messageId, replies, sent)
    }

    /** The fields as the constructor sets them before it calls startConnection. */
    constructor (firstId: nat)
      ensures Snapshot() == Initial(firstId)
    {
      connectionActive := false;
      sessions := 0;
      deviceCapabilities := DefaultCapabilities;
      serverCapabilities := "";
      messageId := firstId;
      replies := map[];
      sent := [];
    }

    /** createHelloString: the hello listing the device capabilities, one line each, in order. */
    method CreateHelloString() returns (hello: string)
      ensures hello == Hello(deviceCapabilities)
    {
      var lines := "";
      var i := 0;
      while i < |deviceCapabilities|
        invariant 0 <= i <= |deviceCapabilities|
        invariant lines == CapabilityLines(deviceCapabilities[..i])
      {
        CapabilityLinesSnoc(deviceCapabilities[..i], deviceCapabilities[i]);
        assert deviceCapabilities[..i + 1] == deviceCapabilities[..i] + [deviceCapabilities[i]];
        lines := lines + CapabilityLine(deviceCapabilities[i]);
        i := i + 1;
      }
      assert deviceCapabilities[..i] == deviceCapabilities;
      hello := HelloXmlDecl + HelloOpen + CapabilitiesOpen + lines + CapabilitiesClose + HelloClose + EndPattern;
    }

    /** request: send the message and register a pending entry under the counter's value. */
    method Request(request: string) returns (id: int)
      modifies this
      ensures id == old(messageId)
      ensures Snapshot() == Registered(old(Snapshot()), request)
    {
      sent := sent + [request];
      replies := replies[messageId := None];
      id := messageId;
    }

    /** NetconfSessionDelegateImpl.notify: complete the entry of the event's message id. */
    method Deliver(id: int, payload: string)
      requires id in replies
      modifies this
      ensures Snapshot() == Completed(old(Snapshot()), id, payload)
    {
      if replies[id].None? {
        replies := replies[id := Some(payload)];
      }
    }

    /** The join on a completed entry. */
    method Await(id: int) returns (reply: string)
      requires id in replies && replies[id].Some?
      ensures Some(reply) == replies[id]
    {
      reply := replies[id].value;
    }

    /** A document sent as it stands: request, advance the counter, join the answered entry. */
    method Post(doc: string, answer: string) returns (reply: string)
      modifies this
      ensures reply == answer
      ensures Snapshot() == Posted(old(Snapshot()), doc, answer)
    {
      var id := Request(doc);
      messageId := messageId + 1;
      Deliver(id, answer);
      reply := Await(id);
    }

    /** sendRequest below the repair: stamp with the counter, then post. */
    method Transmit(request: string, answer: string) returns (reply: string)
      modifies this
      ensures reply == answer
      ensures Snapshot() == Exchanged(old(Snapshot()), request, answer)
    {
      var stamped := Stamp(request, messageId);
      reply := Post(stamped, answer);
    }

    /** startSshSession, with the hello exchange of sendHello. */
    method StartSshSession(ch: Channel) returns (r: Result<(), NetconfError>)
      modifies this
      ensures (Snapshot(), r) == SessionStarted(old(Snapshot()), ch)
    {
      if !ch.opens {
        r := Err(SessionFailed);
        return;
      }
      ghost var s0 := Snapshot();
      sessions := sessions + 1;
      ghost var s1 := Snapshot();
      var hello := CreateHelloString();
      var capabilities := Transmit(hello, ch.helloReply);
      HelloExchange(s1, s0.deviceCapabilities, ch.helloReply);
      ghost var t := Posted(s1, Hello(s0.deviceCapabilities), ch.helloReply);
      assert Snapshot() == t;
      serverCapabilities := capabilities;
      r := Ok(());
      assert s1 == s0.(sessions := s0.sessions + 1);
      assert Snapshot() == t.(serverCapabilities := ch.helloReply);
      assert SessionStarted(s0, ch) == (t.(serverCapabilities := ch.helloReply), Ok(()));
    }

    /** startConnection. */
    method StartConnection(link: Link) returns (r: Result<(), NetconfError>)
      modifies this
      ensures (Snapshot(), r) == Connected(old(Snapshot()), link)
    {
      if connectionActive {
        r := Ok(());
        return;
      }
      if !link.connects {
        r := Err(CannotConnect);
        return;
      }
      if link.auth == AuthIoFailure {
        r := Err(AuthenticationFailed);
        return;
      }
      connectionActive := true;
      if link.auth == AuthDenied {
        r := Err(AuthenticationRejected);
        return;
      }
      r := StartSshSession(link.channel);
    }

    /** checkAndRestablishSession. */
    method CheckAndReestablish(l: Liveness) returns (r: Result<(), NetconfError>)
      modifies this
      ensures (Snapshot(), r) == Reestablished(old(Snapshot()), l)
    {
      r := Ok(());
      if l.state != StateOpen {
        var restarted := StartSshSession(l.restart);
        if restarted.Err? {
          var reopened := StartConnection(l.reopen);
          if reopened.Err? && reopened.error != AuthenticationRejected {
            r := Err(CannotReopen);
          } else {
            r := reopened;
          }
        }
      }
    }

    /** sendRequest. */
    method SendRequest(request: string, x: Exchange) returns (r: Result<string, NetconfError>)
      modifies this
      ensures (Snapshot(), r) == Sent(old(Snapshot()), request, x)
    {
      var c := CheckAndReestablish(x.liveness);
      if c.Err? {
        r := Err(c.error);
        return;
      }
      var reply := Transmit(request, x.reply);
      r := Ok(reply);
    }

    /** requestSync: the request framed with a newline and the end marker, the reply marked. */
    method RequestSync(request: string, x: Exchange) returns (r: Result<string, NetconfError>)
      modifies this
      ensures (Snapshot(), r) == Marked(Sent(old(Snapshot()), SyncRequest(request), x))
    {
      var reply := SendRequest(SyncRequest(request), x);
      r := if reply.Ok? then Ok(MarkReply(reply.value)) else reply;
    }

    /** get: requestSync. */
    method Get(request: string, x: Exchange) returns (r: Result<string, NetconfError>)
      modifies this
      ensures (Snapshot(), r) == Marked(Sent(old(Snapshot()), SyncRequest(request), x))
    {
      r := RequestSync(request, x);
    }

    /** A numbered document sent through sendRequest, numbered after the repair. */
    method SendNumbered(op: NumberedOp, x: Exchange) returns (r: Result<string, NetconfError>)
      modifies this
      ensures (Snapshot(), r) == SentNumbered(old(Snapshot()), op, x)
    {
      var c := CheckAndReestablish(x.liveness);
      if c.Err? {
        r := Err(c.error);
        return;
      }
      var reply := Post(NumberedRpc(op, messageId), x.reply);
      r := Ok(reply);
    }

    /** A numbered document as getConfig and editConfig send it: numbered before sendRequest. */
    method SendNumberedAsWritten(op: NumberedOp, x: Exchange) returns (r: Result<string, NetconfError>)
      modifies this
      ensures (Snapshot(), r) == SentNumberedAsWritten(old(Snapshot()), op, x)
    {
      var doc := NumberedRpc(op, messageId);
      r := SendRequest(doc, x);
    }

    /** getConfig(target, schema), numbered with the counter read before sendRequest; the reply marked. */
    method GetConfig(target: string, schema: Option<string>, x: Exchange) returns (r: Result<string, NetconfError>)
      modifies this
      ensures (Snapshot(), r) == Marked(SentNumberedAsWritten(old(Snapshot()), GetConfigOp(target, schema), x))
    {
      var reply := SendNumberedAsWritten(GetConfigOp(target, schema), x);
      r := if reply.Ok? then Ok(MarkReply(reply.value)) else reply;
    }

    /** getConfig with the document numbered after the repair, so its id is the key of its reply. */
    method GetConfigCorrected(target: string, schema: Option<string>, x: Exchange)
      returns (r: Result<string, NetconfError>)
      modifies this
      ensures (Snapshot(), r) == Marked(SentNumbered(old(Snapshot()), GetConfigOp(target, schema), x))
    {
      var reply := SendNumbered(GetConfigOp(target, schema), x);
      r := if reply.Ok? then Ok(MarkReply(reply.value)) else reply;
    }

    /** editConfig(target, mode, config), numbered before sendRequest; checkReply of the reply. */
    method EditConfig(target: string, mode: string, config: string, x: Exchange) returns (r: Result<bool, NetconfError>)
      modifies this
      ensures (Snapshot(), r) == Checked(SentNumberedAsWritten(old(Snapshot()), EditConfigOp(target, mode, config), x))
    {
      var reply := SendNumberedAsWritten(EditConfigOp(target, mode, config), x);
      r := if reply.Ok? then Ok(Accepted(Some(reply.value))) else Err(reply.error);
    }

    /** editConfig(target, mode, config) with the document numbered after the repair. */
    method EditConfigCorrected(target: string, mode: string, config: string, x: Exchange)
      returns (r: Result<bool, NetconfError>)
      modifies this
      ensures (Snapshot(), r) == Checked(SentNumbered(old(Snapshot()), EditConfigOp(target, mode, config), x))
    {
      var reply := SendNumbered(EditConfigOp(target, mode, config), x);
      r := if reply.Ok? then Ok(Accepted(Some(reply.value))) else Err(reply.error);
    }

    /** editConfig(config): the configuration as given, with the end marker. */
    method EditConfigRaw(config: string, x: Exchange) returns (r: Result<bool, NetconfError>)
      modifies this
      ensures (Snapshot(), r) == Checked(Sent(old(Snapshot()), RawEditConfig(config), x))
    {
      var reply := SendRequest(RawEditConfig(config), x);
      r := if reply.Ok? then Ok(Accepted(Some(reply.value))) else Err(reply.error);
    }

    /** copyConfig, sending the document as the source builds it. */
    method CopyConfig(target: string, config: string, x: Exchange) returns (r: Result<bool, NetconfError>)
      modifies this
      ensures (Snapshot(), r) == Checked(Sent(old(Snapshot()), CopyConfigRpcAsWritten(target, config), x))
    {
      var reply := SendRequest(CopyConfigRpcAsWritten(target, config), x);
      r := if reply.Ok? then Ok(Accepted(Some(reply.value))) else Err(reply.error);
    }

    /** copyConfig with the configuration placed in the source element as the payload intends. */
    method CopyConfigCorrected(target: string, config: string, x: Exchange) returns (r: Result<bool, NetconfError>)
      modifies this
      ensures (Snapshot(), r) == Checked(Sent(old(Snapshot()), CopyConfigRpc(target, config), x))
    {
      var reply := SendRequest(CopyConfigRpc(target, config), x);
      r := if reply.Ok? then Ok(Accepted(Some(reply.value))) else Err(reply.error);
    }

    /** deleteConfig: refuses the running datastore without sending anything. */
    method DeleteConfig(target: string, x: Exchange) returns (r: Result<bool, NetconfError>)
      modifies this
      ensures target == RunningDatastore ==> r == Ok(false) && Snapshot() == old(Snapshot())
      ensures target != RunningDatastore ==>
        (Snapshot(), r) == Checked(Sent(old(Snapshot()), TargetRpc("delete-config", target), x))
    {
      if target == RunningDatastore {
        r := Ok(false);
        return;
      }
      var reply := SendRequest(TargetRpc("delete-config", target), x);
      r := if reply.Ok? then Ok(Accepted(Some(reply.value))) else Err(reply.error);
    }

    /** lock of the candidate datastore. */
    method Lock(x: Exchange) returns (r: Result<bool, NetconfError>)
      modifies this
      ensures (Snapshot(), r) == Checked(Sent(old(Snapshot()), LockRpc, x))
    {
      var reply := SendRequest(LockRpc, x);
      r := if reply.Ok? then Ok(Accepted(Some(reply.value))) else Err(reply.error);
    }

    /** unlock of the candidate datastore. */
    method Unlock(x: Exchange) returns (r: Result<bool, NetconfError>)
      modifies this
      ensures (Snapshot(), r) == Checked(Sent(old(Snapshot()), UnlockRpc, x))
    {
      var reply := SendRequest(UnlockRpc, x);
      r := if reply.Ok? then Ok(Accepted(Some(reply.value))) else Err(reply.error);
    }

    /** close(): close(false), retried as close(true) while the device refuses, one answer per attempt. */
    method Close(answers: seq<Exchange>) returns (r: Result<bool, NetconfError>)
      modifies this
      ensures (Snapshot(), r) == Closed(old(Snapshot()), false, answers)
    {
      var force := false;
      var i := 0;
      while i < |answers|
        invariant 0 <= i <= |answers|
        invariant Closed(old(Snapshot()), false, answers) == Closed(Snapshot(), force, answers[i..])
        decreases |answers| - i
      {
        ghost var before := Snapshot();
        assert answers[i..][0] == answers[i] && answers[i..][1..] == answers[i + 1..];
        var reply := SendRequest(CloseRpc(force), answers[i]);
        if reply.Err? {
          r := Err(reply.error);
          return;
        }
        if Accepted(Some(reply.value)) {
          r := Ok(true);
          return;
        }
        force := true;
        i := i + 1;
      }
      r := Err(Unanswered);
    }

    /** setDeviceCapabilities: the capabilities the next hello lists. */
    method SetDeviceCapabilities(capabilities: seq<string>)
      modifies this
      ensures Snapshot() == old(Snapshot()).(deviceCapabilities := capabilities)
    {
      deviceCapabilities := capabilities;
    }

    /** getSessionId over the server's hello: "-1" when it names no session-id. */
    function SessionId(): (r: Result<string, SessionIdError>)
      reads this
      ensures !Contains(serverCapabilities, SessionIdOpen) ==> r == Ok(NoSessionId)
      ensures r.Ok? && Contains(serverCapabilities, SessionIdOpen) ==>
        !Contains(r.value, SessionIdOpen) && !Contains(r.value, SessionIdClose)
    {
      var id := SessionIdOf(serverCapabilities);
      if id.Ok? && Contains(serverCapabilities, SessionIdOpen) then
        SessionIdSound(serverCapabilities, id.value);
        id
      else id
    }
  }

  /** The constructor's call of startConnection: a session and how opening it ended. */
  method Open(firstId: nat, link: Link) returns (session: NetconfSession, r: Result<(), NetconfError>)
    ensures fresh(session)
    ensures (session.Snapshot(), r) == Connected(Initial(firstId), link)
  {
    session := new NetconfSession(firstId);
    r := session.StartConnection(link);
  }
}
