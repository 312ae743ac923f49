# NETCONF client session, modelled in Dafny

This project models `NetconfSessionImpl`, the ONOS client side of a NETCONF 1.0
session (RFC 4741 / RFC 6241). Messages are framed by the end-of-message marker
`]]>]]>`, as in section 4.1 of RFC 4742. The model covers:

- the RPC documents the client builds: hello, get-config, edit-config,
  copy-config, delete-config, lock, unlock and close;
- the reply check `checkReply` and the `"ERROR "` marking done by `requestSync`
  and `getConfig`;
- reading the session-id out of the server's hello;
- message-id stamping in `sendRequest`;
- the message-id counter and the `replies` table that correlates replies with
  requests. `request` adds a pending entry and the delegate's `notify`
  completes it;
- opening the connection and the SSH session, and sending the hello;
- the lazy repair `checkAndRestablishSession` that runs before every request.

Modules, as the files divide them:

- `Util` (util.dfy): `Option` and `Result`.
- `Text` (text.dfy): the `java.lang.String` operations the class relies on:
  - `contains`/`indexOf`;
  - `startsWith`;
  - `replaceFirst`, for a literal pattern;
  - `split`, with its zero limit, so trailing empty pieces are dropped;
  - `trim`;
  - `String.valueOf` of a non-negative `int`.
- `Replies` (replies.dfy): `checkReply`, the `"ERROR "` marking and
  `getSessionId`.
- `Payloads` (payloads.dfy): every document builder, and stamping.
  - Each builder has a reader that gives back its parts, and a round-trip lemma
    pairs the two.
  - Stamping is `sendRequest`'s replacement of the first `">`.
  - A reader recovers the message-id a document carries.
- `Session` (session.dfy): the session state as a datatype `State`, and pure
  functions over it (`Registered`, `Completed`, `Issued`, `Posted`,
  `Exchanged`, `SessionStarted`, `Connected`, `Reestablished`, `Sent`,
  `Closed`).
  - A class `NetconfSession` holds the same fields and performs the steps
    imperatively.
  - Every method's `ensures` ties the new fields and the result to the function
    for that step.
  - Lemmas state what those functions promise.

The SSH transport and the reader thread are replaced by inputs: a `Link` (does
the connection open, how does authentication end, does a session channel open
and what hello does the device send), a `Liveness` (the SSH session state seen
by the repair, with the answers a restart would get) and an `Exchange` (that and
the device's reply to the request). The blocking `join` becomes `Await`: it
reads the entry that `Deliver`, the model of `notify`, completed.

Where this model decides something the code leaves open:

- Exceptions become `Err` values of `NetconfError`.
- `checkAndRestablishSession` catches `IOException`, and `NetconfException` is
  one. The failure of `Preconditions.checkArgument` after a refused login is an
  `IllegalArgumentException`, so it is not caught. This is why `Reestablished`
  maps every error of the fallback `startConnection` to `CannotReopen` except
  `AuthenticationRejected`.
- `startSshSession` sends the hello through `sendRequest`, whose own repair
  check runs first. The model takes that check to find the just-opened session
  open.
- `serverCapabilities` starts as the empty string; it is `null` in the code
  until a hello is received.

## Model

| member | source | states |
|---|---|---|
| Replies.Accepted | protocols/netconf/ctl/src/main/java/org/onosproject/netconf/ctl/NetconfSessionImpl.java:382-394 | checkReply: a missing reply is refused; a present one is accepted without `<rpc-error>`, or with `<ok/>`, or with an `<rpc-error>` and `warning` (its meaning is stated by Replies.AcceptedByOccurrences) |
| Replies.MarkReply | protocols/netconf/ctl/src/main/java/org/onosproject/netconf/ctl/NetconfSessionImpl.java:170 | the reply, or `"ERROR "` + reply when checkReply refuses it (its inverse is Replies.ReadMarkedReply) |
| Replies.AcceptedByOccurrences | protocols/netconf/ctl/src/main/java/org/onosproject/netconf/ctl/NetconfSessionImpl.java:382-394 | a present reply is accepted iff `<rpc-error>` occurs nowhere in it, or `<ok/>` occurs in it, or `warning` occurs in it |
| Replies.AcceptsOk | protocols/netconf/ctl/src/main/java/org/onosproject/netconf/ctl/NetconfSessionImpl.java:386 | an `<rpc-reply>` holding `<ok/>` is accepted |
| Replies.AcceptsData | protocols/netconf/ctl/src/main/java/org/onosproject/netconf/ctl/NetconfSessionImpl.java:384-385 | a data reply without `<rpc-error>` is accepted |
| Replies.AcceptsWarning | protocols/netconf/ctl/src/main/java/org/onosproject/netconf/ctl/NetconfSessionImpl.java:387-389 | an `<rpc-error>` of severity `warning` is accepted |
| Replies.RefusesError | protocols/netconf/ctl/src/main/java/org/onosproject/netconf/ctl/NetconfSessionImpl.java:382-394 | an `<rpc-error>` of severity `error`, with no `<ok/>`, is refused |
| Replies.AcceptedBehindMark | protocols/netconf/ctl/src/main/java/org/onosproject/netconf/ctl/NetconfSessionImpl.java:170 | putting `"ERROR "` in front of a reply does not change whether it is accepted |
| Replies.ReadMarkedReply | protocols/netconf/ctl/src/main/java/org/onosproject/netconf/ctl/NetconfSessionImpl.java:168-171 | from what requestSync returns (the reply, or `"ERROR "` + reply) the verdict of checkReply and the exact reply text are both recovered |
| Replies.SessionIdOf | protocols/netconf/ctl/src/main/java/org/onosproject/netconf/ctl/NetconfSessionImpl.java:347-360 | getSessionId: `"-1"` without `<session-id>`, an error where the precondition check or the array read fails, otherwise the first piece between the tags (its properties are Replies.SessionIdOfHello, Replies.SessionIdAtEndRefused and Replies.SessionIdSound) |
| Replies.SessionIdOfHello | protocols/netconf/ctl/src/main/java/org/onosproject/netconf/ctl/NetconfSessionImpl.java:347-360 | a hello with `<session-id>v</session-id>` followed by more text yields exactly `v` |
| Replies.SessionIdAtEndRefused | protocols/netconf/ctl/src/main/java/org/onosproject/netconf/ctl/NetconfSessionImpl.java:353-356 | when `</session-id>` ends the hello, the second split has one piece, or none when the id is empty, and getSessionId fails: the precondition check refuses one piece, and reading the first of no pieces is out of bounds |
| Replies.SessionIdSound | protocols/netconf/ctl/src/main/java/org/onosproject/netconf/ctl/NetconfSessionImpl.java:349-356 | a returned session-id is the text right after the first `<session-id>`, followed there by `</session-id>`, and holds neither tag |
| Replies.SplitOfTwo | protocols/netconf/ctl/src/main/java/org/onosproject/netconf/ctl/NetconfSessionImpl.java:350 | `a sep b` splits into `[a, b]`, into `[a]` when `b` is empty, and into `[]` when both are, as String.split does |
| Text.IndexOf | protocols/netconf/ctl/src/main/java/org/onosproject/netconf/ctl/NetconfSessionImpl.java:183 | the index found is an occurrence with none before it, and none is found only when there is no occurrence |
| Text.ReplaceFirst | protocols/netconf/ctl/src/main/java/org/onosproject/netconf/ctl/NetconfSessionImpl.java:184 | replaceFirst of a literal pattern: text without the pattern is unchanged (the replaced occurrence is stated by Text.ReplaceFirstAtFirst) |
| Text.ReplaceFirstAtFirst | protocols/netconf/ctl/src/main/java/org/onosproject/netconf/ctl/NetconfSessionImpl.java:184-185 | replaceFirst replaces the leftmost occurrence and keeps the text before and after it |
| Text.Trim | protocols/netconf/ctl/src/main/java/org/onosproject/netconf/ctl/NetconfSessionImpl.java:257 | the trimmed text is a slice of the input with only blanks around it, and neither starts nor ends with a blank |
| Text.Split | protocols/netconf/ctl/src/main/java/org/onosproject/netconf/ctl/NetconfSessionImpl.java:350 | without the separator the split is the whole text; otherwise it is the pieces between separators with the trailing empty ones dropped |
| Text.DigitsValueOfNatToString | protocols/netconf/ctl/src/main/java/org/onosproject/netconf/ctl/NetconfSessionImpl.java:185 | the decimal text of the counter reads back as the counter |
| Payloads.Hello | protocols/netconf/ctl/src/main/java/org/onosproject/netconf/ctl/NetconfSessionImpl.java:137-149 | the hello ends with `]]>]]>` |
| Payloads.CapabilityLinesSnoc | protocols/netconf/ctl/src/main/java/org/onosproject/netconf/ctl/NetconfSessionImpl.java:142-143 | one more capability appends exactly its `<capability>` line |
| Payloads.ParseCapabilityLines | protocols/netconf/ctl/src/main/java/org/onosproject/netconf/ctl/NetconfSessionImpl.java:142-143 | every capability list read from a text prints back as that text |
| Payloads.ParseCapabilityLinesOf | protocols/netconf/ctl/src/main/java/org/onosproject/netconf/ctl/NetconfSessionImpl.java:142-143 | the capability lines read back as the capabilities, in order |
| Payloads.HelloListsCapabilities | protocols/netconf/ctl/src/main/java/org/onosproject/netconf/ctl/NetconfSessionImpl.java:137-149 | the hello lists one `<capability>` per device capability, in order: reading it gives back the list |
| Payloads.HelloCapabilitiesSound | protocols/netconf/ctl/src/main/java/org/onosproject/netconf/ctl/NetconfSessionImpl.java:137-149 | any text read as a hello is the hello of the capabilities read |
| Payloads.DefaultHello | protocols/netconf/ctl/src/main/java/org/onosproject/netconf/ctl/NetconfSessionImpl.java:62-63 | by default the hello lists only `urn:ietf:params:netconf:base:1.0` |
| Payloads.ReadRpcHeaderOf | protocols/netconf/ctl/src/main/java/org/onosproject/netconf/ctl/NetconfSessionImpl.java:206-208 | the numbered `<rpc message-id="N" ...>` header reads back as N and the rest |
| Payloads.ReadDatastoreElementOf | protocols/netconf/ctl/src/main/java/org/onosproject/netconf/ctl/NetconfSessionImpl.java:211 | the `<T/>` datastore element reads back as T |
| Payloads.GetConfigRpc | protocols/netconf/ctl/src/main/java/org/onosproject/netconf/ctl/NetconfSessionImpl.java:205-220 | the get-config document ends with `]]>]]>` |
| Payloads.ReadSubtreeFilterOf | protocols/netconf/ctl/src/main/java/org/onosproject/netconf/ctl/NetconfSessionImpl.java:213-217 | the filter part reads back as the schema: a subtree `<filter>` iff the schema is present |
| Payloads.GetConfigRoundTrip | protocols/netconf/ctl/src/main/java/org/onosproject/netconf/ctl/NetconfSessionImpl.java:205-220 | the get-config document reads back as its message-id, source datastore and optional schema |
| Payloads.SyncRequest | protocols/netconf/ctl/src/main/java/org/onosproject/netconf/ctl/NetconfSessionImpl.java:169 | requestSync sends the request followed by a newline and `]]>]]>` |
| Payloads.RawEditConfig | protocols/netconf/ctl/src/main/java/org/onosproject/netconf/ctl/NetconfSessionImpl.java:226-228 | the one-argument editConfig sends its text followed by `]]>]]>` |
| Payloads.EditConfigRpc | protocols/netconf/ctl/src/main/java/org/onosproject/netconf/ctl/NetconfSessionImpl.java:232-250 | the edit-config document ends with `]]>]]>` |
| Payloads.EditConfigRoundTrip | protocols/netconf/ctl/src/main/java/org/onosproject/netconf/ctl/NetconfSessionImpl.java:232-250 | the edit-config document reads back as its message-id, target, default operation and the trimmed configuration |
| Payloads.EditConfigTrimsOnce | protocols/netconf/ctl/src/main/java/org/onosproject/netconf/ctl/NetconfSessionImpl.java:234 | trimming the configuration beforehand changes nothing |
| Payloads.ConfigurationBody | protocols/netconf/ctl/src/main/java/org/onosproject/netconf/ctl/NetconfSessionImpl.java:257-261 | copyConfig's body: the trimmed configuration, wrapped in `<configuration>` unless it already starts with it (stated by Payloads.ConfigurationBodyWraps) |
| Payloads.ConfigurationBodyWraps | protocols/netconf/ctl/src/main/java/org/onosproject/netconf/ctl/NetconfSessionImpl.java:257-261 | the body always starts with `<configuration>`, and is the trimmed text unchanged iff that already started with it |
| Payloads.ConfigurationBodyIdempotent | protocols/netconf/ctl/src/main/java/org/onosproject/netconf/ctl/NetconfSessionImpl.java:257-261 | wrapping an already wrapped body changes nothing |
| Payloads.CopyConfigRpc | protocols/netconf/ctl/src/main/java/org/onosproject/netconf/ctl/NetconfSessionImpl.java:262-274 | the copy-config document ends with `]]>]]>` |
| Payloads.CopyConfigRoundTrip | protocols/netconf/ctl/src/main/java/org/onosproject/netconf/ctl/NetconfSessionImpl.java:262-274 | the corrected copy-config document reads back as its target and the wrapped configuration as `<source>` content |
| Payloads.CopyConfigRpcAsWritten | protocols/netconf/ctl/src/main/java/org/onosproject/netconf/ctl/NetconfSessionImpl.java:262-274 | copy-config as written: ends with `]]>]]>` |
| Payloads.CopyConfigAsWrittenMalformed | protocols/netconf/ctl/src/main/java/org/onosproject/netconf/ctl/NetconfSessionImpl.java:270 | as written, the `<source>` content starts with `<<configuration>` and never equals the configuration |
| Payloads.TargetRpc | protocols/netconf/ctl/src/main/java/org/onosproject/netconf/ctl/NetconfSessionImpl.java:285-294 | the delete-config, lock and unlock documents end with `]]>]]>` |
| Payloads.TargetRpcRoundTrip | protocols/netconf/ctl/src/main/java/org/onosproject/netconf/ctl/NetconfSessionImpl.java:285-294 | such a document reads back as its operation and target datastore |
| Payloads.DeleteConfigRpc | protocols/netconf/ctl/src/main/java/org/onosproject/netconf/ctl/NetconfSessionImpl.java:279-284 | no document for `running`, otherwise the delete-config of the target (stated by Payloads.DeleteConfigRoundTrip) |
| Payloads.DeleteConfigRoundTrip | protocols/netconf/ctl/src/main/java/org/onosproject/netconf/ctl/NetconfSessionImpl.java:279-296 | there is no document iff the target is `running`; otherwise it is a delete-config of that target |
| Payloads.LockUnlockRoundTrip | protocols/netconf/ctl/src/main/java/org/onosproject/netconf/ctl/NetconfSessionImpl.java:299-326 | lock and unlock target the `candidate` datastore |
| Payloads.CloseRpc | protocols/netconf/ctl/src/main/java/org/onosproject/netconf/ctl/NetconfSessionImpl.java:333-343 | the close document ends with `]]>]]>` |
| Payloads.CloseRoundTrip | protocols/netconf/ctl/src/main/java/org/onosproject/netconf/ctl/NetconfSessionImpl.java:334-343 | the close document reads back as its force flag: `<kill-configuration/>` iff forced, then `<close-configuration/>` |
| Payloads.CloseIsNotKill | protocols/netconf/ctl/src/main/java/org/onosproject/netconf/ctl/NetconfSessionImpl.java:336-341 | an unforced close does not start with `<kill-configuration/>` |
| Payloads.Stamp | protocols/netconf/ctl/src/main/java/org/onosproject/netconf/ctl/NetconfSessionImpl.java:183-186 | a request mentioning `message-id` or `hello`, or without `">`, is sent unchanged |
| Payloads.StampAtFirstSlot | protocols/netconf/ctl/src/main/java/org/onosproject/netconf/ctl/NetconfSessionImpl.java:183-186 | otherwise the first `">` becomes `" message-id="N">` and the rest of the request is kept |
| Payloads.StampCarriesId | protocols/netconf/ctl/src/main/java/org/onosproject/netconf/ctl/NetconfSessionImpl.java:184-185 | a stamped request carries the counter value as its message-id |
| Payloads.StampDistinguishes | protocols/netconf/ctl/src/main/java/org/onosproject/netconf/ctl/NetconfSessionImpl.java:184-185 | stamping at two counter values gives two different documents |
| Payloads.HelloNotStamped | protocols/netconf/ctl/src/main/java/org/onosproject/netconf/ctl/NetconfSessionImpl.java:183 | the hello names `hello` and is sent unchanged |
| Payloads.ConfigRpcsNotStamped | protocols/netconf/ctl/src/main/java/org/onosproject/netconf/ctl/NetconfSessionImpl.java:183 | get-config and edit-config documents already name `message-id` and are sent unchanged |
| Payloads.HeaderCarriesId | protocols/netconf/ctl/src/main/java/org/onosproject/netconf/ctl/NetconfSessionImpl.java:207 | a numbered document carries the number it was built with as its message-id |
| Payloads.DeclaredUnstamped | protocols/netconf/ctl/src/main/java/org/onosproject/netconf/ctl/NetconfSessionImpl.java:262-263 | a declared document whose body has no quote holds no `">` and is sent without message-id |
| Payloads.TargetRpcUnstamped | protocols/netconf/ctl/src/main/java/org/onosproject/netconf/ctl/NetconfSessionImpl.java:285-294 | delete-config, lock and unlock documents are sent without message-id |
| Payloads.CloseUnstamped | protocols/netconf/ctl/src/main/java/org/onosproject/netconf/ctl/NetconfSessionImpl.java:334-343 | the close document is sent without message-id |
| Session.Initial | protocols/netconf/ctl/src/main/java/org/onosproject/netconf/ctl/NetconfSessionImpl.java:69-72 | a new session is inactive, with an empty replies table and nothing sent |
| Session.Registered | protocols/netconf/ctl/src/main/java/org/onosproject/netconf/ctl/NetconfSessionImpl.java:174-178 | request: the document sent and a pending entry under the counter (stated by Session.RegisteredEntries) |
| Session.Completed | protocols/netconf/ctl/src/main/java/org/onosproject/netconf/ctl/NetconfSessionImpl.java:399-402 | notify: the entry of the id completed with the payload unless it already was (stated by Session.CompletedEntries) |
| Session.Issued | protocols/netconf/ctl/src/main/java/org/onosproject/netconf/ctl/NetconfSessionImpl.java:183-188 | sendRequest up to the join: stamp, register, advance the counter (stated by Session.IssuedEntries) |
| Session.Posted | protocols/netconf/ctl/src/main/java/org/onosproject/netconf/ctl/NetconfSessionImpl.java:187-191 | a document registered, the counter advanced, the reply delivered (stated by Session.PostedEntries) |
| Session.Exchanged | protocols/netconf/ctl/src/main/java/org/onosproject/netconf/ctl/NetconfSessionImpl.java:183-191 | the stamped request posted and answered (stated by Session.ExchangedEntries) |
| Session.SessionStarted | protocols/netconf/ctl/src/main/java/org/onosproject/netconf/ctl/NetconfSessionImpl.java:115-135 | startSshSession: SessionFailed when no channel opens, otherwise the hello posted and the device's hello kept (stated by Session.StartedSendsHello) |
| Session.Connected | protocols/netconf/ctl/src/main/java/org/onosproject/netconf/ctl/NetconfSessionImpl.java:77-113 | startConnection: nothing when active, CannotConnect, AuthenticationFailed, a refused login after marking active, or the SSH session started (stated by Session.RejectedLoginNeverRetried) |
| Session.Reestablished | protocols/netconf/ctl/src/main/java/org/onosproject/netconf/ctl/NetconfSessionImpl.java:151-165 | checkAndRestablishSession: nothing in state 2, else restart, else startConnection with its NetconfException mapped to CannotReopen (stated by Session.ReestablishedCases) |
| Session.Sent | protocols/netconf/ctl/src/main/java/org/onosproject/netconf/ctl/NetconfSessionImpl.java:180-192 | sendRequest: the repair, then the stamped request exchanged (stated by Session.SentAnswersRequest) |
| Session.RegisteredEntries | protocols/netconf/ctl/src/main/java/org/onosproject/netconf/ctl/NetconfSessionImpl.java:174-178 | request sends the document and puts a pending entry under the current counter, leaving the counter and all other entries alone |
| Session.CompletedEntries | protocols/netconf/ctl/src/main/java/org/onosproject/netconf/ctl/NetconfSessionImpl.java:399-402 | notify completes only the entry of the event's id, with its payload, if still pending; the keys and all other entries are unchanged |
| Session.CompletedOnce | protocols/netconf/ctl/src/main/java/org/onosproject/netconf/ctl/NetconfSessionImpl.java:401 | a second notify for the same id changes nothing |
| Session.OutOfOrderDelivery | protocols/netconf/ctl/src/main/java/org/onosproject/netconf/ctl/NetconfSessionImpl.java:399-402 | replies delivered in the opposite order still end up under their own requests' ids |
| Session.IssuedEntries | protocols/netconf/ctl/src/main/java/org/onosproject/netconf/ctl/NetconfSessionImpl.java:183-188 | a sendRequest step sends the stamped request, registers it under the counter and advances the counter by exactly one |
| Session.PostedEntries | protocols/netconf/ctl/src/main/java/org/onosproject/netconf/ctl/NetconfSessionImpl.java:187-191 | sending a document and receiving its reply stores the reply under the old counter value and advances the counter by one |
| Session.ExchangedEntries | protocols/netconf/ctl/src/main/java/org/onosproject/netconf/ctl/NetconfSessionImpl.java:183-191 | the exchange stores the device's reply under the id the request was stamped with and leaves every other entry alone |
| Session.IssuedInOrder | protocols/netconf/ctl/src/main/java/org/onosproject/netconf/ctl/NetconfSessionImpl.java:176-188 | successive requests get consecutive ids, each has its own pending entry, and no earlier entry is overwritten |
| Session.RequestKeyReused | protocols/netconf/ctl/src/main/java/org/onosproject/netconf/ctl/NetconfSessionImpl.java:174-178 | request does not advance the counter, so the next sendRequest overwrites its entry with a pending one |
| Session.HelloExchange | protocols/netconf/ctl/src/main/java/org/onosproject/netconf/ctl/NetconfSessionImpl.java:133-135 | sendHello's exchange sends the hello unstamped |
| Session.StartedSendsHello | protocols/netconf/ctl/src/main/java/org/onosproject/netconf/ctl/NetconfSessionImpl.java:115-135 | a started session has sent the hello, stores the device's hello as server capabilities and under the hello's id, and advances the counter by one |
| Session.RejectedLoginNeverRetried | protocols/netconf/ctl/src/main/java/org/onosproject/netconf/ctl/NetconfSessionImpl.java:105-106 | a refused login fails, yet leaves the connection marked active, so every later startConnection does nothing |
| Session.ReestablishedCases | protocols/netconf/ctl/src/main/java/org/onosproject/netconf/ctl/NetconfSessionImpl.java:151-165 | the repair does nothing in state 2, restarts the SSH session otherwise, fails only with CannotReopen or a refused login, and keeps the connection active |
| Session.SilentFallback | protocols/netconf/ctl/src/main/java/org/onosproject/netconf/ctl/NetconfSessionImpl.java:157-158 | on an active connection a failed restart falls back to a startConnection that does nothing, and the repair reports success |
| Session.RepairFailsOnlyUnconnected | protocols/netconf/ctl/src/main/java/org/onosproject/netconf/ctl/NetconfSessionImpl.java:151-165 | the repair can fail only for a connection never marked active whose restart failed |
| Session.ValidStarted | protocols/netconf/ctl/src/main/java/org/onosproject/netconf/ctl/NetconfSessionImpl.java:115-131 | starting the SSH session keeps every key of the table at or below the counter |
| Session.ValidConnected | protocols/netconf/ctl/src/main/java/org/onosproject/netconf/ctl/NetconfSessionImpl.java:77-113 | startConnection keeps that invariant |
| Session.ValidReestablished | protocols/netconf/ctl/src/main/java/org/onosproject/netconf/ctl/NetconfSessionImpl.java:151-165 | the repair keeps that invariant |
| Session.SentAnswersRequest | protocols/netconf/ctl/src/main/java/org/onosproject/netconf/ctl/NetconfSessionImpl.java:180-192 | a successful sendRequest returns the device's reply, the last document sent is the request stamped at the id just used, and the reply is stored under that id; the counter has moved forward and every entry under an earlier id is kept |
| Session.ReestablishedKeepsEarlier | protocols/netconf/ctl/src/main/java/org/onosproject/netconf/ctl/NetconfSessionImpl.java:151-165 | the repair never moves the counter back and leaves every entry under an earlier id as it was |
| Session.ValidSent | protocols/netconf/ctl/src/main/java/org/onosproject/netconf/ctl/NetconfSessionImpl.java:180-192 | sendRequest keeps that invariant |
| Session.SentNumberedAsWritten | protocols/netconf/ctl/src/main/java/org/onosproject/netconf/ctl/NetconfSessionImpl.java:205-221 | getConfig and editConfig as written: the document numbered with the counter before sendRequest (stated by Session.NumberedAsWrittenMismatch) |
| Session.SentNumbered | protocols/netconf/ctl/src/main/java/org/onosproject/netconf/ctl/NetconfSessionImpl.java:180-192 | the same numbered after the repair (stated by Session.NumberedIdMatchesKey) |
| Session.Marked | protocols/netconf/ctl/src/main/java/org/onosproject/netconf/ctl/NetconfSessionImpl.java:170 | requestSync and getConfig: sendRequest's reply passed through the `"ERROR "` marking, errors unchanged (inverted by Replies.ReadMarkedReply) |
| Session.Checked | protocols/netconf/ctl/src/main/java/org/onosproject/netconf/ctl/NetconfSessionImpl.java:228 | the boolean operations: checkReply of sendRequest's reply, errors unchanged (the verdict is characterised by Replies.AcceptedByOccurrences) |
| Session.NumberedRpc | protocols/netconf/ctl/src/main/java/org/onosproject/netconf/ctl/NetconfSessionImpl.java:206-208 | a get-config or edit-config document built with number N carries message-id N and is not stamped again |
| Session.ConfigRpcsNotStampedAny | protocols/netconf/ctl/src/main/java/org/onosproject/netconf/ctl/NetconfSessionImpl.java:183 | a numbered document is sent unchanged whatever the counter reads |
| Session.NumberedAgreeWhenOpen | protocols/netconf/ctl/src/main/java/org/onosproject/netconf/ctl/NetconfSessionImpl.java:181 | when the SSH session is open, getConfig and editConfig as written and as corrected do the same thing |
| Session.NumberedAsWrittenMismatch | protocols/netconf/ctl/src/main/java/org/onosproject/netconf/ctl/NetconfSessionImpl.java:205-221 | as written, after a restart the document carries the id the hello took, and its reply is stored one key further on |
| Session.NumberedIdMatchesKey | protocols/netconf/ctl/src/main/java/org/onosproject/netconf/ctl/NetconfSessionImpl.java:205-221 | numbered after the repair, the document sent carries the key its reply is stored under |
| Session.CloseNeverRefuses | protocols/netconf/ctl/src/main/java/org/onosproject/netconf/ctl/NetconfSessionImpl.java:344 | close never returns false: a refused close is retried forced |
| Session.CloseSucceedsOnAccepted | protocols/netconf/ctl/src/main/java/org/onosproject/netconf/ctl/NetconfSessionImpl.java:344 | close returns true only when some answer it received was accepted and every answer before it was refused, so the accepted one is the answer close stopped at |
| Session.Closed | protocols/netconf/ctl/src/main/java/org/onosproject/netconf/ctl/NetconfSessionImpl.java:329-345 | close: the unforced document, retried forced while refused, until the answers run out (stated by Session.CloseNeverRefuses, Session.CloseSucceedsOnAccepted and Session.ClosedSendsCloses) |
| Session.CloseDocuments | protocols/netconf/ctl/src/main/java/org/onosproject/netconf/ctl/NetconfSessionImpl.java:333-344 | the documents of n close attempts: `CloseRpc(force)` first, `CloseRpc(true)` for every retry |
| Session.OpenCloseSent | protocols/netconf/ctl/src/main/java/org/onosproject/netconf/ctl/NetconfSessionImpl.java:333-344 | on an open session one close attempt sends its document unstamped and returns the device's reply |
| Session.ClosedSendsCloses | protocols/netconf/ctl/src/main/java/org/onosproject/netconf/ctl/NetconfSessionImpl.java:333-344 | on an open session close sends only close documents, unforced (as asked) first and forced for every retry, at least one when answered |
| Session.ClosedValid | protocols/netconf/ctl/src/main/java/org/onosproject/netconf/ctl/NetconfSessionImpl.java:333-345 | close keeps the table invariant |
| Session.NetconfSession.constructor | protocols/netconf/ctl/src/main/java/org/onosproject/netconf/ctl/NetconfSessionImpl.java:69-72 | the fields start as the initial state |
| Session.NetconfSession.CreateHelloString | protocols/netconf/ctl/src/main/java/org/onosproject/netconf/ctl/NetconfSessionImpl.java:137-149 | the loop over the device capabilities builds exactly the hello of those capabilities |
| Session.NetconfSession.Request | protocols/netconf/ctl/src/main/java/org/onosproject/netconf/ctl/NetconfSessionImpl.java:174-178 | the new fields are the registration of the document under the current counter, whose value is returned |
| Session.NetconfSession.Deliver | protocols/netconf/ctl/src/main/java/org/onosproject/netconf/ctl/NetconfSessionImpl.java:399-402 | the new fields are the completion of that entry; the id must be in the table |
| Session.NetconfSession.Await | protocols/netconf/ctl/src/main/java/org/onosproject/netconf/ctl/NetconfSessionImpl.java:189 | the value read is the completed entry's |
| Session.NetconfSession.Post | protocols/netconf/ctl/src/main/java/org/onosproject/netconf/ctl/NetconfSessionImpl.java:187-191 | request, counter advance, delivery and join together are the posting of the document |
| Session.NetconfSession.Transmit | protocols/netconf/ctl/src/main/java/org/onosproject/netconf/ctl/NetconfSessionImpl.java:183-191 | the stamping and posting of the request |
| Session.NetconfSession.StartSshSession | protocols/netconf/ctl/src/main/java/org/onosproject/netconf/ctl/NetconfSessionImpl.java:115-135 | the fields and result are those of SessionStarted |
| Session.NetconfSession.StartConnection | protocols/netconf/ctl/src/main/java/org/onosproject/netconf/ctl/NetconfSessionImpl.java:77-113 | the fields and result are those of Connected |
| Session.NetconfSession.CheckAndReestablish | protocols/netconf/ctl/src/main/java/org/onosproject/netconf/ctl/NetconfSessionImpl.java:151-165 | the fields and result are those of Reestablished |
| Session.NetconfSession.SendRequest | protocols/netconf/ctl/src/main/java/org/onosproject/netconf/ctl/NetconfSessionImpl.java:180-192 | the fields and result are those of Sent |
| Session.NetconfSession.RequestSync | protocols/netconf/ctl/src/main/java/org/onosproject/netconf/ctl/NetconfSessionImpl.java:168-171 | sendRequest of the framed request, then the reply or `"ERROR "` + reply |
| Session.NetconfSession.Get | protocols/netconf/ctl/src/main/java/org/onosproject/netconf/ctl/NetconfSessionImpl.java:195-197 | the same as requestSync |
| Session.NetconfSession.SendNumbered | protocols/netconf/ctl/src/main/java/org/onosproject/netconf/ctl/NetconfSessionImpl.java:180-192 | the repair, then the document numbered with the counter it is registered under |
| Session.NetconfSession.SendNumberedAsWritten | protocols/netconf/ctl/src/main/java/org/onosproject/netconf/ctl/NetconfSessionImpl.java:205-221 | the document numbered before sendRequest's repair, as the code does |
| Session.NetconfSession.GetConfig | protocols/netconf/ctl/src/main/java/org/onosproject/netconf/ctl/NetconfSessionImpl.java:205-223 | getConfig as written: the get-config numbered before the repair, then the reply or `"ERROR "` + reply |
| Session.NetconfSession.GetConfigCorrected | protocols/netconf/ctl/src/main/java/org/onosproject/netconf/ctl/NetconfSessionImpl.java:205-223 | getConfig with the document numbered after the repair, then the reply or `"ERROR "` + reply |
| Session.NetconfSession.EditConfig | protocols/netconf/ctl/src/main/java/org/onosproject/netconf/ctl/NetconfSessionImpl.java:232-252 | editConfig as written: the edit-config numbered before the repair, then checkReply of the reply |
| Session.NetconfSession.EditConfigCorrected | protocols/netconf/ctl/src/main/java/org/onosproject/netconf/ctl/NetconfSessionImpl.java:232-252 | editConfig with the document numbered after the repair, then checkReply of the reply |
| Session.NetconfSession.EditConfigRaw | protocols/netconf/ctl/src/main/java/org/onosproject/netconf/ctl/NetconfSessionImpl.java:226-229 | sendRequest of the framed text, then checkReply |
| Session.NetconfSession.CopyConfig | protocols/netconf/ctl/src/main/java/org/onosproject/netconf/ctl/NetconfSessionImpl.java:255-276 | sendRequest of the copy-config as the code builds it, then checkReply |
| Session.NetconfSession.CopyConfigCorrected | protocols/netconf/ctl/src/main/java/org/onosproject/netconf/ctl/NetconfSessionImpl.java:255-276 | sendRequest of the copy-config with the configuration as the `<source>` content, then checkReply |
| Session.NetconfSession.DeleteConfig | protocols/netconf/ctl/src/main/java/org/onosproject/netconf/ctl/NetconfSessionImpl.java:279-296 | `running` gives false with every field unchanged; any other target sends delete-config and checks the reply |
| Session.NetconfSession.Lock | protocols/netconf/ctl/src/main/java/org/onosproject/netconf/ctl/NetconfSessionImpl.java:299-311 | sendRequest of the lock document, then checkReply |
| Session.NetconfSession.Unlock | protocols/netconf/ctl/src/main/java/org/onosproject/netconf/ctl/NetconfSessionImpl.java:314-326 | sendRequest of the unlock document, then checkReply |
| Session.NetconfSession.Close | protocols/netconf/ctl/src/main/java/org/onosproject/netconf/ctl/NetconfSessionImpl.java:329-345 | the retry loop ends in the fields and result of Closed, starting unforced |
| Session.NetconfSession.SetDeviceCapabilities | protocols/netconf/ctl/src/main/java/org/onosproject/netconf/ctl/NetconfSessionImpl.java:368-370 | only the device capabilities change |
| Session.NetconfSession.SessionId | protocols/netconf/ctl/src/main/java/org/onosproject/netconf/ctl/NetconfSessionImpl.java:347-360 | `"-1"` when the server capabilities lack `<session-id>`; otherwise a returned id holds neither tag |
| Session.Open | protocols/netconf/ctl/src/main/java/org/onosproject/netconf/ctl/NetconfSessionImpl.java:69-74 | a fresh session whose fields and result are those of startConnection on the initial state |

## Left out

- The SSH library (`ch.ethz.ssh2`) is not modelled: connect, public-key and
  password authentication, `openSession`, `startSubSystem` and the streams are
  foreign calls. Their outcomes are the inputs `Link`, `Channel` and
  `Liveness`.
- `NetconfStreamThread`, the framing it performs, and the sending of documents
  (`t.sendMessage`) are not part of this model. Sending appends to `sent`, and
  delivery is the `Deliver` step.
- The blocking `CompletableFuture.join` and the sharing of `replies` and the
  counter between threads are concurrency. `Await` reads an entry that has
  already been completed.
- The counter is held per session and starts at a constructor argument. In the
  code it is a static `AtomicInteger`, shared by every session in the process;
  its 32-bit wrap-around is not modelled either.
- `Session.Closed`: the unbounded recursion of `close(true)` while the device
  keeps refusing is bounded by the list of answers given. When the list runs
  out, the result is `Unanswered`, standing for the code retrying without end.
- Listener registration (`addDeviceOutputListener`,
  `removeDeviceOutputListener`) is left out because it delegates to the stream
  handler. Logging is left out too.
- `getServerCapabilities` is a plain field read and is not modelled separately.
  `getConfig(target)` with no schema is `GetConfig` with `None`.
- `Session.NetconfSession.SessionId`: it states the sentinel and that the value
  holds neither tag. `Replies.SessionIdSound` states where the value sits in
  the text.
- Which reply belongs to which request is decided by the stream handler, from
  the message-id of the reply. The model takes every reply to arrive under the
  key its request was registered with, including the hello and the documents
  sent without message-id. `Completed` and `Deliver` require the id to be in
  the table; for an unregistered id the code's `notify` throws a
  `NullPointerException`, which the model does not represent.
- `sessions` counts the SSH sessions started and stands for the `sshSession`
  field. `out` and `t` are not modelled.
- `serverCapabilities` starts as `""`, where the code holds `null` until the
  first hello. Before any hello, `getSessionId` would throw; the model
  returns `"-1"`.

## Findings

| source | as written | input that shows it | evidently intended | confidence | as-written member | corrected member |
|---|---|---|---|---|---|---|
| protocols/netconf/ctl/src/main/java/org/onosproject/netconf/ctl/NetconfSessionImpl.java:270 | copyConfig puts the configuration inside `"<" + ... + "/>"`, like a datastore name | any configuration, e.g. `<a/>`, gives `<source><<configuration><a/></configuration>/></source>` | the `<source>` element holds the `<configuration>` element itself | not executed | Payloads.CopyConfigAsWrittenMalformed, Session.NetconfSession.CopyConfig | Payloads.CopyConfigRoundTrip, Session.NetconfSession.CopyConfigCorrected |
| protocols/netconf/ctl/src/main/java/org/onosproject/netconf/ctl/NetconfSessionImpl.java:207 | getConfig and editConfig number the document with the counter read before sendRequest, whose repair may send the hello first | SSH session state other than 2 with a restart that succeeds: the hello takes id N, the document says message-id N, and its reply is stored under N+1 | the message-id of the document is the key its reply is stored under | not executed | Session.NumberedAsWrittenMismatch, Session.NetconfSession.GetConfig, Session.NetconfSession.EditConfig | Session.NumberedIdMatchesKey, Session.NetconfSession.GetConfigCorrected, Session.NetconfSession.EditConfigCorrected |
