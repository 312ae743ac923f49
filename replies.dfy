/**
 * How the session judges and reports a device's reply (checkReply and the
 * "ERROR " marking of requestSync and getConfig), and how it reads the
 * session-id out of the server's hello (getSessionId).
 */
module Replies {
  import opened Util
  import opened Text

  const RpcErrorTag := "<rpc-error>"
  const OkTag := "<ok/>"
  const Warning := "warning"
  const ErrorMark := "ERROR "

  /**
   * checkReply. A null reply (None) is refused; a reply without an
   * `<rpc-error>` element is accepted; one with it is accepted only when it
   * also holds `<ok/>` or mentions `warning` anywhere.
   */
  predicate Accepted(reply: Option<string>) {
    reply.Some? &&
    (!Contains(reply.value, RpcErrorTag) ||
     Contains(reply.value, OkTag) ||
     (Contains(reply.value, RpcErrorTag) && Contains(reply.value, Warning)))
  }

  /** The acceptance rule in terms of where the markers occur in the reply text. */
  lemma AcceptedByOccurrences(reply: string)
    ensures Accepted(Some(reply)) <==>
      (forall i :: !OccursAt(reply, RpcErrorTag, i)) ||
      (exists i :: OccursAt(reply, OkTag, i)) ||
      (exists i :: OccursAt(reply, Warning, i))
  {
  }

  /** What requestSync and getConfig hand back: the reply, or the reply marked as refused. */
  function MarkReply(reply: string): string {
    if Accepted(Some(reply)) then reply else ErrorMark + reply
  }

  /**
   * How a caller reads a marked reply: marked when it starts with "ERROR "
   * and what follows would itself be refused.
   */
  function ReadMarked(marked: string): (bool, string) {
    if StartsWith(marked, ErrorMark) && !Accepted(Some(marked[|ErrorMark|..])) then
      (false, marked[|ErrorMark|..])
    else
      (true, marked)
  }

  /** Putting "ERROR " in front of a reply does not change whether it is accepted. */
  lemma AcceptedBehindMark(rest: string)
    ensures Accepted(Some(ErrorMark + rest)) == Accepted(Some(rest))
  {
    ContainsBehind(ErrorMark, rest, RpcErrorTag);
    ContainsBehind(ErrorMark, rest, OkTag);
    ContainsBehind(ErrorMark, rest, Warning);
  }

  /**
   * The marking loses nothing: both the verdict and the device's reply text
   * can be recovered from what requestSync returns, even for an accepted
   * reply that itself starts with "ERROR ".
   */
  lemma ReadMarkedReply(reply: string)
    ensures ReadMarked(MarkReply(reply)) == (Accepted(Some(reply)), reply)
  {
    if Accepted(Some(reply)) && StartsWith(reply, ErrorMark) {
      assert reply == ErrorMark + reply[|ErrorMark|..];
      AcceptedBehindMark(reply[|ErrorMark|..]);
    }
    if !Accepted(Some(reply)) {
      assert (ErrorMark + reply)[|ErrorMark|..] == reply;
    }
  }

  /*
   * Replies that checkReply accepts and refuses, each written as the
   * concatenation of its elements.
   */

  /** `<rpc-reply><ok/></rpc-reply>` is accepted. */
  lemma AcceptsOk()
    ensures Accepted(Some("<rpc-reply>" + (OkTag + "</rpc-reply>")))
  {
    OccursInConcat(OkTag, "</rpc-reply>", OkTag, 0);
    OccursInConcat("<rpc-reply>", OkTag + "</rpc-reply>", OkTag, 0);
  }

  /** `<rpc-reply><data/></rpc-reply>` is accepted. */
  lemma AcceptsData()
    ensures Accepted(Some("<rpc-reply><data/></rpc-reply>"))
  {
    AbsentChar("<rpc-reply><data/></rpc-reply>", RpcErrorTag, 8);
  }

  /** An `<rpc-error>` of severity warning is accepted. */
  lemma AcceptsWarning()
    ensures Accepted(Some("<rpc-reply><rpc-error><error-severity>" + (Warning + "</error-severity></rpc-error></rpc-reply>")))
  {
    var tail := "</error-severity></rpc-error></rpc-reply>";
    OccursInConcat(Warning, tail, Warning, 0);
    OccursInConcat("<rpc-reply><rpc-error><error-severity>", Warning + tail, Warning, 0);
  }

  const ReplyOpen := "<rpc-reply>"
  const ErrorSeverity := "<error-severity>error</error-severity>"
  const ErrorReplyClose := "</rpc-error></rpc-reply>"

  /** Text with neither `k` nor `w` holds neither `<ok/>` nor `warning`. */
  lemma NoOkNoWarning(s: string)
    requires 'k' !in s && 'w' !in s
    ensures !Contains(s, OkTag) && !Contains(s, Warning)
  {
    AbsentChar(s, OkTag, 2);
    AbsentChar(s, Warning, 0);
  }

  lemma ReplyOpenLacksKW()
    ensures 'k' !in ReplyOpen && 'w' !in ReplyOpen
  {
  }

  lemma RpcErrorTagLacksKW()
    ensures 'k' !in RpcErrorTag && 'w' !in RpcErrorTag
  {
  }

  lemma ErrorSeverityLacksKW()
    ensures 'k' !in ErrorSeverity && 'w' !in ErrorSeverity
  {
  }

  lemma ErrorReplyCloseLacksKW()
    ensures 'k' !in ErrorReplyClose && 'w' !in ErrorReplyClose
  {
  }

  /** An `<rpc-error>` of severity error is refused. */
  lemma RefusesError()
    ensures !Accepted(Some(ReplyOpen + RpcErrorTag + ErrorSeverity + ErrorReplyClose))
  {
    var a := ReplyOpen + RpcErrorTag;
    OccursInConcat(ReplyOpen, RpcErrorTag, RpcErrorTag, 0);
    OccursInConcat(a, ErrorSeverity, RpcErrorTag, |ReplyOpen|);
    OccursInConcat(a + ErrorSeverity, ErrorReplyClose, RpcErrorTag, |ReplyOpen|);
    ReplyOpenLacksKW();
    RpcErrorTagLacksKW();
    ErrorSeverityLacksKW();
    ErrorReplyCloseLacksKW();
    NoOkNoWarning(a + ErrorSeverity + ErrorReplyClose);
  }

  const SessionIdOpen := "<session-id>"
  const SessionIdClose := "</session-id>"
  const NoSessionId := "-1"

  /**
   * getSessionId's failures: a Preconditions check that rejects a split into a
   * single piece (IllegalArgumentException), or a split into no pieces at all,
   * whose first element the code then reads anyway (ArrayIndexOutOfBoundsException).
   */
  datatype SessionIdError = SinglePiece | NoPieces

  /**
   * getSessionId over the server's hello text: "-1" without a `<session-id>`,
   * otherwise the first piece of the second piece, splitting first on
   * `<session-id>` and then on `</session-id>` the way String.split does.
   */
  function SessionIdOf(caps: string): Result<string, SessionIdError> {
    if !Contains(caps, SessionIdOpen) then Ok(NoSessionId)
    else
      var outer := Split(caps, SessionIdOpen);
      if |outer| == 1 then Err(SinglePiece)
      else if |outer| == 0 then Err(NoPieces)
      else
        var value := Split(outer[1], SessionIdClose);
        if |value| == 1 then Err(SinglePiece)
        else if |value| == 0 then Err(NoPieces)
        else Ok(value[0])
  }

  lemma TagsDoNotRecur()
    ensures forall k :: 0 < k < |SessionIdOpen| ==> SessionIdOpen[k] != '<'
    ensures forall k :: 0 < k < |SessionIdClose| ==> SessionIdClose[k] != '<'
    ensures SessionIdOpen[0] == '<' && SessionIdClose[0] == '<'
    ensures '>' !in SessionIdOpen[..|SessionIdOpen| - 1]
    ensures !Contains(SessionIdClose, SessionIdOpen)
  {
    assert !OccursAt(SessionIdClose, SessionIdOpen, 0) by {
      assert SessionIdClose[0..|SessionIdOpen|][1] == '/';
    }
    assert !OccursAt(SessionIdClose, SessionIdOpen, 1) by {
      assert SessionIdClose[1..1 + |SessionIdOpen|][0] == '/';
    }
  }

  lemma ContainsInPrefix(x: string, j: nat, p: string)
    requires j <= |x|
    ensures Contains(x[..j], p) ==> Contains(x, p)
  {
    if Contains(x[..j], p) {
      var i :| OccursAt(x[..j], p, i);
      assert x == x[..j] + x[j..];
      OccursInConcat(x[..j], x[j..], p, i);
    }
  }

  /** The first piece of a split ends where the separator first occurs. */
  lemma FirstPiece(s: string, sep: string)
    requires |sep| > 0
    ensures IndexOf(s, sep).None? ==> Pieces(s, sep) == [s]
    ensures IndexOf(s, sep).Some? ==> Pieces(s, sep)[0] == s[..IndexOf(s, sep).value]
    ensures IndexOf(s, sep).Some? ==>
      Pieces(s, sep)[1..] == Pieces(s[IndexOf(s, sep).value + |sep|..], sep)
  {
  }

  /** Splitting `a sep b` on `sep`, when neither part holds it. */
  lemma PiecesOfTwo(a: string, b: string, sep: string)
    requires |sep| > 0 && forall k :: 0 < k < |sep| ==> sep[k] != sep[0]
    requires !Contains(a, sep) && !Contains(b, sep)
    ensures Pieces(a + sep + b, sep) == [a, b]
  {
    var s := a + sep + b;
    assert s == a + (sep + b);
    IndexOfAfter(a, sep + b, sep);
    assert s[..|a|] == a && s[|a| + |sep|..] == b;
    FirstPiece(s, sep);
    FirstPiece(b, sep);
  }

  lemma SplitOfTwo(a: string, b: string, sep: string)
    requires |sep| > 0 && forall k :: 0 < k < |sep| ==> sep[k] != sep[0]
    requires !Contains(a, sep) && !Contains(b, sep)
    ensures b != "" ==> Split(a + sep + b, sep) == [a, b]
    ensures b == "" && a != "" ==> Split(a + sep + b, sep) == [a]
    ensures b == "" && a == "" ==> Split(a + sep + b, sep) == []
  {
    PiecesOfTwo(a, b, sep);
    OccursInConcat(a, sep + b, sep, 0);
    OccursInConcat(sep, b, sep, 0);
    assert a + sep + b == a + (sep + b);
  }

  /** An opening and a closing tag that start with the same character `c`, which recurs in neither. */
  predicate TagPair(op: string, cl: string, c: char) {
    |op| > 0 && |cl| > 0 && op[0] == c && cl[0] == c &&
    (forall k :: 0 < k < |op| ==> op[k] != c) &&
    (forall k :: 0 < k < |cl| ==> cl[k] != c) &&
    cl[|cl| - 1] !in op[..|op| - 1] && !Contains(cl, op)
  }

  lemma SessionIdTags()
    ensures TagPair(SessionIdOpen, SessionIdClose, '<')
  {
    TagsDoNotRecur();
  }

  /** What follows a value without `c` holds no further opening tag. */
  lemma NoOpenAfterValue(op: string, cl: string, c: char, v: string, rest: string)
    requires TagPair(op, cl, c) && c !in v && !Contains(rest, op)
    ensures !Contains(v + cl + rest, op)
  {
    ContainsConcat(cl, rest, op);
    ContainsBehind(v, cl + rest, op);
    assert v + cl + rest == v + (cl + rest);
  }

  /** Splitting `pre op v cl rest` on the opening tag. */
  lemma OuterSplit(op: string, cl: string, c: char, pre: string, v: string, rest: string)
    requires TagPair(op, cl, c) && !Contains(pre, op) && c !in v && !Contains(rest, op)
    ensures Contains(pre + op + (v + cl + rest), op)
    ensures Split(pre + op + (v + cl + rest), op) == [pre, v + cl + rest]
  {
    NoOpenAfterValue(op, cl, c, v, rest);
    SplitOfTwo(pre, v + cl + rest, op);
  }

  /** Splitting `v cl rest` on the closing tag. */
  lemma InnerSplit(cl: string, c: char, v: string, rest: string)
    requires |cl| > 0 && cl[0] == c && (forall k :: 0 < k < |cl| ==> cl[k] != c)
    requires c !in v && !Contains(rest, cl)
    ensures rest != "" ==> Split(v + cl + rest, cl) == [v, rest]
    ensures rest == "" && v != "" ==> Split(v + cl + rest, cl) == [v]
    ensures rest == "" && v == "" ==> Split(v + cl + rest, cl) == []
  {
    AbsentChar(v, cl, 0);
    SplitOfTwo(v, rest, cl);
  }

  /**
   * The session-id of a hello `pre <session-id> v </session-id> rest` is `v`,
   * when `pre` has no earlier session-id, `v` holds no markup and some text
   * follows the closing tag.
   */
  lemma SessionIdOfHello(pre: string, v: string, rest: string)
    requires !Contains(pre, SessionIdOpen) && '<' !in v
    requires rest != "" && !Contains(rest, SessionIdOpen) && !Contains(rest, SessionIdClose)
    ensures SessionIdOf(pre + SessionIdOpen + v + SessionIdClose + rest) == Ok(v)
  {
    SessionIdTags();
    OuterSplit(SessionIdOpen, SessionIdClose, '<', pre, v, rest);
    Regroup5(pre, SessionIdOpen, v, SessionIdClose, rest);
    InnerSplit(SessionIdClose, '<', v, rest);
  }

  /**
   * String.split drops trailing empty pieces, so a hello text that ends right
   * after `</session-id>` yields no session-id at all but an error.
   */
  lemma SessionIdAtEndRefused(pre: string, v: string)
    requires !Contains(pre, SessionIdOpen) && '<' !in v
    ensures SessionIdOf(pre + SessionIdOpen + v + SessionIdClose).Err?
  {
    SessionIdTags();
    OuterSplit(SessionIdOpen, SessionIdClose, '<', pre, v, "");
    Regroup5(pre, SessionIdOpen, v, SessionIdClose, "");
    assert pre + SessionIdOpen + v + SessionIdClose + "" == pre + SessionIdOpen + v + SessionIdClose;
    InnerSplit(SessionIdClose, '<', v, "");
  }

  /**
   * A session-id read from a hello that has one is the text that follows the
   * first `<session-id>` up to the first `</session-id>` after it, and holds
   * neither tag.
   */
  lemma SessionIdSound(caps: string, v: string)
    requires Contains(caps, SessionIdOpen) && SessionIdOf(caps) == Ok(v)
    ensures IndexOf(caps, SessionIdOpen).Some?
    ensures StartsWith(caps[IndexOf(caps, SessionIdOpen).value + |SessionIdOpen|..], v + SessionIdClose)
    ensures !Contains(v, SessionIdOpen) && !Contains(v, SessionIdClose)
  {
    TagsDoNotRecur();
    NestedSplitSound(caps, SessionIdOpen, SessionIdClose, v);
  }

  /** The first piece of the second piece of a split, for any two separators. */
  lemma NestedSplitSound(s: string, open: string, close: string, v: string)
    requires |open| > 0 && |close| > 0 && Contains(s, open) && |Split(s, open)| >= 2
    requires |Split(Split(s, open)[1], close)| >= 2 && Split(Split(s, open)[1], close)[0] == v
    ensures StartsWith(s[IndexOf(s, open).value + |open|..], v + close)
    ensures !Contains(v, open) && !Contains(v, close)
  {
    var o := Split(s, open)[1];
    SecondPiece(s, open);
    var j := FirstPieceBeforeSep(o, close, v);
    StartsWithTrans(s[IndexOf(s, open).value + |open|..], o, v + close);
    PrefixLacks(o, v, close, open);
  }

  lemma StartsWithTrans(u: string, o: string, w: string)
    requires StartsWith(u, o) && StartsWith(o, w)
    ensures StartsWith(u, w)
  {
    assert u[..|w|] == o[..|w|];
  }

  /** What precedes `close` at the start of `o` lacks any pattern `o` lacks. */
  lemma PrefixLacks(o: string, v: string, close: string, p: string)
    requires StartsWith(o, v + close) && !Contains(o, p)
    ensures !Contains(v, p)
  {
    assert o[..|v|] == v;
    ContainsInPrefix(o, |v|, p);
  }

  /** The second piece of a split with at least two pieces starts right after the first separator. */
  lemma SecondPiece(s: string, sep: string)
    requires |sep| > 0 && Contains(s, sep) && |Split(s, sep)| >= 2
    ensures StartsWith(s[IndexOf(s, sep).value + |sep|..], Split(s, sep)[1])
    ensures !Contains(Split(s, sep)[1], sep)
  {
    var i := IndexOf(s, sep).value;
    var u := s[i + |sep|..];
    FirstPiece(s, sep);
    FirstPiece(u, sep);
    assert Split(s, sep)[1] == Pieces(u, sep)[0];
  }

  /** When a split of `o` has two pieces or more, the first is `o` up to the first separator. */
  lemma FirstPieceBeforeSep(o: string, sep: string, v: string) returns (j: nat)
    requires |sep| > 0 && |Split(o, sep)| >= 2 && Split(o, sep)[0] == v
    ensures j + |sep| <= |o| && o[..j + |sep|] == v + sep && j == |v|
    ensures !Contains(v, sep)
  {
    assert Contains(o, sep);
    j := IndexOf(o, sep).value;
    FirstPiece(o, sep);
    assert o[j..j + |sep|] == sep;
    assert o[..j + |sep|] == o[..j] + o[j..j + |sep|];
  }
}
