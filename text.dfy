/**
 * The operations of java.lang.String that the session code relies on:
 * indexOf/contains, startsWith, replaceFirst, split, trim and the decimal
 * rendering of a non-negative int. Strings are sequences of characters.
 */
module Text {
  import opened Util

  /** `p` occurs in `s` starting at index `i`. */
  predicate OccursAt(s: string, p: string, i: int) {
    0 <= i && i + |p| <= |s| && s[i..i + |p|] == p
  }

  lemma OccursAtTail(s: string, p: string, j: nat)
    requires |s| > 0
    ensures OccursAt(s, p, j + 1) <==> OccursAt(s[1..], p, j)
  {
    if j + 1 + |p| <= |s| {
      assert s[j + 1..j + 1 + |p|] == s[1..][j..j + |p|];
    }
  }

  /** String.indexOf: the first index at which `p` occurs in `s`, if any. */
  function IndexOf(s: string, p: string): (r: Option<nat>)
    ensures r.Some? ==> OccursAt(s, p, r.value) && forall j :: 0 <= j < r.value ==> !OccursAt(s, p, j)
    ensures r.None? ==> forall j :: !OccursAt(s, p, j)
    decreases |s|
  {
    if |s| < |p| then None
    else if s[..|p|] == p then Some(0)
    else
      var r := IndexOf(s[1..], p);
      assert !OccursAt(s, p, 0);
      match r
      case None =>
        assert forall j :: !OccursAt(s, p, j) by {
          forall j | j > 0 ensures !OccursAt(s, p, j) { OccursAtTail(s, p, j - 1); }
        }
        None
      case Some(k) =>
        assert forall j :: 0 <= j < k + 1 ==> !OccursAt(s, p, j) by {
          forall j | 0 < j < k + 1 ensures !OccursAt(s, p, j) { OccursAtTail(s, p, j - 1); }
        }
        OccursAtTail(s, p, k);
        Some(k + 1)
  }

  /** String.contains. */
  predicate Contains(s: string, p: string)
    ensures Contains(s, p) <==> exists i :: OccursAt(s, p, i)
  {
    IndexOf(s, p).Some?
  }

  /** String.startsWith. */
  predicate StartsWith(s: string, p: string) {
    |p| <= |s| && s[..|p|] == p
  }

  /** String.endsWith. */
  predicate EndsWith(s: string, p: string) {
    |p| <= |s| && s[|s| - |p|..] == p
  }

  /** A pattern with a character that `s` lacks does not occur in `s`. */
  lemma AbsentChar(s: string, p: string, k: nat)
    requires k < |p| && p[k] !in s
    ensures !Contains(s, p)
  {
    forall i | 0 <= i && i + |p| <= |s| ensures !OccursAt(s, p, i) {
      assert s[i..i + |p|][k] == s[i + k];
    }
  }

  /** An occurrence in either part is an occurrence in the concatenation. */
  lemma OccursInConcat(a: string, b: string, p: string, i: int)
    ensures OccursAt(a, p, i) ==> OccursAt(a + b, p, i)
    ensures OccursAt(b, p, i) ==> OccursAt(a + b, p, |a| + i)
  {
    if OccursAt(a, p, i) {
      assert (a + b)[i..i + |p|] == a[i..i + |p|];
    }
    if OccursAt(b, p, i) {
      assert (a + b)[|a| + i..|a| + i + |p|] == b[i..i + |p|];
    }
  }

  /** An occurrence that lies wholly in one part is an occurrence in that part. */
  lemma OccursInPart(a: string, b: string, p: string, i: int)
    requires OccursAt(a + b, p, i)
    ensures i + |p| <= |a| ==> OccursAt(a, p, i)
    ensures i >= |a| ==> OccursAt(b, p, i - |a|)
  {
    if i + |p| <= |a| {
      assert a[i..i + |p|] == (a + b)[i..i + |p|];
    }
    if i >= |a| {
      assert b[i - |a|..i - |a| + |p|] == (a + b)[i..i + |p|];
    }
  }

  /**
   * Cutting a string after a character that occurs in the pattern only as its
   * last character cannot cut an occurrence in two.
   */
  lemma ContainsConcat(a: string, b: string, p: string)
    requires |a| > 0 && |p| > 0 && a[|a| - 1] !in p[..|p| - 1]
    ensures Contains(a + b, p) <==> Contains(a, p) || Contains(b, p)
  {
    forall i | OccursAt(a, p, i) ensures OccursAt(a + b, p, i) { OccursInConcat(a, b, p, i); }
    forall i | OccursAt(b, p, i) ensures OccursAt(a + b, p, |a| + i) { OccursInConcat(a, b, p, i); }
    forall i | 0 <= i < |a| < i + |p| && i + |p| <= |a + b| ensures !OccursAt(a + b, p, i) {
      var k := |a| - 1 - i;
      assert (a + b)[i..i + |p|][k] == a[|a| - 1];
      assert p[..|p| - 1][k] == p[k];
    }
    forall i | OccursAt(a + b, p, i) ensures OccursAt(a, p, i) || OccursAt(b, p, i - |a|) {
      OccursInPart(a, b, p, i);
      assert i + |p| <= |a| || i >= |a|;
    }
  }

  /** A prefix that lacks the pattern's first character does not change containment. */
  lemma ContainsBehind(a: string, b: string, p: string)
    requires |p| > 0 && p[0] !in a
    ensures Contains(a + b, p) <==> Contains(b, p)
  {
    forall i | OccursAt(b, p, i) ensures OccursAt(a + b, p, |a| + i) { OccursInConcat(a, b, p, i); }
    forall i | 0 <= i < |a| && i + |p| <= |a + b| ensures !OccursAt(a + b, p, i) {
      assert (a + b)[i..i + |p|][0] == a[i];
    }
    forall i | OccursAt(a + b, p, i) ensures OccursAt(b, p, i - |a|) { OccursInPart(a, b, p, i); }
  }

  /**
   * When the pattern's first character does not recur in it, the first
   * occurrence in `a + b` is the one `b` starts with, provided `a` has none.
   */
  lemma IndexOfAfter(a: string, b: string, p: string)
    requires |p| > 0 && forall k :: 0 < k < |p| ==> p[k] != p[0]
    requires !Contains(a, p) && StartsWith(b, p)
    ensures IndexOf(a + b, p) == Some(|a|)
  {
    OccursAtJoin(a, b, p);
    NoneBefore(a, b, p);
    FirstOccurrence(a + b, p, |a|);
  }

  /** Dropping the first two parts of a concatenation leaves the third. */
  lemma DropJoin(a: string, p: string, t: string)
    ensures (a + (p + t))[|a| + |p|..] == t
  {
  }

  /** A prefix of `b` occurs in `a + b` where `b` begins. */
  lemma OccursAtJoin(a: string, b: string, p: string)
    requires StartsWith(b, p)
    ensures OccursAt(a + b, p, |a|)
  {
    assert (a + b)[|a|..|a| + |p|] == b[..|p|];
  }

  lemma NoneBefore(a: string, b: string, p: string)
    requires |p| > 0 && forall k :: 0 < k < |p| ==> p[k] != p[0]
    requires !Contains(a, p) && StartsWith(b, p)
    ensures forall j :: 0 <= j < |a| ==> !OccursAt(a + b, p, j)
  {
    forall j | 0 <= j < |a| ensures !OccursAt(a + b, p, j) {
      NotBefore(a, b, p, j);
    }
  }

  /** An occurrence with none before it is the one indexOf finds. */
  lemma FirstOccurrence(s: string, p: string, i: int)
    requires OccursAt(s, p, i) && forall j :: 0 <= j < i ==> !OccursAt(s, p, j)
    ensures IndexOf(s, p) == Some(i)
  {
    var r := IndexOf(s, p);
    assert r.Some?;
    assert !(r.value < i);
    assert !(r.value > i);
  }

  lemma NotBefore(a: string, b: string, p: string, j: int)
    requires |p| > 0 && forall k :: 0 < k < |p| ==> p[k] != p[0]
    requires !Contains(a, p) && StartsWith(b, p)
    requires 0 <= j < |a|
    ensures !OccursAt(a + b, p, j)
  {
    if j + |p| <= |a| {
      assert a[j..j + |p|] == (a + b)[j..j + |p|];
      assert !OccursAt(a, p, j);
    } else if j + |p| <= |a + b| {
      var k := |a| - j;
      assert (a + b)[j..j + |p|][k] == b[0] == p[0];
      assert p[k] != p[0];
    }
  }

  /**
   * String.replaceFirst for a pattern without regular-expression metacharacters
   * and a replacement without `$` or `\`: the first occurrence of `p` becomes `q`.
   */
  function ReplaceFirst(s: string, p: string, q: string): (r: string)
    ensures !Contains(s, p) ==> r == s
  {
    match IndexOf(s, p)
    case None => s
    case Some(i) => s[..i] + q + s[i + |p|..]
  }

  /** replaceFirst replaces the leftmost occurrence of `p` and keeps the text around it. */
  lemma ReplaceFirstAtFirst(s: string, p: string, q: string)
    requires Contains(s, p)
    ensures exists i :: (OccursAt(s, p, i) && (forall j :: 0 <= j < i ==> !OccursAt(s, p, j))
      && ReplaceFirst(s, p, q) == s[..i] + q + s[i + |p|..])
  {
    var i := IndexOf(s, p).value;
    assert OccursAt(s, p, i) && ReplaceFirst(s, p, q) == s[..i] + q + s[i + |p|..];
  }

  /** Characters String.trim removes: code points up to and including the space. */
  predicate Blank(c: char) {
    c <= ' '
  }

  /** The first index from `i` on that does not hold a blank. */
  function SkipBlanks(s: string, i: nat): (r: nat)
    requires i <= |s|
    ensures i <= r <= |s| && (r < |s| ==> !Blank(s[r]))
    ensures forall k :: i <= k < r ==> Blank(s[k])
    decreases |s| - i
  {
    if i < |s| && Blank(s[i]) then SkipBlanks(s, i + 1) else i
  }

  /** The end of `s[lo..j]` once the blanks at its end are dropped. */
  function SkipBlanksBack(s: string, lo: nat, j: nat): (r: nat)
    requires lo <= j <= |s|
    ensures lo <= r <= j && (r > lo ==> !Blank(s[r - 1]))
    ensures forall k :: r <= k < j ==> Blank(s[k])
  {
    if j > lo && Blank(s[j - 1]) then SkipBlanksBack(s, lo, j - 1) else j
  }

  /** `r` is the slice of `s` from `i` with only blanks around it. */
  predicate TrimmedAt(s: string, r: string, i: int) {
    0 <= i && i + |r| <= |s| && r == s[i..i + |r|] &&
    (forall k :: 0 <= k < i ==> Blank(s[k])) &&
    (forall k :: i + |r| <= k < |s| ==> Blank(s[k]))
  }

  /**
   * String.trim: the slice of `s` that neither starts nor ends with a blank,
   * obtained by removing blanks only.
   */
  function Trim(s: string): (r: string)
    ensures exists i :: TrimmedAt(s, r, i)
    ensures r == [] || (!Blank(r[0]) && !Blank(r[|r| - 1]))
  {
    var i := SkipBlanks(s, 0);
    var j := SkipBlanksBack(s, i, |s|);
    assert TrimmedAt(s, s[i..j], i);
    s[i..j]
  }

  /** A string that neither starts nor ends with a blank is its own trim. */
  lemma TrimTrimmed(s: string)
    requires s == [] || (!Blank(s[0]) && !Blank(s[|s| - 1]))
    ensures Trim(s) == s
  {
  }

  /** The pieces of `s` between consecutive occurrences of `sep`, scanning left to right. */
  function Pieces(s: string, sep: string): (r: seq<string>)
    requires |sep| > 0
    ensures |r| >= 1 && Join(r, sep) == s
    ensures forall k :: 0 <= k < |r| ==> !Contains(r[k], sep)
    decreases |s|
  {
    match IndexOf(s, sep)
    case None => [s]
    case Some(i) =>
      var head := s[..i];
      assert !Contains(head, sep) by {
        forall j | OccursAt(head, sep, j) ensures OccursAt(s, sep, j) {
          assert s[j..j + |sep|] == head[j..j + |sep|];
        }
      }
      var rest := Pieces(s[i + |sep|..], sep);
      assert s == head + sep + s[i + |sep|..] by {
        assert s[i..i + |sep|] == sep;
        assert s == s[..i] + s[i..i + |sep|] + s[i + |sep|..];
      }
      [head] + rest
  }

  /** The pieces put back together, with `sep` between neighbours. */
  function Join(ps: seq<string>, sep: string): string {
    if |ps| == 0 then "" else if |ps| == 1 then ps[0] else ps[0] + sep + Join(ps[1..], sep)
  }

  /** Removes the empty strings at the end, as String.split does with a zero limit. */
  function DropTrailingEmpty(ps: seq<string>): (r: seq<string>)
    ensures |r| <= |ps| && r == ps[..|r|]
    ensures forall k :: |r| <= k < |ps| ==> ps[k] == ""
    ensures r == [] || r[|r| - 1] != ""
  {
    if |ps| > 0 && ps[|ps| - 1] == "" then DropTrailingEmpty(ps[..|ps| - 1]) else ps
  }

  /**
   * String.split with a separator free of regular-expression metacharacters
   * and a zero limit: the whole string when `sep` does not occur, otherwise
   * the pieces with the trailing empty ones removed.
   */
  function Split(s: string, sep: string): (r: seq<string>)
    requires |sep| > 0
    ensures !Contains(s, sep) ==> r == [s]
    ensures Contains(s, sep) ==> |r| <= |Pieces(s, sep)| && r == Pieces(s, sep)[..|r|] && (r == [] || r[|r| - 1] != "")
    ensures Contains(s, sep) ==> forall k :: |r| <= k < |Pieces(s, sep)| ==> Pieces(s, sep)[k] == ""
  {
    if !Contains(s, sep) then [s] else DropTrailingEmpty(Pieces(s, sep))
  }

  /** The decimal digit for `d`. */
  function DigitChar(d: nat): char
    requires d < 10
  {
    "0123456789"[d]
  }

  predicate IsDigit(c: char) {
    '0' <= c <= '9'
  }

  /** String.valueOf of a non-negative int: its decimal digits, with no leading zero. */
  function NatToString(n: nat): (r: string)
    ensures |r| >= 1 && forall k :: 0 <= k < |r| ==> IsDigit(r[k])
    ensures r[0] == '0' ==> n == 0
  {
    if n < 10 then [DigitChar(n)] else NatToString(n / 10) + [DigitChar(n % 10)]
  }

  /** The number a string of decimal digits denotes. */
  function DigitsValue(s: string): nat
    requires forall k :: 0 <= k < |s| ==> IsDigit(s[k])
  {
    if s == [] then 0
    else
      assert IsDigit(s[|s| - 1]);
      DigitsValue(s[..|s| - 1]) * 10 + (s[|s| - 1] as int - '0' as int)
  }

  lemma {:induction false} DigitsValueOfNatToString(n: nat)
    ensures DigitsValue(NatToString(n)) == n
  {
    if n >= 10 {
      var t := NatToString(n / 10);
      assert NatToString(n) == t + [DigitChar(n % 10)];
      assert (t + [DigitChar(n % 10)])[..|t|] == t;
      DigitsValueOfNatToString(n / 10);
    }
  }

  /** Splits `s` at the first occurrence of the character `c`. */
  function SplitAtChar(s: string, c: char): (r: Option<(string, string)>)
    ensures r.Some? ==> s == r.value.0 + [c] + r.value.1 && c !in r.value.0
    ensures r.None? ==> c !in s
  {
    if s == [] then None
    else if s[0] == c then Some(([], s[1..]))
    else match SplitAtChar(s[1..], c)
      case None => None
      case Some((a, b)) => Some(([s[0]] + a, b))
  }

  lemma {:induction false} SplitAtCharConcat(a: string, c: char, b: string)
    requires c !in a
    ensures SplitAtChar(a + [c] + b, c) == Some((a, b))
  {
    if a != [] {
      assert (a + [c] + b)[1..] == a[1..] + [c] + b;
      SplitAtCharConcat(a[1..], c, b);
      assert [a[0]] + a[1..] == a;
    } else {
      assert (a + [c] + b)[1..] == b;
    }
  }

  /** What follows the prefix `p` of `s`, if `s` starts with it. */
  function StripPrefix(s: string, p: string): (r: Option<string>)
    ensures r.Some? <==> StartsWith(s, p)
    ensures r.Some? ==> s == p + r.value
  {
    if StartsWith(s, p) then Some(s[|p|..]) else None
  }

  /** What precedes the suffix `p` of `s`, if `s` ends with it. */
  function StripSuffix(s: string, p: string): (r: Option<string>)
    ensures r.Some? <==> EndsWith(s, p)
    ensures r.Some? ==> s == r.value + p
  {
    if EndsWith(s, p) then Some(s[..|s| - |p|]) else None
  }

  /** Stripping a prefix that was just prepended gives back the rest. */
  lemma StripPrefixConcat(p: string, x: string)
    ensures StripPrefix(p + x, p) == Some(x)
  {
    assert (p + x)[..|p|] == p;
  }

  /** Stripping a suffix that was just appended gives back the rest. */
  lemma StripSuffixConcat(x: string, p: string)
    ensures StripSuffix(x + p, p) == Some(x)
  {
    assert (x + p)[|x|..] == p;
  }

  /** An occurrence inside the middle part of a concatenation. */
  lemma OccursInMiddle(a: string, b: string, c: string, p: string, k: int)
    requires OccursAt(b, p, k)
    ensures Contains(a + b + c, p)
  {
    OccursInConcat(a, b, p, k);
    OccursInConcat(a + b, c, p, |a| + k);
  }

  /** Regrouping a concatenation of five strings. */
  lemma Regroup5(a: string, b: string, c: string, d: string, e: string)
    ensures a + b + c + d + e == a + b + (c + d + e)
  {
  }
}
