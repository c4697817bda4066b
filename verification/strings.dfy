/**
  Python's `str.split(sep)` and `sep.join(parts)` for a one-character separator,
  and the facts that make them inverse to each other.
 */
module Strings {

  /** Sum of the lengths of the strings in `parts`. */
  function SumLengths(parts: seq<string>): nat
  {
    if |parts| == 0 then 0 else |parts[0]| + SumLengths(parts[1..])
  }

  lemma {:induction false} SumLengthsSnoc(parts: seq<string>, last: string)
    ensures SumLengths(parts + [last]) == SumLengths(parts) + |last|
    decreases |parts|
  {
    if |parts| == 0 {
      assert parts + [last] == [last];
    } else {
      assert (parts + [last])[1..] == parts[1..] + [last];
      SumLengthsSnoc(parts[1..], last);
    }
  }

  /** Position of the first `c` in `s`. */
  function FirstIndex(s: string, c: char): (i: nat)
    requires c in s
    ensures i < |s| && s[i] == c
    ensures forall k :: 0 <= k < i ==> s[k] != c
  {
    if s[0] == c then 0 else 1 + FirstIndex(s[1..], c)
  }

  /** `s.split(sep)`: the pieces between separators, empty pieces included; `"".split(sep) == [""]`. */
  function Split(s: string, sep: char): (parts: seq<string>)
    ensures |parts| >= 1
    ensures forall k :: 0 <= k < |parts| ==> sep !in parts[k]
    decreases |s|
  {
    if sep !in s then [s]
    else
      var i := FirstIndex(s, sep);
      assert sep !in s[..i];
      [s[..i]] + Split(s[i + 1..], sep)
  }

  /** `sep.join(parts)`: one separator between neighbours, none at either end. */
  function Join(parts: seq<string>, sep: char): (s: string)
    ensures |parts| == 0 ==> s == ""
    ensures |parts| >= 1 ==> |s| == SumLengths(parts) + |parts| - 1
  {
    if |parts| == 0 then ""
    else if |parts| == 1 then parts[0]
    else parts[0] + [sep] + Join(parts[1..], sep)
  }

  /** Joining the pieces of a split gives back the original string. */
  lemma {:induction false} JoinSplit(s: string, sep: char)
    ensures Join(Split(s, sep), sep) == s
    decreases |s|
  {
    if sep in s {
      var i := FirstIndex(s, sep);
      var rest := Split(s[i + 1..], sep);
      JoinSplit(s[i + 1..], sep);
      assert Split(s, sep) == [s[..i]] + rest;
      assert ([s[..i]] + rest)[1..] == rest;
      assert s == s[..i] + [sep] + s[i + 1..];
    }
  }

  /** Splitting a join of separator-free pieces gives back the pieces. */
  lemma {:induction false} SplitJoin(parts: seq<string>, sep: char)
    requires |parts| >= 1
    requires forall k :: 0 <= k < |parts| ==> sep !in parts[k]
    ensures Split(Join(parts, sep), sep) == parts
    decreases |parts|
  {
    if |parts| > 1 {
      var head := parts[0];
      var tail := Join(parts[1..], sep);
      var s := head + [sep] + tail;
      assert Join(parts, sep) == s;
      assert s[|head|] == sep;
      assert forall k :: 0 <= k < |head| ==> s[k] == head[k];
      assert forall k :: 0 <= k < |head| ==> s[k] != sep;
      var i := FirstIndex(s, sep);
      assert i == |head|;
      assert s[..i] == head;
      assert s[i + 1..] == tail;
      SplitJoin(parts[1..], sep);
      assert parts == [head] + parts[1..];
    }
  }

  /** Appending a piece adds one separator and the piece at the end. */
  lemma {:induction false} JoinSnoc(parts: seq<string>, last: string, sep: char)
    requires |parts| >= 1
    ensures Join(parts + [last], sep) == Join(parts, sep) + [sep] + last
    decreases |parts|
  {
    if |parts| > 1 {
      assert (parts + [last])[1..] == parts[1..] + [last];
      JoinSnoc(parts[1..], last, sep);
    } else {
      assert (parts + [last])[1..] == [last];
    }
  }

  /** The last element of a non-empty sequence (Python's `xs[-1]`). */
  function Last(parts: seq<string>): string
    requires |parts| >= 1
  {
    parts[|parts| - 1]
  }

  /** `last` is a suffix of `s` that is either all of `s` or preceded by `sep`. */
  predicate IsPieceAfterSep(s: string, last: string, sep: char) {
    && |last| <= |s|
    && last == s[|s| - |last|..]
    && (|last| == |s| || s[|s| - |last| - 1] == sep)
  }

  /**
    The last piece of a split is the suffix after the last separator: it holds no
    separator, and it is either the whole string or preceded by a separator.
   */
  lemma {:induction false} SplitLast(s: string, sep: char)
    ensures IsPieceAfterSep(s, Last(Split(s, sep)), sep)
    decreases |s|
  {
    if sep in s {
      var i := FirstIndex(s, sep);
      var restParts := Split(s[i + 1..], sep);
      SplitLast(s[i + 1..], sep);
      assert Split(s, sep) == [s[..i]] + restParts;
      LiftSuffix(s, i, Last(restParts), sep);
    }
  }

  /** A piece after a separator in `s[i + 1..]`, where `s[i]` is the separator, is one in `s` too. */
  lemma LiftSuffix(s: string, i: nat, last: string, sep: char)
    requires i < |s| && s[i] == sep
    requires IsPieceAfterSep(s[i + 1..], last, sep)
    ensures IsPieceAfterSep(s, last, sep)
  {
    var rest := s[i + 1..];
    assert rest[|rest| - |last|..] == s[|s| - |last|..];
    if |last| < |rest| {
      assert rest[|rest| - |last| - 1] == s[|s| - |last| - 1];
    }
  }
}
