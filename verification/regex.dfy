/**
  Just enough of Python's `re` to run the two fixed contact patterns: character
  classes, literals, greedy `?` and `+` with backtracking, `\b`, a top-level
  alternation, and the leftmost search that `re.findall(...)[0]` amounts to.
  Classes are ASCII-only: `\d` is 0-9, `\w` is letters, digits and `_`, and `\s`
  is the ASCII characters Python's `str.isspace` accepts.
 */
module Regex {
  import opened Wrappers

  /** The character classes the contact patterns use. */
  datatype Class =
    | Digit        // \d
    | Space        // \s
    | EmailLocal   // [a-zA-Z0-9+_.-]
    | EmailDomain  // [a-zA-Z0-9.-]

  predicate IsAsciiLetter(c: char) {
    'a' <= c <= 'z' || 'A' <= c <= 'Z'
  }

  predicate IsAsciiDigit(c: char) {
    '0' <= c <= '9'
  }

  /** `\w`, the class `\b` looks at. */
  predicate IsWordChar(c: char) {
    IsAsciiLetter(c) || IsAsciiDigit(c) || c == '_'
  }

  predicate In(cls: Class, c: char) {
    match cls
    case Digit => IsAsciiDigit(c)
    case Space => c == ' ' || '\t' <= c <= '\r' || '\U{1C}' <= c <= '\U{1F}'
    case EmailLocal => IsAsciiLetter(c) || IsAsciiDigit(c) || c == '+' || c == '_' || c == '.' || c == '-'
    case EmailDomain => IsAsciiLetter(c) || IsAsciiDigit(c) || c == '.' || c == '-'
  }

  datatype Atom =
    | One(cls: Class)    // one character of the class
    | Lit(ch: char)      // the character itself
    | Maybe(cls: Class)  // greedy `?`
    | Many(cls: Class)   // greedy `+`
    | Boundary           // `\b`

  /** A pattern is a chain of atoms matched left to right. */
  datatype Pattern = Empty | Then(head: Atom, tail: Pattern)

  /** `\b` at position `i`: exactly one of the characters around `i` is a word character. */
  predicate AtBoundary(s: string, i: nat)
    requires i <= |s|
  {
    (i > 0 && IsWordChar(s[i - 1])) != (i < |s| && IsWordChar(s[i]))
  }

  /** End of the longest run of `cls` characters starting at `i`. */
  function RunEnd(s: string, i: nat, cls: Class): (e: nat)
    requires i <= |s|
    ensures i <= e <= |s|
    ensures forall k :: i <= k < e ==> In(cls, s[k])
    ensures e == |s| || !In(cls, s[e])
    decreases |s| - i
  {
    if i < |s| && In(cls, s[i]) then RunEnd(s, i + 1, cls) else i
  }

  /** A run of `cls` characters that stops at `e` is the longest run from `i`. */
  lemma RunEndAt(s: string, i: nat, e: nat, cls: Class)
    requires i <= e <= |s|
    requires forall k :: i <= k < e ==> In(cls, s[k])
    requires e == |s| || !In(cls, s[e])
    ensures RunEnd(s, i, cls) == e
  {
  }

  /**
    Where the match of `p` starting at `i` ends, as Python's backtracking engine
    finds it: greedy atoms first try to take as much as they can and give back one
    character at a time only when the rest of the pattern fails.
   */
  function Match(s: string, i: nat, p: Pattern): (r: Option<nat>)
    requires i <= |s|
    ensures r.Some? ==> i <= r.value <= |s|
    decreases p, 0, 0
  {
    match p
    case Empty => Some(i)
    case Then(a, rest) =>
      match a
      case One(cls) => if i < |s| && In(cls, s[i]) then Match(s, i + 1, rest) else None
      case Lit(ch) => if i < |s| && s[i] == ch then Match(s, i + 1, rest) else None
      case Boundary => if AtBoundary(s, i) then Match(s, i, rest) else None
      case Maybe(cls) =>
        var taken := if i < |s| && In(cls, s[i]) then Match(s, i + 1, rest) else None;
        if taken.Some? then taken else Match(s, i, rest)
      case Many(cls) =>
        if i < |s| && In(cls, s[i]) then GiveBack(s, i + 1, RunEnd(s, i, cls), rest) else None
  }

  /** Try the rest of the pattern after a greedy run ending at `k`, then at `k - 1`, ... down to `lo`. */
  function GiveBack(s: string, lo: nat, k: nat, rest: Pattern): (r: Option<nat>)
    requires lo <= k <= |s|
    ensures r.Some? ==> lo <= r.value <= |s|
    decreases rest, 1, k
  {
    var m := Match(s, k, rest);
    if m.Some? then m else if k == lo then None else GiveBack(s, lo, k - 1, rest)
  }

  /** Backtracking fails only when the rest of the pattern can follow no run end from `k` down to `lo`. */
  lemma {:induction false} GiveBackNone(s: string, lo: nat, k: nat, rest: Pattern)
    requires lo <= k <= |s|
    ensures GiveBack(s, lo, k, rest).None? <==> forall j :: lo <= j <= k ==> Match(s, j, rest).None?
    decreases k
  {
    if Match(s, k, rest).Some? {
      assert GiveBack(s, lo, k, rest) == Match(s, k, rest);
    } else if k > lo {
      GiveBackNone(s, lo, k - 1, rest);
    }
  }

  /**
    Backtracking gives back as little as it can: the rest of the pattern is
    matched after the longest run it can follow.
   */
  lemma {:induction false} GiveBackLongest(s: string, lo: nat, k: nat, rest: Pattern, j: nat)
    requires lo <= j <= k <= |s| && Match(s, j, rest).Some?
    requires forall j' :: j < j' <= k ==> Match(s, j', rest).None?
    ensures GiveBack(s, lo, k, rest) == Match(s, j, rest)
    decreases k
  {
    if j < k {
      assert Match(s, k, rest).None?;
      GiveBackLongest(s, lo, k - 1, rest, j);
    }
  }

  /** A greedy `+` fails exactly when the rest of the pattern can follow no non-empty run of the class. */
  lemma ManyNone(s: string, i: nat, cls: Class, rest: Pattern)
    requires i <= |s|
    ensures Match(s, i, Then(Many(cls), rest)).None? <==>
      forall j :: i < j <= RunEnd(s, i, cls) ==> Match(s, j, rest).None?
  {
    if i < |s| && In(cls, s[i]) {
      GiveBackNone(s, i + 1, RunEnd(s, i, cls), rest);
    }
  }

  /** A greedy `+` takes the longest non-empty run of the class that the rest of the pattern can follow. */
  lemma ManyLongest(s: string, i: nat, cls: Class, rest: Pattern, j: nat)
    requires i <= |s| && i < j <= RunEnd(s, i, cls) && Match(s, j, rest).Some?
    requires forall j' :: j < j' <= RunEnd(s, i, cls) ==> Match(s, j', rest).None?
    ensures Match(s, i, Then(Many(cls), rest)) == Match(s, j, rest)
  {
    assert In(cls, s[i]);
    GiveBackLongest(s, i + 1, RunEnd(s, i, cls), rest, j);
  }

  /** An alternation `A|B|...` at one position: the first branch that matches wins. */
  function MatchAny(s: string, i: nat, branches: seq<Pattern>): (r: Option<nat>)
    requires i <= |s|
    ensures r.Some? ==> i <= r.value <= |s|
    ensures r.Some? <==> exists b :: 0 <= b < |branches| && Match(s, i, branches[b]).Some?
  {
    if |branches| == 0 then None
    else
      var m := Match(s, i, branches[0]);
      if m.Some? then m
      else
        assert forall b :: 1 <= b < |branches| ==> branches[b] == branches[1..][b - 1];
        MatchAny(s, i, branches[1..])
  }

  lemma MatchAnyOne(s: string, i: nat, p: Pattern)
    requires i <= |s|
    ensures MatchAny(s, i, [p]) == Match(s, i, p)
  {
    if Match(s, i, p).None? {
      assert MatchAny(s, i, [p][1..]) == None;
    }
  }

  lemma MatchAnyTwo(s: string, i: nat, p: Pattern, q: Pattern)
    requires i <= |s|
    ensures MatchAny(s, i, [p, q]) == if Match(s, i, p).Some? then Match(s, i, p) else Match(s, i, q)
  {
    if Match(s, i, p).None? {
      assert [p, q][1..] == [q];
      MatchAnyOne(s, i, q);
    }
  }

  /**
    The leftmost match at or after `from`, as `(start, end)`: the first start
    position, trying `from`, `from + 1`, ..., `|s|`, where the alternation matches.
   */
  function SearchFrom(s: string, from: nat, branches: seq<Pattern>): (r: Option<(nat, nat)>)
    requires from <= |s| + 1
    ensures r.Some? ==> from <= r.value.0 <= |s| && MatchAny(s, r.value.0, branches) == Some(r.value.1)
    ensures r.Some? ==> forall j :: from <= j < r.value.0 ==> MatchAny(s, j, branches).None?
    ensures r.None? <==> forall j :: from <= j <= |s| ==> MatchAny(s, j, branches).None?
    decreases |s| + 1 - from
  {
    if from > |s| then None
    else
      var m := MatchAny(s, from, branches);
      if m.Some? then Some((from, m.value)) else SearchFrom(s, from + 1, branches)
  }

  /** `re.findall(pattern, s)[0] if matches else None`, for patterns that cannot match empty. */
  function FirstMatch(s: string, branches: seq<Pattern>): (r: Option<string>)
    ensures r.None? <==> forall j :: 0 <= j <= |s| ==> MatchAny(s, j, branches).None?
    ensures r.Some? ==> exists i, k :: && 0 <= i <= k <= |s| && MatchAny(s, i, branches) == Some(k)
                                       && (forall j :: 0 <= j < i ==> MatchAny(s, j, branches).None?)
                                       && r.value == s[i..k]
  {
    match SearchFrom(s, 0, branches)
    case None => None
    case Some((i, k)) =>
      assert MatchAny(s, i, branches).Some?;
      Some(s[i..k])
  }
}
