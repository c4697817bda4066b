/**
  `extract_email` and `extract_phone`: the first match of a fixed regular
  expression, or nothing. Each is run on the `Regex` matcher and then pinned
  down by a declarative description that does not mention the matcher.
 */
module Contact {
  import opened Wrappers
  import opened Regex

  // ---------------------------------------------------------------------------
  // Email: [a-zA-Z0-9+_.-]+@[a-zA-Z0-9.-]+

  /** The part of the email pattern after the local part: `@[a-zA-Z0-9.-]+`. */
  const AtDomain: Pattern := Then(Lit('@'), Then(Many(EmailDomain), Empty))

  const EmailPattern: Pattern := Then(Many(EmailLocal), AtDomain)

  /** An `@` with a local-part character right before it and a domain character right after it. */
  predicate IsAnchor(s: string, p: int) {
    0 < p && p + 1 < |s| && In(EmailLocal, s[p - 1]) && s[p] == '@' && In(EmailDomain, s[p + 1])
  }

  /**
    `s[i..k]` is the email the pattern finds first and `a` is its `@`: `a` is the
    first anchor of `s`, and the local part and the domain are the longest runs of
    their classes on either side of it.
   */
  predicate IsFirstEmail(s: string, i: int, a: int, k: int) {
    && IsAnchor(s, a)
    && (forall p :: 0 <= p < a ==> !IsAnchor(s, p))
    && 0 <= i < a
    && (forall j :: i <= j < a ==> In(EmailLocal, s[j]))
    && (i == 0 || !In(EmailLocal, s[i - 1]))
    && a + 1 < k <= |s|
    && (forall j :: a < j < k ==> In(EmailDomain, s[j]))
    && (k == |s| || !In(EmailDomain, s[k]))
  }

  /** `e` is a local part over `[a-zA-Z0-9+_.-]`, then `@` at index `at`, then a domain over `[a-zA-Z0-9.-]`. */
  predicate EmailSplitsAt(e: string, at: int) {
    && 0 < at < |e| - 1
    && e[at] == '@'
    && (forall j :: 0 <= j < at ==> In(EmailLocal, e[j]))
    && (forall j :: at < j < |e| ==> In(EmailDomain, e[j]))
  }

  lemma MatchAtDomain(s: string, k: nat)
    requires k <= |s|
    ensures Match(s, k, AtDomain) ==
      if k + 1 < |s| && s[k] == '@' && In(EmailDomain, s[k + 1])
      then Some(RunEnd(s, k + 1, EmailDomain)) else None
  {
    var domain := Then(Many(EmailDomain), Empty);
    if k < |s| && s[k] == '@' {
      assert Match(s, k, AtDomain) == Match(s, k + 1, domain);
      if k + 1 < |s| && In(EmailDomain, s[k + 1]) {
        var e := RunEnd(s, k + 1, EmailDomain);
        assert Match(s, k + 1, domain) == GiveBack(s, k + 2, e, Empty);
        assert Match(s, e, Empty) == Some(e);
      }
    }
  }

  /** Giving back characters of a local-part run never helps: none of them is an `@`. */
  lemma {:induction false} GiveBackLocal(s: string, lo: nat, k: nat)
    requires lo <= k <= |s|
    requires forall j :: lo <= j < k ==> In(EmailLocal, s[j])
    ensures GiveBack(s, lo, k, AtDomain) == Match(s, k, AtDomain)
    decreases k
  {
    if Match(s, k, AtDomain).None? && k > lo {
      GiveBackLocal(s, lo, k - 1);
      MatchAtDomain(s, k - 1);
    }
  }

  /** Where the email pattern matches: at the start of a local-part run that ends at an anchor. */
  lemma EmailMatchAt(s: string, i: nat)
    requires i <= |s|
    ensures Match(s, i, EmailPattern) ==
      if i < |s| && In(EmailLocal, s[i]) && IsAnchor(s, RunEnd(s, i, EmailLocal))
      then Some(RunEnd(s, RunEnd(s, i, EmailLocal) + 1, EmailDomain)) else None
  {
    if i < |s| && In(EmailLocal, s[i]) {
      var a := RunEnd(s, i, EmailLocal);
      assert Match(s, i, EmailPattern) == GiveBack(s, i + 1, a, AtDomain);
      GiveBackLocal(s, i + 1, a);
      MatchAtDomain(s, a);
    }
  }

  /** Every anchor is reached by a match starting just before it. */
  lemma AnchorMatches(s: string, p: nat)
    requires IsAnchor(s, p)
    ensures Match(s, p - 1, EmailPattern).Some?
  {
    RunEndAt(s, p - 1, p, EmailLocal);
    EmailMatchAt(s, p - 1);
  }

  /** No match anywhere means no anchor anywhere. */
  lemma NoMatchNoAnchor(s: string)
    requires forall j :: 0 <= j <= |s| ==> Match(s, j, EmailPattern).None?
    ensures forall p :: 0 <= p < |s| ==> !IsAnchor(s, p)
  {
    forall p | 0 <= p < |s| && IsAnchor(s, p) ensures Match(s, p - 1, EmailPattern).Some? {
      AnchorMatches(s, p);
    }
  }

  /** The leftmost match of the email pattern is the one `IsFirstEmail` describes. */
  lemma LeftmostIsFirstEmail(s: string, i: nat, k: nat)
    requires i <= |s| && Match(s, i, EmailPattern) == Some(k)
    requires forall j :: 0 <= j < i ==> Match(s, j, EmailPattern).None?
    ensures IsFirstEmail(s, i, RunEnd(s, i, EmailLocal), k)
  {
    EmailMatchAt(s, i);
    var a := RunEnd(s, i, EmailLocal);
    forall p | 0 <= p < |s| && IsAnchor(s, p) ensures Match(s, p - 1, EmailPattern).Some? {
      AnchorMatches(s, p);
    }
    forall p | 0 <= p < a ensures !IsAnchor(s, p) {
      assert i <= p ==> In(EmailLocal, s[p]);
    }
    if i > 0 && In(EmailLocal, s[i - 1]) {
      RunEndAt(s, i - 1, a, EmailLocal);
      EmailMatchAt(s, i - 1);
    }
  }

  /** What the leftmost search for the email pattern finds. */
  lemma SearchEmail(s: string)
    ensures var r := SearchFrom(s, 0, [EmailPattern]);
      && (r.None? <==> forall p :: 0 <= p < |s| ==> !IsAnchor(s, p))
      && (r.Some? ==> IsFirstEmail(s, r.value.0, RunEnd(s, r.value.0, EmailLocal), r.value.1))
  {
    var r := SearchFrom(s, 0, [EmailPattern]);
    forall j | 0 <= j <= |s|
      ensures MatchAny(s, j, [EmailPattern]) == Match(s, j, EmailPattern)
    {
      MatchAnyOne(s, j, EmailPattern);
    }
    if r.None? {
      NoMatchNoAnchor(s);
    } else {
      LeftmostIsFirstEmail(s, r.value.0, r.value.1);
    }
  }

  /** The description `IsFirstEmail` fixes the span: at most one span meets it. */
  lemma FirstEmailUnique(s: string, i: int, a: int, k: int, i': int, a': int, k': int)
    requires IsFirstEmail(s, i, a, k) && IsFirstEmail(s, i', a', k')
    ensures i == i' && a == a' && k == k'
  {
    assert a < a' ==> !IsAnchor(s, a);
    assert a' < a ==> !IsAnchor(s, a');
  }

  /**
    `extract_email(text)`: the first match of `[a-zA-Z0-9+_.-]+@[a-zA-Z0-9.-]+`.
    There is one exactly when some `@` has a local-part character before it and a
    domain character after it, and it is the maximal span around the first such `@`.
   */
  function ExtractEmail(text: string): (r: Option<string>)
    ensures r.None? <==> forall p :: 0 <= p < |text| ==> !IsAnchor(text, p)
    ensures r.Some? ==> exists i, a, k :: IsFirstEmail(text, i, a, k) && r.value == text[i..k]
  {
    SearchEmail(text);
    FirstMatch(text, [EmailPattern])
  }

  /** Conversely, whatever span `IsFirstEmail` describes is what `extract_email` returns. */
  lemma FirstEmailIsExtracted(s: string, i: int, a: int, k: int)
    requires IsFirstEmail(s, i, a, k)
    ensures ExtractEmail(s) == Some(s[i..k])
  {
    var r := ExtractEmail(s);
    assert r.Some?;
    var i', a', k' :| IsFirstEmail(s, i', a', k') && r.value == s[i'..k'];
    FirstEmailUnique(s, i, a, k, i', a', k');
  }

  /** The conditions of `IsFirstEmail` that can be checked locally around the span. */
  lemma LocallyFirstEmail(s: string, i: nat, a: nat, k: nat)
    requires i < a && a + 1 < k <= |s|
    requires forall p :: 0 <= p < i ==> s[p] != '@'
    requires i == 0 || !In(EmailLocal, s[i - 1])
    requires forall j :: i <= j < a ==> In(EmailLocal, s[j])
    requires s[a] == '@'
    requires forall j :: a < j < k ==> In(EmailDomain, s[j])
    requires k == |s| || !In(EmailDomain, s[k])
    ensures IsFirstEmail(s, i, a, k)
  {
    assert forall p :: i <= p < a ==> s[p] != '@';
  }

  /** A piece of `s` whose characters are all in `cls` makes a run of `cls` in `s`. */
  lemma ClassRun(s: string, i: nat, piece: string, cls: Class)
    requires i + |piece| <= |s| && s[i..i + |piece|] == piece
    requires forall j :: 0 <= j < |piece| ==> In(cls, piece[j])
    ensures forall j :: i <= j < i + |piece| ==> In(cls, s[j])
  {
    forall j | i <= j < i + |piece| ensures In(cls, s[j]) {
      assert s[j] == piece[j - i];
    }
  }

  lemma SurroundedParts(pre: string, email: string, post: string)
    ensures var s := pre + email + post;
      && |s| == |pre| + |email| + |post|
      && (forall j :: 0 <= j < |pre| ==> s[j] == pre[j])
      && (|post| > 0 ==> s[|pre| + |email|] == post[0])
      && s[|pre|..|pre| + |email|] == email
  {
  }

  /** A local part, an `@` and a domain laid out from `i` in `s`, with no `@` before them and non-matching neighbours. */
  lemma PiecesAreFirstEmail(s: string, i: nat, local: string, domain: string)
    requires |local| > 0 && forall j :: 0 <= j < |local| ==> In(EmailLocal, local[j])
    requires |domain| > 0 && forall j :: 0 <= j < |domain| ==> In(EmailDomain, domain[j])
    requires i + |local| + 1 + |domain| <= |s|
    requires s[i..i + |local|] == local && s[i + |local|] == '@'
    requires s[i + |local| + 1..i + |local| + 1 + |domain|] == domain
    requires forall p :: 0 <= p < i ==> s[p] != '@'
    requires i == 0 || !In(EmailLocal, s[i - 1])
    requires i + |local| + 1 + |domain| == |s| || !In(EmailDomain, s[i + |local| + 1 + |domain|])
    ensures IsFirstEmail(s, i, i + |local|, i + |local| + 1 + |domain|)
  {
    ClassRun(s, i, local, EmailLocal);
    ClassRun(s, i + |local| + 1, domain, EmailDomain);
    LocallyFirstEmail(s, i, i + |local|, i + |local| + 1 + |domain|);
  }

  /** Where `local + "@" + domain` sits in `s`, its three pieces sit too. */
  lemma PlacedEmailPieces(s: string, i: nat, local: string, domain: string)
    requires i + |local| + 1 + |domain| <= |s|
    requires s[i..i + |local| + 1 + |domain|] == local + "@" + domain
    ensures s[i..i + |local|] == local && s[i + |local|] == '@'
    ensures s[i + |local| + 1..i + |local| + 1 + |domain|] == domain
  {
    var k := i + |local| + 1 + |domain|;
    var email := local + "@" + domain;
    assert email[..|local|] == local && email[|local|] == '@' && email[|local| + 1..] == domain;
    assert s[i..i + |local|] == s[i..k][..|local|];
    assert s[i + |local| + 1..k] == s[i..k][|local| + 1..];
    assert s[i + |local|] == s[i..k][|local|];
  }

  lemma EmbeddedEmailIsFirst(pre: string, local: string, domain: string, post: string)
    requires '@' !in pre
    requires |pre| == 0 || !In(EmailLocal, pre[|pre| - 1])
    requires |local| > 0 && forall j :: 0 <= j < |local| ==> In(EmailLocal, local[j])
    requires |domain| > 0 && forall j :: 0 <= j < |domain| ==> In(EmailDomain, domain[j])
    requires |post| == 0 || !In(EmailDomain, post[0])
    ensures var i := |pre|; var a := i + |local|; var k := a + 1 + |domain|;
      var s := pre + (local + "@" + domain) + post;
      IsFirstEmail(s, i, a, k) && s[i..k] == local + "@" + domain
  {
    var email := local + "@" + domain;
    var s := pre + email + post;
    SurroundedParts(pre, email, post);
    var i := |pre|;
    var a := i + |local|;
    var k := a + 1 + |domain|;
    PlacedEmailPieces(s, i, local, domain);
    forall p | 0 <= p < i ensures s[p] != '@' {
      assert pre[p] in pre;
    }
    PiecesAreFirstEmail(s, i, local, domain);
  }

  /**
    An email written into text is found whole: a local part and a domain of the
    right classes, with no `@` before them, a non-local character (or nothing)
    before the local part and a non-domain character (or nothing) after the domain.
   */
  lemma EmbeddedEmail(pre: string, local: string, domain: string, post: string)
    requires '@' !in pre
    requires |pre| == 0 || !In(EmailLocal, pre[|pre| - 1])
    requires |local| > 0 && forall j :: 0 <= j < |local| ==> In(EmailLocal, local[j])
    requires |domain| > 0 && forall j :: 0 <= j < |domain| ==> In(EmailDomain, domain[j])
    requires |post| == 0 || !In(EmailDomain, post[0])
    ensures ExtractEmail(pre + (local + "@" + domain) + post) == Some(local + "@" + domain)
  {
    var s := pre + (local + "@" + domain) + post;
    var i := |pre|;
    var a := i + |local|;
    var k := a + 1 + |domain|;
    EmbeddedEmailIsFirst(pre, local, domain, post);
    FirstEmailIsExtracted(s, i, a, k);
  }

  /** Text without an `@` has no email. */
  lemma NoAtNoEmail(text: string)
    requires '@' !in text
    ensures ExtractEmail(text) == None
  {
    forall p | 0 <= p < |text| ensures !IsAnchor(text, p) {
      assert text[p] in text;
    }
  }

  /** A found email is a local part, exactly one `@`, and a domain, each non-empty. */
  lemma EmailShape(text: string)
    requires ExtractEmail(text).Some?
    ensures var e := ExtractEmail(text).value;
      exists at :: EmailSplitsAt(e, at) && forall j :: 0 <= j < |e| && e[j] == '@' ==> j == at
  {
    var e := ExtractEmail(text).value;
    var i, a, k :| IsFirstEmail(text, i, a, k) && e == text[i..k];
    assert EmailSplitsAt(e, a - i);
    forall j | 0 <= j < |e| && e[j] == '@' ensures j == a - i {
      assert e[j] == text[i + j];
    }
  }

  // ---------------------------------------------------------------------------
  // Phone: \b\d{10}\b|\(\d{3}\)\s?\d{3}-\d{4}

  /** `\d{n}` followed by `rest`. */
  function Digits(n: nat, rest: Pattern): Pattern {
    if n == 0 then rest else Then(One(Digit), Digits(n - 1, rest))
  }

  const TenDigitPattern: Pattern := Then(Boundary, Digits(10, Then(Boundary, Empty)))

  /** `\d{3}-\d{4}`, the part after the optional space. */
  const LocalNumber: Pattern := Digits(3, Then(Lit('-'), Digits(4, Empty)))

  const ParenPattern: Pattern := Then(Lit('('), Digits(3, Then(Lit(')'), Then(Maybe(Space), LocalNumber))))

  const PhonePattern: seq<Pattern> := [TenDigitPattern, ParenPattern]

  /** `s[i..i + n]` lies in `s` and is all ASCII digits. */
  predicate DigitRun(s: string, i: int, n: nat) {
    0 <= i && i + n <= |s| && forall j :: i <= j < i + n ==> IsAsciiDigit(s[j])
  }

  /** `s[i..k]` is ten digits with no word character touching either end. */
  predicate TenDigitsAt(s: string, i: int, k: int) {
    k == i + 10 && DigitRun(s, i, 10) && (i == 0 || !IsWordChar(s[i - 1])) && (k == |s| || !IsWordChar(s[k]))
  }

  /** `s[i..k]` is `(ddd)ddd-dddd` or `(ddd)` + one whitespace + `ddd-dddd`. */
  predicate ParenAt(s: string, i: int, k: int) {
    var g := k - i - 13;
    && (g == 0 || g == 1)
    && 0 <= i && k <= |s|
    && s[i] == '(' && DigitRun(s, i + 1, 3) && s[i + 4] == ')'
    && (g == 1 ==> In(Space, s[i + 5]))
    && DigitRun(s, i + 5 + g, 3) && s[i + 8 + g] == '-' && DigitRun(s, i + 9 + g, 4)
  }

  predicate PhoneAt(s: string, i: int, k: int) {
    TenDigitsAt(s, i, k) || ParenAt(s, i, k)
  }

  lemma {:induction false} DigitsMatch(s: string, i: nat, n: nat, rest: Pattern)
    requires i <= |s|
    ensures Match(s, i, Digits(n, rest)) == if DigitRun(s, i, n) then Match(s, i + n, rest) else None
    decreases n
  {
    if n > 0 {
      if i < |s| && IsAsciiDigit(s[i]) {
        DigitsMatch(s, i + 1, n - 1, rest);
        if !DigitRun(s, i + 1, n - 1) {
          var j :| i + 1 <= j < i + n && (j >= |s| || !IsAsciiDigit(s[j]));
        }
      }
    }
  }

  lemma TenDigitMatch(s: string, i: nat)
    requires i <= |s|
    ensures Match(s, i, TenDigitPattern) == if TenDigitsAt(s, i, i + 10) then Some(i + 10) else None
  {
    var tail := Then(Boundary, Empty);
    DigitsMatch(s, i, 10, tail);
    if AtBoundary(s, i) && DigitRun(s, i, 10) {
      assert Match(s, i + 10, tail) == if AtBoundary(s, i + 10) then Some(i + 10) else None;
    }
    if DigitRun(s, i, 10) {
      assert IsWordChar(s[i]) && IsWordChar(s[i + 9]);
    }
  }

  lemma LocalNumberMatch(s: string, j: nat)
    requires j <= |s|
    ensures Match(s, j, LocalNumber) ==
      if DigitRun(s, j, 3) && j + 3 < |s| && s[j + 3] == '-' && DigitRun(s, j + 4, 4) then Some(j + 8) else None
  {
    var dash := Then(Lit('-'), Digits(4, Empty));
    DigitsMatch(s, j, 3, dash);
    if DigitRun(s, j, 3) && j + 3 < |s| && s[j + 3] == '-' {
      DigitsMatch(s, j + 4, 4, Empty);
    }
  }

  lemma ParenMatch(s: string, i: nat, k: int)
    requires i <= |s|
    ensures Match(s, i, ParenPattern) == Some(k) <==> ParenAt(s, i, k)
  {
    var close := Then(Lit(')'), Then(Maybe(Space), LocalNumber));
    if i < |s| && s[i] == '(' {
      assert Match(s, i, ParenPattern) == Match(s, i + 1, Digits(3, close));
      DigitsMatch(s, i + 1, 3, close);
      if DigitRun(s, i + 1, 3) && i + 4 < |s| && s[i + 4] == ')' {
        assert Match(s, i + 4, close) == Match(s, i + 5, Then(Maybe(Space), LocalNumber));
        LocalNumberMatch(s, i + 5);
        if i + 5 < |s| {
          LocalNumberMatch(s, i + 6);
        }
      }
    }
  }

  /** The phone alternation matches `s[i..k]` exactly when `PhoneAt` holds of it. */
  lemma PhoneMatchAt(s: string, i: nat, k: int)
    requires i <= |s|
    ensures MatchAny(s, i, PhonePattern) == Some(k) <==> PhoneAt(s, i, k)
  {
    MatchAnyTwo(s, i, TenDigitPattern, ParenPattern);
    TenDigitMatch(s, i);
    ParenMatch(s, i, k);
    if TenDigitsAt(s, i, i + 10) {
      assert !ParenAt(s, i, k);
    }
  }

  /** `s[i..i + |p|]` is `p`, a phone number, and no phone number starts before `i`. */
  ghost predicate IsFirstPhone(s: string, i: int, p: string) {
    && 0 <= i && i + |p| <= |s|
    && s[i..i + |p|] == p
    && PhoneAt(s, i, i + |p|)
    && forall j, k :: 0 <= j < i ==> !PhoneAt(s, j, k)
  }

  /**
    `extract_phone(text)`: the first match of `\b\d{10}\b|\(\d{3}\)\s?\d{3}-\d{4}`.
    There is one exactly when some span of the text has one of the two shapes,
    and it is the one that starts first.
   */
  function ExtractPhone(text: string): (r: Option<string>)
    ensures r.None? <==> forall i, k :: !PhoneAt(text, i, k)
    ensures r.Some? ==> exists i :: IsFirstPhone(text, i, r.value)
  {
    var found := SearchFrom(text, 0, PhonePattern);
    forall i, k | PhoneAt(text, i, k) ensures MatchAny(text, i, PhonePattern).Some? {
      PhoneMatchAt(text, i, k);
    }
    if found.Some? then
      var (i, k) := found.value;
      PhoneMatchAt(text, i, k);
      assert forall j, k' :: 0 <= j < i && PhoneAt(text, j, k') ==> MatchAny(text, j, PhonePattern).Some?;
      assert IsFirstPhone(text, i, text[i..k]);
      FirstMatch(text, PhonePattern)
    else
      FirstMatch(text, PhonePattern)
  }

  /** A found phone number has one of the three lengths the two shapes allow. */
  lemma PhoneLength(text: string)
    ensures ExtractPhone(text).Some? ==> |ExtractPhone(text).value| in {10, 13, 14}
  {
    if ExtractPhone(text).Some? {
      var p := ExtractPhone(text).value;
      var i :| IsFirstPhone(text, i, p);
    }
  }

  /** At most one phone number starts at any position. */
  lemma PhoneAtUnique(s: string, i: int, k: int, k': int)
    requires PhoneAt(s, i, k) && PhoneAt(s, i, k')
    ensures k == k'
  {
    PhoneMatchAt(s, i, k);
    PhoneMatchAt(s, i, k');
  }

  /** Whatever `IsFirstPhone` describes is what `extract_phone` returns. */
  lemma FirstPhoneIsExtracted(s: string, i: int, p: string)
    requires IsFirstPhone(s, i, p)
    ensures ExtractPhone(s) == Some(p)
  {
    var r := ExtractPhone(s);
    assert r.Some?;
    var q := r.value;
    var i' :| IsFirstPhone(s, i', q);
    FirstPhoneStart(s, i, p, i', q);
    PhoneAtUnique(s, i, i + |p|, i + |q|);
    assert p == s[i..i + |p|] == q;
  }

  /** Two first phone numbers start at the same place. */
  lemma FirstPhoneStart(s: string, i: int, p: string, i': int, q: string)
    requires IsFirstPhone(s, i, p) && IsFirstPhone(s, i', q)
    ensures i == i'
  {
    assert 0 <= i' < i ==> !PhoneAt(s, i', i' + |q|);
    assert 0 <= i < i' ==> !PhoneAt(s, i, i + |p|);
  }
}
