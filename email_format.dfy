/**
 * The email syntax check of the account service: the pattern
 * `^[^\s@]+@[^\s@]+\.[^\s@]+$` tested against the lower-cased input.
 *
 * The pattern is run as a deterministic automaton (`Step`, `Run`); the lemmas
 * below prove that the automaton accepts exactly the strings the pattern
 * describes (`IsEmailShaped`), and that lower-casing never changes the verdict.
 */
module EmailFormat {

  /** The characters JavaScript's `\s` class matches. */
  predicate IsSpace(c: char) {
    var n := c as int;
    || (0x09 <= n <= 0x0D) || n == 0x20 || n == 0xA0 || n == 0x1680
    || (0x2000 <= n <= 0x200A) || n == 0x2028 || n == 0x2029
    || n == 0x202F || n == 0x205F || n == 0x3000 || n == 0xFEFF
  }

  /** A character of the class `[^\s@]`. */
  predicate IsRunChar(c: char) {
    !IsSpace(c) && c != '@'
  }

  /** Every character of `s` is in `[^\s@]`. */
  predicate AllRunChars(s: string) {
    forall k :: 0 <= k < |s| ==> IsRunChar(s[k])
  }

  /** The pattern's language: `local@domain.tld`, three non-empty runs of `[^\s@]`. */
  ghost predicate IsEmailShaped(s: string) {
    exists i, j :: ShapedAt(s, i, j)
  }

  /** `s` is `local@domain.tld` with its `@` at `i` and the dot before the tld at `j`. */
  ghost predicate ShapedAt(s: string, i: int, j: int) {
    && 0 < i && i + 1 < j && j + 1 < |s|
    && s[i] == '@' && s[j] == '.'
    && AllRunChars(s[..i]) && AllRunChars(s[i + 1..])
  }

  /** ASCII lower-casing of one character; every other character is kept. */
  function LowerChar(c: char): char {
    if 'A' <= c <= 'Z' then (c as int + 32) as char else c
  }

  /** `String(email).toLowerCase()`, restricted to ASCII letters. */
  function Lower(s: string): string {
    if s == [] then [] else [LowerChar(s[0])] + Lower(s[1..])
  }

  /** States of the automaton for the pattern; `Tld` is the only accepting one. */
  datatype MatchState = Start | Local | AtSign | Domain | Dot | Tld | Reject

  function Step(q: MatchState, c: char): MatchState {
    match q
    case Start => if IsRunChar(c) then Local else Reject
    case Local => if IsRunChar(c) then Local else if c == '@' then AtSign else Reject
    case AtSign => if IsRunChar(c) then Domain else Reject
    case Domain => if c == '.' then Dot else if IsRunChar(c) then Domain else Reject
    case Dot => if IsRunChar(c) then Tld else Reject
    case Tld => if IsRunChar(c) then Tld else Reject
    case Reject => Reject
  }

  /** The state reached from `q` after reading `s` left to right. */
  function Run(q: MatchState, s: string): MatchState
    decreases |s|
  {
    if s == [] then q else Run(Step(q, s[0]), s[1..])
  }

  /** `validateEmail`: the lower-cased input matches the pattern. */
  predicate ValidEmail(email: string) {
    Run(Start, Lower(email)) == Tld
  }

  // ---------------------------------------------------------------------
  // The language of each state

  /** Some `.` stands before the last character of `s`. */
  ghost predicate DotBeforeLast(s: string) {
    exists j :: 0 <= j < |s| - 1 && s[j] == '.'
  }

  /** `[^\s@]+\.[^\s@]+`: what must follow the `@`. */
  ghost predicate DomainShaped(d: string) {
    |d| > 0 && AllRunChars(d) && DotBeforeLast(d[1..])
  }

  /** `[^\s@]*@` followed by a domain. */
  ghost predicate AtThenDomain(s: string) {
    exists i :: AtThenDomainAt(s, i)
  }

  ghost predicate AtThenDomainAt(s: string, i: int) {
    0 <= i < |s| && s[i] == '@' && AllRunChars(s[..i]) && DomainShaped(s[i + 1..])
  }

  lemma RunCharsUncons(s: string)
    requires s != []
    ensures AllRunChars(s) <==> IsRunChar(s[0]) && AllRunChars(s[1..])
  {

  }

  lemma DotBeforeLastUncons(s: string)
    requires s != []
    ensures DotBeforeLast(s) <==> (s[0] == '.' && |s| > 1) || DotBeforeLast(s[1..])
  {

  }

  lemma {:induction false} RejectAbsorbs(s: string)
    ensures Run(Reject, s) == Reject
    decreases |s|
  {
    if s != [] {
      RejectAbsorbs(s[1..]);
    }
  }

  lemma {:induction false} TldAccepts(s: string)
    ensures Run(Tld, s) == Tld <==> AllRunChars(s)
    decreases |s|
  {
    if s != [] {
      RunCharsUncons(s);
      if IsRunChar(s[0]) {
        TldAccepts(s[1..]);
      } else {
        RejectAbsorbs(s[1..]);
      }
    }
  }

  lemma DotAccepts(s: string)
    ensures Run(Dot, s) == Tld <==> s != [] && AllRunChars(s)
  {
    if s != [] {
      RunCharsUncons(s);
      if IsRunChar(s[0]) {
        TldAccepts(s[1..]);
      } else {
        RejectAbsorbs(s[1..]);
      }
    }
  }

  lemma {:induction false} DomainAccepts(s: string)
    ensures Run(Domain, s) == Tld <==> AllRunChars(s) && DotBeforeLast(s)
    decreases |s|
  {
    if s != [] {
      RunCharsUncons(s);
      DotBeforeLastUncons(s);
      if s[0] == '.' {
        assert IsRunChar('.');
        DotAccepts(s[1..]);
      } else if IsRunChar(s[0]) {
        DomainAccepts(s[1..]);
      } else {
        RejectAbsorbs(s[1..]);
      }
    }
  }

  lemma AtSignAccepts(s: string)
    ensures Run(AtSign, s) == Tld <==> DomainShaped(s)
  {
    if s != [] {
      RunCharsUncons(s);
      if IsRunChar(s[0]) {
        DomainAccepts(s[1..]);
      } else {
        RejectAbsorbs(s[1..]);
      }
    }
  }

  lemma AtThenDomainShift(s: string)
    requires s != [] && IsRunChar(s[0]) && AtThenDomain(s[1..])
    ensures AtThenDomain(s)
  {
    var t := s[1..];
    var i :| AtThenDomainAt(t, i);
    assert t[i + 1..] == s[i + 2..];
    assert s[..i + 1][1..] == t[..i];
    RunCharsUncons(s[..i + 1]);
    assert AtThenDomainAt(s, i + 1);
  }

  lemma AtThenDomainBack(s: string)
    requires s != [] && s[0] != '@' && AtThenDomain(s)
    ensures IsRunChar(s[0]) && AtThenDomain(s[1..])
  {
    var i :| AtThenDomainAt(s, i);
    var t := s[1..];
    assert i > 0;
    assert IsRunChar(s[..i][0]);
    assert t[..i - 1] == s[..i][1..];
    RunCharsUncons(s[..i]);
    assert t[(i - 1) + 1..] == s[i + 1..];
    assert AtThenDomainAt(t, i - 1);
  }

  lemma AtThenDomainUncons(s: string)
    requires s != []
    ensures AtThenDomain(s) <==>
      (s[0] == '@' && DomainShaped(s[1..])) || (IsRunChar(s[0]) && AtThenDomain(s[1..]))
  {
    if s[0] == '@' && DomainShaped(s[1..]) {
      assert s[..0] == [];
      assert AtThenDomainAt(s, 0);
    }
    if IsRunChar(s[0]) && AtThenDomain(s[1..]) {
      AtThenDomainShift(s);
    }
    if AtThenDomain(s) && s[0] != '@' {
      AtThenDomainBack(s);
    }
  }

  lemma {:induction false} LocalAccepts(s: string)
    ensures Run(Local, s) == Tld <==> AtThenDomain(s)
    decreases |s|
  {
    if s == [] {
      assert !AtThenDomain(s);
    } else {
      AtThenDomainUncons(s);
      if IsRunChar(s[0]) {
        LocalAccepts(s[1..]);
      } else if s[0] == '@' {
        AtSignAccepts(s[1..]);
      } else {
        RejectAbsorbs(s[1..]);
      }
    }
  }

  lemma ShapeFromNested(s: string)
    requires s != [] && IsRunChar(s[0]) && AtThenDomain(s[1..])
    ensures IsEmailShaped(s)
  {
    var t := s[1..];
    var i' :| AtThenDomainAt(t, i');
    var d := t[i' + 1..];
    var j' :| 0 <= j' < |d[1..]| - 1 && d[1..][j'] == '.';
    var i, j := i' + 1, i' + 3 + j';
    assert d == s[i + 1..];
    assert s[j] == d[1..][j'];
    assert s[..i][1..] == t[..i'];
    RunCharsUncons(s[..i]);
    assert ShapedAt(s, i, j);
  }

  lemma NestedFromShape(s: string)
    requires IsEmailShaped(s)
    ensures s != [] && IsRunChar(s[0]) && AtThenDomain(s[1..])
  {
    var i, j :| ShapedAt(s, i, j);
    var t := s[1..];
    var d := s[i + 1..];
    assert d[1..][j - i - 2] == '.';
    assert DomainShaped(d);
    assert IsRunChar(s[..i][0]);
    assert t[..i - 1] == s[..i][1..];
    RunCharsUncons(s[..i]);
    assert t[(i - 1) + 1..] == d;
    assert AtThenDomainAt(t, i - 1);
  }

  /** The nested form of the language, read off the automaton, is the flat one. */
  lemma ShapeUnfolds(s: string)
    ensures IsEmailShaped(s) <==> s != [] && IsRunChar(s[0]) && AtThenDomain(s[1..])
  {
    if s != [] && IsRunChar(s[0]) && AtThenDomain(s[1..]) {
      ShapeFromNested(s);
    }
    if IsEmailShaped(s) {
      NestedFromShape(s);
    }
  }

  /** The automaton started in `Start` accepts exactly the pattern's language. */
  lemma StartAccepts(s: string)
    ensures Run(Start, s) == Tld <==> IsEmailShaped(s)
  {
    ShapeUnfolds(s);
    if s != [] {
      if IsRunChar(s[0]) {
        LocalAccepts(s[1..]);
      } else {
        RejectAbsorbs(s[1..]);
      }
    }
  }

  // ---------------------------------------------------------------------
  // Case-insensitivity

  lemma StepIgnoresCase(q: MatchState, c: char)
    ensures Step(q, LowerChar(c)) == Step(q, c)
  {

  }

  lemma {:induction false} RunIgnoresCase(q: MatchState, s: string)
    ensures |Lower(s)| == |s|
    ensures Run(q, Lower(s)) == Run(q, s)
    decreases |s|
  {
    if s != [] {
      StepIgnoresCase(q, s[0]);
      RunIgnoresCase(Step(q, s[0]), s[1..]);
      assert Lower(s)[1..] == Lower(s[1..]);
    }
  }

  /**
   * `validateEmail` holds exactly of the strings of the shape `local@domain.tld`:
   * the `toLowerCase` applied first never changes the verdict.
   */
  lemma ValidEmailIsShape(s: string)
    ensures ValidEmail(s) <==> IsEmailShaped(s)
  {
    RunIgnoresCase(Start, s);
    StartAccepts(s);
  }

  /** Lower-casing the input first, as the handler's `toLowerCase` does, changes nothing. */
  lemma ValidEmailCaseInsensitive(s: string)
    ensures ValidEmail(Lower(s)) == ValidEmail(s)
  {
    RunIgnoresCase(Start, Lower(s));
    RunIgnoresCase(Start, s);
  }

  /** A valid email has exactly one `@`, no whitespace, and a `.` after the `@`. */
  lemma ValidEmailConsequences(s: string)
    requires ValidEmail(s)
    ensures forall k :: 0 <= k < |s| ==> !IsSpace(s[k])
    ensures exists i ::
      && 0 < i < |s| && s[i] == '@'
      && (forall k :: 0 <= k < |s| && s[k] == '@' ==> k == i)
      && (exists j :: i < j < |s| - 1 && s[j] == '.')
  {
    ValidEmailIsShape(s);
    var i, j :| ShapedAt(s, i, j);
    forall k | 0 <= k < |s| && k != i ensures IsRunChar(s[k]) {
      if k < i { assert s[k] == s[..i][k]; } else { assert s[k] == s[i + 1..][k - i - 1]; }
    }
    assert !IsSpace(s[i]);
    assert i < j < |s| - 1 && s[j] == '.';
  }

  /** A string without an `@` is never a valid email. */
  lemma NoAtSignInvalid(s: string)
    requires forall k :: 0 <= k < |s| ==> s[k] != '@'
    ensures !ValidEmail(s)
  {
    ValidEmailIsShape(s);
  }

  /** Any three non-empty runs joined as `local@domain.tld` pass the check. */
  lemma ValidEmailFromParts(local: string, domain: string, tld: string)
    requires |local| > 0 && |domain| > 0 && |tld| > 0
    requires AllRunChars(local) && AllRunChars(domain) && AllRunChars(tld)
    ensures ValidEmail(local + "@" + domain + "." + tld)
  {
    var s := local + "@" + domain + "." + tld;
    var i, j := |local|, |local| + 1 + |domain|;
    assert s[..i] == local;
    assert s[i + 1..] == domain + "." + tld;
    assert IsRunChar('.');
    assert s[i] == '@' && s[j] == '.';
    assert AllRunChars(s[i + 1..]);
    assert ShapedAt(s, i, j);
    ValidEmailIsShape(s);
  }
}
