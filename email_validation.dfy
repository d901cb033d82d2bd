/** The email check of EmployeeService: a whole-string match against
      ^[A-Za-z0-9._%+-]+@[A-Za-z0-9.-]+\.[A-Za-z]{2,6}$
    The pattern's meaning is stated as a split of the string into its four
    parts; the check itself is computed by locating the `@` and the last `.`. */
module EmailValidation {
  import opened Wrappers
  import opened ExceptionHandling
  import opened DecimalText

  predicate IsAsciiLetter(c: char) {
    'A' <= c <= 'Z' || 'a' <= c <= 'z'
  }

  /** `[A-Za-z0-9._%+-]` */
  predicate IsLocalChar(c: char) {
    IsAsciiLetter(c) || IsDigit(c) || c == '.' || c == '_' || c == '%' || c == '+' || c == '-'
  }

  /** `[A-Za-z0-9.-]` */
  predicate IsDomainChar(c: char) {
    IsAsciiLetter(c) || IsDigit(c) || c == '.' || c == '-'
  }

  predicate AllLocal(s: string) {
    forall i :: 0 <= i < |s| ==> IsLocalChar(s[i])
  }

  predicate AllDomain(s: string) {
    forall i :: 0 <= i < |s| ==> IsDomainChar(s[i])
  }

  predicate AllLetters(s: string) {
    forall i :: 0 <= i < |s| ==> IsAsciiLetter(s[i])
  }

  /** The pattern matches `s` with the `@` at index `at` and the literal `.` at index `dot`. */
  ghost predicate MatchesAt(s: string, at: int, dot: int) {
    && 0 < at && at + 1 < dot && dot < |s|
    && s[at] == '@' && s[dot] == '.'
    && AllLocal(s[..at])
    && AllDomain(s[at + 1..dot])
    && 2 <= |s| - (dot + 1) <= 6
    && AllLetters(s[dot + 1..])
  }

  /** The regular expression's meaning: some split of the whole string fits it. */
  ghost predicate MatchesEmailPattern(s: string) {
    exists at, dot :: MatchesAt(s, at, dot)
  }

  function CountChar(s: string, c: char): nat {
    if s == [] then 0 else CountChar(s[..|s| - 1], c) + (if s[|s| - 1] == c then 1 else 0)
  }

  /** Index of the first `c` in `s`, or -1. */
  function FirstIndexOf(s: string, c: char): (r: int)
    ensures -1 <= r < |s|
    ensures r >= 0 ==> s[r] == c
    ensures forall j :: 0 <= j < |s| && (r < 0 || j < r) ==> s[j] != c
  {
    if s == [] then -1
    else if s[0] == c then 0
    else var r := FirstIndexOf(s[1..], c); if r < 0 then -1 else r + 1
  }

  /** Index of the last `c` in `s`, or -1. */
  function LastIndexOf(s: string, c: char): (r: int)
    ensures -1 <= r < |s|
    ensures r >= 0 ==> s[r] == c
    ensures forall j :: 0 <= j < |s| && r < j ==> s[j] != c
  {
    if s == [] then -1
    else if s[|s| - 1] == c then |s| - 1
    else LastIndexOf(s[..|s| - 1], c)
  }

  /** The check as computed: exactly one `@`, a non-empty local part before
      it, only domain characters after it, and a last `.` with at least one
      character between it and the `@` and two to six letters after it. */
  predicate IsValidEmail(s: string) {
    var at := FirstIndexOf(s, '@');
    var dot := LastIndexOf(s, '.');
    && CountChar(s, '@') == 1
    && at >= 1 && AllLocal(s[..at])
    && AllDomain(s[at + 1..])
    && dot >= at + 2
    && 2 <= |s| - (dot + 1) <= 6
    && AllLetters(s[dot + 1..])
  }

  lemma {:induction false} CountCharAppend(a: string, b: string, c: char)
    ensures CountChar(a + b, c) == CountChar(a, c) + CountChar(b, c)
    decreases |b|
  {
    if b == [] {
      assert a + b == a;
    } else {
      assert (a + b)[..|a + b| - 1] == a + b[..|b| - 1];
      CountCharAppend(a, b[..|b| - 1], c);
    }
  }

  lemma {:induction false} CountCharAbsent(s: string, c: char)
    requires forall i :: 0 <= i < |s| ==> s[i] != c
    ensures CountChar(s, c) == 0
    decreases |s|
  {
    if s != [] {
      CountCharAbsent(s[..|s| - 1], c);
    }
  }

  lemma ValidEmailMatches(s: string)
    requires IsValidEmail(s)
    ensures MatchesAt(s, FirstIndexOf(s, '@'), LastIndexOf(s, '.'))
  {
    var at, dot := FirstIndexOf(s, '@'), LastIndexOf(s, '.');
    assert s[at + 1..dot] == s[at + 1..][..dot - at - 1];
  }

  /** Under a match, the text after the `@` holds only domain characters. */
  lemma MatchedTail(s: string, at: int, dot: int)
    requires MatchesAt(s, at, dot)
    ensures AllDomain(s[at + 1..])
  {
    var tail := s[at + 1..];
    forall j | 0 <= j < |tail| ensures IsDomainChar(tail[j]) {
      if at + 1 + j < dot {
        assert tail[j] == s[at + 1..dot][j];
      } else if at + 1 + j > dot {
        assert tail[j] == s[dot + 1..][at + j - dot];
      }
    }
  }

  /** Under a match, the string holds exactly one `@`. */
  lemma MatchedHasOneAt(s: string, at: int, dot: int)
    requires MatchesAt(s, at, dot)
    ensures CountChar(s, '@') == 1
  {
    var tail := s[at + 1..];
    MatchedTail(s, at, dot);
    forall j | 0 <= j < at ensures s[..at][j] != '@' {
    }
    assert s == s[..at] + [s[at]] + tail;
    CountCharAbsent(s[..at], '@');
    CountCharAbsent(tail, '@');
    CountCharAppend(s[..at], [s[at]], '@');
    CountCharAppend(s[..at] + [s[at]], tail, '@');
    assert CountChar([s[at]], '@') == 1 by {
      assert [s[at]][..0] == [];
    }
  }

  /** A split that fits the pattern is the only one: its `@` is the only `@`
      and its `.` is the last `.`, so the computed check accepts the string. */
  lemma MatchIsValidEmail(s: string, at: int, dot: int)
    requires MatchesAt(s, at, dot)
    ensures at == FirstIndexOf(s, '@') && dot == LastIndexOf(s, '.')
    ensures IsValidEmail(s)
  {
    forall j | 0 <= j < at ensures s[j] != '@' {
      assert s[..at][j] == s[j];
    }
    assert FirstIndexOf(s, '@') == at;
    forall j | dot < j < |s| ensures s[j] != '.' {
      assert s[dot + 1..][j - dot - 1] == s[j];
    }
    assert LastIndexOf(s, '.') == dot;
    MatchedTail(s, at, dot);
    MatchedHasOneAt(s, at, dot);
  }

  /** The computed check accepts exactly the strings the pattern matches. */
  lemma EmailCharacterisation(s: string)
    ensures IsValidEmail(s) <==> MatchesEmailPattern(s)
  {
    if IsValidEmail(s) {
      ValidEmailMatches(s);
    }
    if MatchesEmailPattern(s) {
      var at, dot :| MatchesAt(s, at, dot);
      MatchIsValidEmail(s, at, dot);
    }
  }

  /** The message of the InvalidEmailException; a null email prints as "null". */
  function InvalidEmailMessage(email: Option<string>): string {
    "L'adresse email " + (match email case None => "null" case Some(s) => s) + " n'est pas valide."
  }

  /** validateEmail: passes exactly on a present email that matches the
      pattern, and otherwise fails with InvalidEmail. */
  function ValidateEmail(email: Option<string>): (r: Outcome<Failure>)
    ensures r.Pass? <==> email.Some? && MatchesEmailPattern(email.value)
    ensures r.Fail? ==> r.error == InvalidEmail(InvalidEmailMessage(email))
  {
    match email
    case None => Fail(InvalidEmail(InvalidEmailMessage(email)))
    case Some(s) =>
      EmailCharacterisation(s);
      if IsValidEmail(s) then Pass else Fail(InvalidEmail(InvalidEmailMessage(email)))
  }
}
