/** Input validation in package `global`: `IsValidEmail` and `IsValidPassword`.
    Each returns a Go `error`, `None` standing for `nil`. */
module Validation {
  import opened GoTypes
  import opened Strconv

  predicate IsAsciiLetter(c: char) {
    'a' <= c <= 'z' || 'A' <= c <= 'Z'
  }

  /** The class `[a-zA-Z0-9._%+-]` of the email pattern's local part. */
  predicate IsLocalChar(c: char) {
    IsAsciiLetter(c) || IsDigit(c) || c == '.' || c == '_' || c == '%' || c == '+' || c == '-'
  }

  /** The class `[a-zA-Z0-9.-]` of the email pattern's domain. */
  predicate IsDomainChar(c: char) {
    IsAsciiLetter(c) || IsDigit(c) || c == '.' || c == '-'
  }

  predicate AllLocal(s: GoString) {
    forall i :: 0 <= i < |s| ==> IsLocalChar(s[i])
  }

  predicate AllDomain(s: GoString) {
    forall i :: 0 <= i < |s| ==> IsDomainChar(s[i])
  }

  predicate AllLetters(s: GoString) {
    forall i :: 0 <= i < |s| ==> IsAsciiLetter(s[i])
  }

  /** The language of `^[a-zA-Z0-9._%+-]+@[a-zA-Z0-9.-]+\.[a-zA-Z]{2,}$` under
      RE2, where `^` and `$` anchor at the ends of the whole text: the input
      splits at an `@` (index `at`) and a `.` (index `dot`) into a non-empty
      local part, a non-empty domain and a top-level part of two or more letters. */
  ghost predicate InEmailLanguage(s: GoString) {
    exists at, dot | 0 < at && at + 1 < dot && dot + 2 < |s| ::
      s[at] == '@' && s[dot] == '.'
      && AllLocal(s[..at]) && AllDomain(s[at + 1..dot]) && AllLetters(s[dot + 1..])
  }

  /** The first index of `c` in `s`. */
  function IndexOf(s: GoString, c: char): (r: Option<nat>)
    ensures r.Some? ==> r.value < |s| && s[r.value] == c && forall k :: 0 <= k < r.value ==> s[k] != c
    ensures r.None? ==> forall k :: 0 <= k < |s| ==> s[k] != c
  {
    if s == [] then None
    else if s[0] == c then Some(0)
    else match IndexOf(s[1..], c)
      case None => None
      case Some(k) => Some(k + 1)
  }

  /** The last index of `c` in `s`. */
  function LastIndexOf(s: GoString, c: char): (r: Option<nat>)
    ensures r.Some? ==> r.value < |s| && s[r.value] == c && forall k :: r.value < k < |s| ==> s[k] != c
    ensures r.None? ==> forall k :: 0 <= k < |s| ==> s[k] != c
  {
    if s == [] then None
    else if s[|s| - 1] == c then Some(|s| - 1)
    else LastIndexOf(s[..|s| - 1], c)
  }

  /** The email shape checked character by character: a non-empty local part
      over the local class up to the first `@`; after it only domain-class
      bytes (so no second `@`); and the last `.` after the `@` has at least
      one byte before it and two or more ASCII letters after it. */
  predicate IsEmailShaped(s: GoString) {
    match IndexOf(s, '@')
    case None => false
    case Some(at) =>
      var domain := s[at + 1..];
      at > 0 && AllLocal(s[..at]) && AllDomain(domain) &&
      match LastIndexOf(domain, '.')
      case None => false
      case Some(dot) => dot > 0 && dot + 2 < |domain| && AllLetters(domain[dot + 1..])
  }

  lemma FirstIndexIs(s: GoString, c: char, k: nat)
    requires k < |s| && s[k] == c
    requires forall j :: 0 <= j < k ==> s[j] != c
    ensures IndexOf(s, c) == Some(k)
  {
  }

  lemma LastIndexIs(s: GoString, c: char, k: nat)
    requires k < |s| && s[k] == c
    requires forall j :: k < j < |s| ==> s[j] != c
    ensures LastIndexOf(s, c) == Some(k)
  {
  }

  lemma ShapeGivesSplit(s: GoString)
    requires IsEmailShaped(s)
    ensures InEmailLanguage(s)
  {
    var at := IndexOf(s, '@').value;
    var domain := s[at + 1..];
    var dot := LastIndexOf(domain, '.').value;
    var middle := s[at + 1..at + 1 + dot];
    assert middle == domain[..dot];
    assert s[at + 1 + dot + 1..] == domain[dot + 1..];
    assert s[at + 1 + dot] == '.';
    assert AllDomain(middle) by {
      forall k | 0 <= k < |middle| ensures IsDomainChar(middle[k]) {
        assert middle[k] == domain[k];
      }
    }
  }

  /** A domain made of domain-class bytes up to a `.` followed only by
      letters has that `.` as its last one. */
  lemma DomainSplit(domain: GoString, d: nat)
    requires d < |domain| && domain[d] == '.'
    requires AllDomain(domain[..d]) && AllLetters(domain[d + 1..])
    ensures AllDomain(domain) && LastIndexOf(domain, '.') == Some(d)
  {
    var middle, top := domain[..d], domain[d + 1..];
    forall j | 0 <= j < |domain| ensures IsDomainChar(domain[j]) && (j > d ==> domain[j] != '.') {
      if j < d {
        assert domain[j] == middle[j];
      } else if j > d {
        assert domain[j] == top[j - d - 1];
      }
    }
    LastIndexIs(domain, '.', d);
  }

  lemma SplitGivesShape(s: GoString, at: nat, dot: nat)
    requires 0 < at && at + 1 < dot && dot + 2 < |s|
    requires s[at] == '@' && s[dot] == '.'
    requires AllLocal(s[..at]) && AllDomain(s[at + 1..dot]) && AllLetters(s[dot + 1..])
    ensures IsEmailShaped(s)
  {
    var local := s[..at];
    assert forall j :: 0 <= j < at ==> s[j] == local[j];
    FirstIndexIs(s, '@', at);
    var domain := s[at + 1..];
    var d := dot - at - 1;
    assert domain[..d] == s[at + 1..dot];
    assert domain[d + 1..] == s[dot + 1..];
    DomainSplit(domain, d);
  }

  /** The character-level check accepts exactly the language of the pattern. */
  lemma EmailShapeIsLanguage(s: GoString)
    ensures IsEmailShaped(s) <==> InEmailLanguage(s)
  {
    if IsEmailShaped(s) {
      ShapeGivesSplit(s);
    }
    if InEmailLanguage(s) {
      var at, dot :| 0 < at && at + 1 < dot && dot + 2 < |s| &&
        s[at] == '@' && s[dot] == '.' &&
        AllLocal(s[..at]) && AllDomain(s[at + 1..dot]) && AllLetters(s[dot + 1..]);
      SplitGivesShape(s, at, dot);
    }
  }

  /** An address in the language holds exactly one `@`. */
  lemma EmailHasOneAt(s: GoString, i: int, j: int)
    requires InEmailLanguage(s)
    requires 0 <= i < |s| && 0 <= j < |s| && s[i] == '@' && s[j] == '@'
    ensures i == j
  {
    EmailShapeIsLanguage(s);
    var at := IndexOf(s, '@').value;
    assert forall k :: at < k < |s| ==> s[k] == s[at + 1..][k - at - 1];
  }

  /** `IsValidEmail`: `nil` exactly for the inputs the pattern matches in full,
      otherwise the error "email must be valid". */
  function IsValidEmail(email: GoString): (r: Option<Error>)
    ensures r.None? <==> InEmailLanguage(email)
    ensures r.Some? ==> r.value == Message("email must be valid")
  {
    EmailShapeIsLanguage(email);
    if IsEmailShaped(email) then None else Some(Message("email must be valid"))
  }

  /** The shortest kind of address the pattern accepts. */
  lemma EmailAccepted()
    ensures IsValidEmail("a@b.co") == None
  {
    var s: GoString := "a@b.co";
    assert s[..1] == "a" && s[2..3] == "b" && s[4..] == "co";
    SplitGivesShape(s, 1, 3);
  }

  /** A one-letter top-level part is rejected. */
  lemma EmailRejectsShortTopLevel()
    ensures IsValidEmail("a@b.c") == Some(Message("email must be valid"))
  {
    var s: GoString := "a@b.c";
    FirstIndexIs(s, '@', 1);
    LastIndexIs(s[2..], '.', 1);
  }

  /** Something must stand between the `@` and the last `.`. */
  lemma EmailRejectsEmptyDomain()
    ensures IsValidEmail("a@.co") == Some(Message("email must be valid"))
  {
    var s: GoString := "a@.co";
    FirstIndexIs(s, '@', 1);
    LastIndexIs(s[2..], '.', 0);
  }

  /** The local part must not be empty. */
  lemma EmailRejectsEmptyLocal()
    ensures IsValidEmail("@b.co") == Some(Message("email must be valid"))
  {
    FirstIndexIs("@b.co", '@', 0);
  }

  /** A second `@` is rejected. */
  lemma EmailRejectsSecondAt()
    ensures IsValidEmail("a@b@c.co") == Some(Message("email must be valid"))
  {
    var s: GoString := "a@b@c.co";
    FirstIndexIs(s, '@', 1);
    assert s[2..][1] == '@';
  }

  /** RE2's `$` matches only at the end of the text, so a trailing newline is
      rejected. */
  lemma EmailRejectsTrailingNewline()
    ensures IsValidEmail("a@b.co\n") == Some(Message("email must be valid"))
  {
    var s: GoString := "a@b.co\n";
    FirstIndexIs(s, '@', 1);
    assert s[2..][4] == '\n';
  }

  /** `IsValidPassword`: `nil` exactly when the byte length is between 8 and
      50 inclusive. */
  function IsValidPassword(password: GoString): (r: Option<Error>)
    ensures r.None? <==> 8 <= |password| <= 50
  {
    if password == [] then Some(Message("password must be longer than 0 characters"))
    else if |password| < 8 then Some(Message("password must be at least 8 characters"))
    else if |password| > 50 then Some(Message("password must be less than 50 characters"))
    else None
  }

  /** The error a rejected password gets depends only on its length: empty
      first, then too short, then too long. */
  lemma PasswordErrorOrder(password: GoString)
    ensures |password| == 0 ==>
      IsValidPassword(password) == Some(Message("password must be longer than 0 characters"))
    ensures 1 <= |password| <= 7 ==>
      IsValidPassword(password) == Some(Message("password must be at least 8 characters"))
    ensures |password| >= 51 ==>
      IsValidPassword(password) == Some(Message("password must be less than 50 characters"))
  {
  }
}
