/** The checks the sign-up page makes before it asks Firebase for an
    account: the e-mail domain must be one of a fixed list of well-known
    providers (compared without regard to case), and the password must be
    typed the same way twice. */
module Signup {
  import opened Wrappers
  import opened JsText

  /** `ALLOWED_DOMAINS`. */
  const AllowedDomains: seq<string> := [
    "gmail.com", "yahoo.com", "outlook.com", "hotmail.com", "icloud.com", "live.com", "msn.com",
    "aol.com", "protonmail.com", "zoho.com", "yandex.com", "mail.com", "gmx.com"
  ]

  const At := '@'

  /** `email.split('@')[1]?.toLowerCase()`: the second piece, lower-cased, or
      `undefined` (`None`) when there is no `@`. */
  function DomainOf(email: string): Option<string> {
    var parts := Split(email, At);
    if |parts| >= 2 then Some(Lower(parts[1])) else None
  }

  /** `isValidEmailDomain`: `includes` of `undefined` is false. */
  predicate IsValidEmailDomain(email: string) {
    var d := DomainOf(email);
    d.Some? && d.value in AllowedDomains
  }

  /** The position of the first `c` in `s`. */
  function FirstIndex(s: string, c: char): (i: nat)
    requires c in s
    ensures i < |s| && s[i] == c && c !in s[..i]
  {
    if s[0] == c then 0
    else
      assert c in s[1..] by { var k :| 0 <= k < |s| && s[k] == c; assert s[1..][k - 1] == c; }
      var j := FirstIndex(s[1..], c);
      assert s[..j + 1] == [s[0]] + s[1..][..j];
      j + 1
  }

  /** Reference definition of the domain: the text after the first `@`, up
      to the next `@` or the end, lower-cased. */
  function TextBetweenAts(email: string): Option<string> {
    if At !in email then None
    else
      var rest := email[FirstIndex(email, At) + 1..];
      Some(Lower(if At in rest then rest[..FirstIndex(rest, At)] else rest))
  }

  /** After a first `@`, the domain is the first `@`-piece of the rest. */
  lemma SecondPiece(local: string, rest: string)
    requires At !in local
    ensures DomainOf(local + [At] + rest) == Some(Lower(Split(rest, At)[0]))
  {
    SplitAtFirst(local, rest, At);
  }

  /** The domain of `local@domain` followed by nothing or by a second `@`
      and more text. */
  lemma DomainOfParts(local: string, domain: string, tail: string)
    requires At !in local && At !in domain
    requires tail == [] || tail[0] == At
    ensures DomainOf(local + [At] + domain + tail) == Some(Lower(domain))
  {
    if tail == [] {
      assert local + [At] + domain + tail == local + [At] + domain;
      SecondPiece(local, domain);
      SplitFree(domain, At);
    } else {
      var more := tail[1..];
      assert local + [At] + domain + tail == local + [At] + (domain + [At] + more);
      SecondPiece(local, domain + [At] + more);
      SplitAtFirst(domain, more, At);
    }
  }

  /** The first `@` of `a@rest` is the one after `a` when `a` has none. */
  lemma {:induction false} FirstIndexAfter(a: string, rest: string)
    requires At !in a
    ensures FirstIndex(a + [At] + rest, At) == |a|
  {
    if a != [] {
      var s := a + [At] + rest;
      assert s[0] == a[0] && s[1..] == a[1..] + [At] + rest;
      FirstIndexAfter(a[1..], rest);
    }
  }

  /** The reference definition reads the text after the first `@`. */
  lemma AfterFirstAt(local: string, rest: string)
    requires At !in local
    ensures TextBetweenAts(local + [At] + rest) ==
      Some(Lower(if At in rest then rest[..FirstIndex(rest, At)] else rest))
  {
    var email := local + [At] + rest;
    FirstIndexAfter(local, rest);
    assert email[|local| + 1..] == rest;
  }

  /** The text up to the next `@` is the domain. */
  lemma UpToNextAt(domain: string, tail: string)
    requires At !in domain
    requires tail == [] || tail[0] == At
    ensures var rest := domain + tail;
      (if At in rest then rest[..FirstIndex(rest, At)] else rest) == domain
  {
    var rest := domain + tail;
    if tail == [] {
      assert rest == domain;
    } else {
      assert rest == domain + [At] + tail[1..];
      FirstIndexAfter(domain, tail[1..]);
      assert rest[..|domain|] == domain;
    }
  }

  /** The reference definition reads the same parts. */
  lemma TextBetweenAtsParts(local: string, domain: string, tail: string)
    requires At !in local && At !in domain
    requires tail == [] || tail[0] == At
    ensures TextBetweenAts(local + [At] + domain + tail) == Some(Lower(domain))
  {
    assert local + [At] + domain + tail == local + [At] + (domain + tail);
    AfterFirstAt(local, domain + tail);
    UpToNextAt(domain, tail);
  }

  /** Cuts `s` at its first `c`, if any. */
  lemma CutAt(s: string, c: char) returns (before: string, after: string)
    ensures c !in before
    ensures c in s ==> s == before + [c] + after
    ensures c !in s ==> before == s && after == []
  {
    if c in s {
      var i := FirstIndex(s, c);
      before, after := s[..i], s[i + 1..];
      assert s == s[..i] + [s[i]] + s[i + 1..];
    } else {
      before, after := s, [];
    }
  }

  /** Cuts an address with an `@` at its first and second `@`. */
  lemma Cut(email: string) returns (local: string, domain: string, tail: string)
    requires At in email
    ensures At !in local && At !in domain && (tail == [] || tail[0] == At)
    ensures email == local + [At] + domain + tail
  {
    var rest, more;
    local, rest := CutAt(email, At);
    domain, more := CutAt(rest, At);
    tail := if At in rest then [At] + more else [];
    assert rest == domain + tail;
    assert email == local + [At] + rest;
  }

  /** The split-based domain is the text between the first and the second
      `@`. */
  lemma DomainIsTextBetweenAts(email: string)
    ensures DomainOf(email) == TextBetweenAts(email)
  {
    if At in email {
      var local, domain, tail := Cut(email);
      DomainOfParts(local, domain, tail);
      TextBetweenAtsParts(local, domain, tail);
    }
  }

  /** The domain check holds exactly when the lower-cased text between the
      first and the second `@` is one of the listed domains; anything after
      a second `@` is ignored. */
  lemma ValidIffListed(local: string, domain: string, tail: string)
    requires At !in local && At !in domain
    requires tail == [] || tail[0] == At
    ensures IsValidEmailDomain(local + [At] + domain + tail) <==> Lower(domain) in AllowedDomains
  {
    DomainOfParts(local, domain, tail);
  }

  /** An address without `@` is refused. */
  lemma NoAtRefused(email: string)
    requires At !in email
    ensures !IsValidEmailDomain(email)
  {
  }

  lemma LowerKeepsAt(s: string)
    ensures At in Lower(s) <==> At in s
  {
    LowerLength(s);
    if s != [] {
      LowerKeepsAt(s[1..]);
      assert Lower(s) == [LowerChar(s[0])] + Lower(s[1..]);
      assert s == [s[0]] + s[1..];
    }
  }

  /** Lower-casing an address lower-cases each of its parts. */
  lemma LowerParts(local: string, domain: string, tail: string)
    ensures Lower(local + [At] + domain + tail) == Lower(local) + [At] + Lower(domain) + Lower(tail)
  {
    LowerAppend(local + [At] + domain, tail);
    LowerAppend(local + [At], domain);
    LowerAppend(local, [At]);
    assert Lower([At]) == [At];
  }

  /** A tail that starts at an `@` still does after lower-casing. */
  lemma LowerTail(tail: string)
    requires tail == [] || tail[0] == At
    ensures Lower(tail) == [] || Lower(tail)[0] == At
  {
  }

  /** The check ignores case: an address and its lower-cased form are
      accepted or refused together. */
  lemma CaseInsensitive(email: string)
    ensures IsValidEmailDomain(Lower(email)) <==> IsValidEmailDomain(email)
  {
    LowerKeepsAt(email);
    if At in email {
      var local, domain, tail := Cut(email);
      DomainOfParts(local, domain, tail);
      LowerParts(local, domain, tail);
      LowerKeepsAt(local);
      LowerKeepsAt(domain);
      LowerTail(tail);
      DomainOfParts(Lower(local), Lower(domain), Lower(tail));
      LowerIdempotent(domain);
    }
  }

  /** The outcome of pressing "sign up". */
  datatype SignupOutcome = DomainRejected | PasswordMismatch | CreateAccount

  /** `handleSignup` before it calls Firebase: the domain first, then the
      password confirmation. */
  function SignupCheck(email: string, password: string, confirmPassword: string): SignupOutcome {
    if !IsValidEmailDomain(email) then DomainRejected
    else if password != confirmPassword then PasswordMismatch
    else CreateAccount
  }

  /** An account is asked for exactly when both checks pass, and a refused
      domain is reported whatever the passwords are. */
  lemma AccountOnlyWhenBothChecksPass(email: string, password: string, confirmPassword: string)
    ensures SignupCheck(email, password, confirmPassword) == CreateAccount <==>
      IsValidEmailDomain(email) && password == confirmPassword
    ensures !IsValidEmailDomain(email) ==> SignupCheck(email, password, confirmPassword) == DomainRejected
    ensures SignupCheck(email, password, confirmPassword) == PasswordMismatch <==>
      IsValidEmailDomain(email) && password != confirmPassword
  {
  }
}
