/**
 * The string validators of the scraping utilities: the filename sanitiser
 * and the e-mail format check (utils/validators.py).
 * Strings are sequences of Unicode scalar values, as Python `str` indexes
 * code points.
 */
module Validators {

  // ---------------------------------------------------------------------
  // sanitize_filename
  // ---------------------------------------------------------------------

  /** The nine characters of the class [<>:"/\\|?*] that are deleted. */
  predicate IsInvalidFilenameChar(c: char)
  {
    c == '<' || c == '>' || c == ':' || c == '"' || c == '/' ||
    c == '\\' || c == '|' || c == '?' || c == '*'
  }

  /** The length the sanitised name is cut to. */
  const MaxFilenameLength: nat := 255

  /** Step 1: delete every invalid character (a substitution by ""). */
  function RemoveInvalidChars(s: string): (r: string)
    ensures |r| <= |s|
    ensures forall i :: 0 <= i < |r| ==> !IsInvalidFilenameChar(r[i])
    ensures forall i :: 0 <= i < |r| ==> r[i] in s
  {
    if s == [] then []
    else if IsInvalidFilenameChar(s[0]) then RemoveInvalidChars(s[1..])
    else [s[0]] + RemoveInvalidChars(s[1..])
  }

  /** Step 2: replace every space by an underscore. */
  function SpacesToUnderscores(s: string): (r: string)
    ensures |r| == |s|
    ensures forall i :: 0 <= i < |s| ==> r[i] == (if s[i] == ' ' then '_' else s[i])
  {
    if s == [] then []
    else [if s[0] == ' ' then '_' else s[0]] + SpacesToUnderscores(s[1..])
  }

  /** The name after steps 1 and 2, before it is cut to length. */
  function Cleaned(s: string): (r: string)
    ensures |r| <= |s|
    ensures forall i :: 0 <= i < |r| ==> !IsInvalidFilenameChar(r[i]) && r[i] != ' '
  {
    SpacesToUnderscores(RemoveInvalidChars(s))
  }

  /** sanitize_filename: steps 1 and 2, then keep at most the first 255 characters. */
  function SanitizeFilename(filename: string): (r: string)
    ensures |r| <= MaxFilenameLength
    ensures forall i :: 0 <= i < |r| ==> !IsInvalidFilenameChar(r[i])
    ensures forall i :: 0 <= i < |r| ==> r[i] != ' '
    ensures r <= Cleaned(filename)
    ensures |r| == if |Cleaned(filename)| <= MaxFilenameLength then |Cleaned(filename)| else MaxFilenameLength
  {
    var t := Cleaned(filename);
    if |t| <= MaxFilenameLength then t else t[..MaxFilenameLength]
  }

  /** Deleting distributes over concatenation, so kept characters keep their order. */
  lemma {:induction false} RemoveInvalidCharsAppend(a: string, b: string)
    ensures RemoveInvalidChars(a + b) == RemoveInvalidChars(a) + RemoveInvalidChars(b)
  {
    if a == [] {
      assert a + b == b;
    } else {
      assert (a + b)[1..] == a[1..] + b;
      RemoveInvalidCharsAppend(a[1..], b);
    }
  }

  /** A name without invalid characters is left as it is by step 1. */
  lemma {:induction false} RemoveInvalidCharsIdentity(s: string)
    requires forall i :: 0 <= i < |s| ==> !IsInvalidFilenameChar(s[i])
    ensures RemoveInvalidChars(s) == s
  {
    if s != [] {
      RemoveInvalidCharsIdentity(s[1..]);
      assert s == [s[0]] + s[1..];
    }
  }

  /** Replacing spaces distributes over concatenation. */
  lemma SpacesToUnderscoresAppend(a: string, b: string)
    ensures SpacesToUnderscores(a + b) == SpacesToUnderscores(a) + SpacesToUnderscores(b)
  {
    var l, r := SpacesToUnderscores(a + b), SpacesToUnderscores(a) + SpacesToUnderscores(b);
    assert |l| == |r|;
    forall i | 0 <= i < |l| ensures l[i] == r[i] {
      if i < |a| {
        assert (a + b)[i] == a[i];
      } else {
        assert (a + b)[i] == b[i - |a|];
      }
    }
  }

  /**
   * The cleaned name of a concatenation is the concatenation of the cleaned
   * names: together with CleanedChar this fixes Cleaned on every input.
   */
  lemma CleanedAppend(a: string, b: string)
    ensures Cleaned(a + b) == Cleaned(a) + Cleaned(b)
  {
    RemoveInvalidCharsAppend(a, b);
    SpacesToUnderscoresAppend(RemoveInvalidChars(a), RemoveInvalidChars(b));
  }

  /** What happens to one character: deleted, turned into '_', or kept. */
  lemma CleanedChar(c: char)
    ensures Cleaned([c]) == if IsInvalidFilenameChar(c) then [] else if c == ' ' then ['_'] else [c]
  {
    assert [c][1..] == [];
  }

  /**
   * No other character changes: a character other than the nine, ' ' and
   * '_' occurs in the cleaned name exactly as often as in the input; the
   * underscores are the input's underscores and spaces together.
   */
  lemma {:induction false} CleanedCounts(s: string, c: char)
    ensures multiset(Cleaned(s))[c] ==
      if IsInvalidFilenameChar(c) || c == ' ' then 0
      else if c == '_' then multiset(s)['_'] + multiset(s)[' ']
      else multiset(s)[c]
  {
    if s != [] {
      var a, b := [s[0]], s[1..];
      assert s == a + b;
      CleanedAppend(a, b);
      assert multiset(Cleaned(s)) == multiset(Cleaned(a)) + multiset(Cleaned(b));
      assert multiset(s) == multiset(a) + multiset(b);
      CleanedCharCounts(s[0], c);
      CleanedCounts(b, c);
    }
  }

  lemma CleanedCharCounts(x: char, c: char)
    ensures multiset(Cleaned([x]))[c] ==
      if IsInvalidFilenameChar(c) || c == ' ' then 0
      else if c == '_' then multiset([x])['_'] + multiset([x])[' ']
      else multiset([x])[c]
  {
    CleanedChar(x);
  }

  /** sanitize_filename is idempotent. */
  lemma SanitizeFilenameIdempotent(filename: string)
    ensures SanitizeFilename(SanitizeFilename(filename)) == SanitizeFilename(filename)
  {
    var r := SanitizeFilename(filename);
    RemoveInvalidCharsIdentity(r);
    assert SpacesToUnderscores(r) == r;
  }

  // ---------------------------------------------------------------------
  // is_valid_email: ^[a-zA-Z0-9._%+-]+@[a-zA-Z0-9.-]+\.[a-zA-Z]{2,}$
  // ---------------------------------------------------------------------

  predicate IsAsciiLetter(c: char)
  {
    'a' <= c <= 'z' || 'A' <= c <= 'Z'
  }

  predicate IsAsciiDigit(c: char)
  {
    '0' <= c <= '9'
  }

  /** The class [a-zA-Z0-9._%+-] of the local part. */
  predicate IsLocalChar(c: char)
  {
    IsAsciiLetter(c) || IsAsciiDigit(c) || c == '.' || c == '_' || c == '%' || c == '+' || c == '-'
  }

  /** The class [a-zA-Z0-9.-] of the domain part. */
  predicate IsDomainChar(c: char)
  {
    IsAsciiLetter(c) || IsAsciiDigit(c) || c == '.' || c == '-'
  }

  /** [a-zA-Z0-9._%+-]+ matches all of s. */
  predicate LocalRun(s: string)
  {
    |s| >= 1 && forall i :: 0 <= i < |s| ==> IsLocalChar(s[i])
  }

  /** [a-zA-Z0-9.-]+ matches all of s. */
  predicate DomainRun(s: string)
  {
    |s| >= 1 && forall i :: 0 <= i < |s| ==> IsDomainChar(s[i])
  }

  /** [a-zA-Z]{2,} matches all of s. */
  predicate TldRun(s: string)
  {
    |s| >= 2 && forall i :: 0 <= i < |s| ==> IsAsciiLetter(s[i])
  }

  /**
   * The pattern between ^ and $ matches all of s: s splits at some '@' and
   * some later '.' into a local run, a domain run and a top-level run.
   */
  predicate MatchesEmailBody(s: string)
  {
    exists at, dot | 0 <= at < dot < |s| :: SplitsAt(s, at, dot)
  }

  /** s[at] is the '@' and s[dot] the '.' of a match of the pattern body. */
  predicate SplitsAt(s: string, at: nat, dot: nat)
    requires at < dot < |s|
  {
    s[at] == '@' && s[dot] == '.' &&
    LocalRun(s[..at]) && DomainRun(s[at + 1..dot]) && TldRun(s[dot + 1..])
  }

  /**
   * What re.match accepts: the match is anchored at the start by ^, and $
   * matches at the very end or just before one final '\n'.
   */
  predicate MatchesEmailPattern(s: string)
  {
    MatchesEmailBody(s) || (|s| >= 1 && s[|s| - 1] == '\n' && MatchesEmailBody(s[..|s| - 1]))
  }

  /** The index of the first c in s, or |s| if there is none. */
  function IndexOf(s: string, c: char): (i: nat)
    ensures i <= |s|
    ensures i < |s| ==> s[i] == c
    ensures forall k :: 0 <= k < i ==> s[k] != c
  {
    if s == [] then 0
    else if s[0] == c then 0
    else 1 + IndexOf(s[1..], c)
  }

  /** The index of the last c in s, or -1 if there is none. */
  function LastIndexOf(s: string, c: char): (i: int)
    ensures -1 <= i < |s|
    ensures i >= 0 ==> s[i] == c
    ensures forall k :: i < k < |s| ==> s[k] != c
  {
    if s == [] then -1
    else if s[|s| - 1] == c then |s| - 1
    else LastIndexOf(s[..|s| - 1], c)
  }

  /** The string the pattern body must match: s without one final '\n'. */
  function EmailBody(email: string): string
  {
    if |email| >= 1 && email[|email| - 1] == '\n' then email[..|email| - 1] else email
  }

  /**
   * Deterministic matching of the body: the local run cannot hold '@', so
   * the split is at the first '@'; the top-level run cannot hold '.', so
   * the split is at the last '.'.
   */
  function ScanEmailBody(s: string): bool
  {
    var at := IndexOf(s, '@');
    at < |s| && LocalRun(s[..at]) &&
    var dot := LastIndexOf(s, '.');
    at + 1 < dot && DomainRun(s[at + 1..dot]) && TldRun(s[dot + 1..])
  }

  lemma ScanEmailBodyCorrect(s: string)
    ensures ScanEmailBody(s) <==> MatchesEmailBody(s)
  {
    if ScanEmailBody(s) {
      var at, dot := IndexOf(s, '@'), LastIndexOf(s, '.');
      assert SplitsAt(s, at, dot);
    }
    if MatchesEmailBody(s) {
      var at, dot :| 0 <= at < dot < |s| && SplitsAt(s, at, dot);
      FirstAt(s, at);
      LastDot(s, dot);
    }
  }

  lemma FirstAt(s: string, at: int)
    requires 0 <= at < |s| && s[at] == '@' && LocalRun(s[..at])
    ensures IndexOf(s, '@') == at
  {
    forall k | 0 <= k < at ensures s[k] != '@' {
      assert s[..at][k] == s[k];
    }
  }

  lemma LastDot(s: string, dot: int)
    requires 0 <= dot < |s| && s[dot] == '.' && TldRun(s[dot + 1..])
    ensures LastIndexOf(s, '.') == dot
  {
    forall k | dot < k < |s| ensures s[k] != '.' {
      assert s[dot + 1..][k - dot - 1] == s[k];
    }
  }

  /** is_valid_email, as a scan of the body (see IsValidEmailCorrect). */
  function IsValidEmail(email: string): (valid: bool)
    ensures valid ==> 6 <= |email| && '@' in email && '.' in email
  {
    ScanEmailBody(EmailBody(email))
  }

  /** is_valid_email accepts exactly the strings re.match accepts with the pattern. */
  lemma IsValidEmailCorrect(email: string)
    ensures IsValidEmail(email) <==> MatchesEmailPattern(email)
  {
    ScanEmailBodyCorrect(EmailBody(email));
    BodyEndsInLetter(email);
  }

  /** A body match ends in a letter of the top-level run, so never in '\n'. */
  lemma BodyEndsInLetter(s: string)
    ensures MatchesEmailBody(s) ==> |s| >= 1 && IsAsciiLetter(s[|s| - 1])
  {
    if MatchesEmailBody(s) {
      var at, dot :| 0 <= at < dot < |s| && SplitsAt(s, at, dot);
      assert s[dot + 1..][|s| - dot - 2] == s[|s| - 1];
    }
  }

  /** A valid address is its body, or its body followed by one '\n'. */
  lemma EmailBodyPrefix(email: string)
    ensures var body := EmailBody(email);
      email == body || (email == body + ['\n'] && email[|email| - 1] == '\n')
  {
  }

  /** A valid address holds exactly one '@'. */
  lemma ValidEmailOneAt(email: string)
    requires IsValidEmail(email)
    ensures multiset(email)['@'] == 1
  {
    var body := EmailBody(email);
    EmailBodyPrefix(email);
    ScanOneAt(body);
    assert email != body ==> multiset(email) == multiset(body) + multiset{'\n'};
  }

  /** Before the '@' is a nonempty local part over [a-zA-Z0-9._%+-]. */
  lemma ValidEmailLocalPart(email: string)
    requires IsValidEmail(email)
    ensures var at := IndexOf(email, '@');
      0 < at < |email| && LocalRun(email[..at])
  {
    var body := EmailBody(email);
    EmailBodyPrefix(email);
    var at := IndexOf(body, '@');
    assert email[..at] == body[..at];
    FirstAt(email, at);
  }

  /** The domain and top-level parts of a valid address, as found by the last '.'. */
  predicate DomainPartAt(email: string)
  {
    var at, dot := IndexOf(email, '@'), LastIndexOf(email, '.');
    && at + 1 < dot < |EmailBody(email)|
    && DomainRun(email[at + 1..dot])
    && TldRun(EmailBody(email)[dot + 1..])
  }

  /**
   * Between the '@' and the last '.' is a nonempty domain part over
   * [a-zA-Z0-9.-]; after the last '.' come at least two ASCII letters,
   * then the end of the string or one final '\n'.
   */
  lemma ValidEmailDomainPart(email: string)
    requires IsValidEmail(email)
    ensures DomainPartAt(email)
  {
    if |email| >= 1 && email[|email| - 1] == '\n' {
      DomainPartBeforeNewline(email);
    } else {
      DomainPartAtEnd(email);
    }
  }

  lemma DomainPartAtEnd(email: string)
    requires !(|email| >= 1 && email[|email| - 1] == '\n') && ScanEmailBody(email)
    ensures DomainPartAt(email)
  {
  }

  lemma DomainPartBeforeNewline(email: string)
    requires |email| >= 1 && email[|email| - 1] == '\n' && ScanEmailBody(email[..|email| - 1])
    ensures DomainPartAt(email)
  {
    var body := email[..|email| - 1];
    var at, dot := IndexOf(body, '@'), LastIndexOf(body, '.');
    assert email[..at] == body[..at];
    FirstAt(email, at);
    assert LastIndexOf(email, '.') == dot;
    assert email[at + 1..dot] == body[at + 1..dot];
  }

  /** A scanned body holds exactly one '@'. */
  lemma ScanOneAt(body: string)
    requires ScanEmailBody(body)
    ensures multiset(body)['@'] == 1
  {
    var at, dot := IndexOf(body, '@'), LastIndexOf(body, '.');
    var local, domain, tld := body[..at], body[at + 1..dot], body[dot + 1..];
    assert body == local + ['@'] + domain + ['.'] + tld;
    assert '@' !in local by {
      forall k | 0 <= k < |local| ensures local[k] != '@' { assert IsLocalChar(local[k]); }
    }
    assert '@' !in domain by {
      forall k | 0 <= k < |domain| ensures domain[k] != '@' { assert IsDomainChar(domain[k]); }
    }
    assert '@' !in tld by {
      forall k | 0 <= k < |tld| ensures tld[k] != '@' { assert IsAsciiLetter(tld[k]); }
    }
  }

  /**
   * The $ quirk: the pattern plus one final '\n' is accepted, and that is
   * the only strings ending in '\n' that are; two final '\n' never are.
   */
  lemma TrailingNewline(s: string)
    ensures IsValidEmail(s + "\n") <==> MatchesEmailBody(s)
    ensures !IsValidEmail(s + "\n\n")
  {
    IsValidEmailCorrect(s + "\n");
    IsValidEmailCorrect(s + "\n\n");
    BodyEndsInLetter(s + "\n");
    BodyEndsInLetter(s + "\n\n");
    assert (s + "\n")[..|s|] == s;
    assert (s + "\n\n")[..|s| + 1] == s + "\n";
  }

  /** Nothing but one '\n' may follow the top-level run, which ends in a letter. */
  lemma ValidEmailEnd(email: string)
    requires IsValidEmail(email)
    ensures IsAsciiLetter(email[|email| - 1]) ||
            (|email| >= 2 && email[|email| - 1] == '\n' && IsAsciiLetter(email[|email| - 2]))
  {
    IsValidEmailCorrect(email);
    BodyEndsInLetter(email);
    if |email| >= 1 && email[|email| - 1] == '\n' {
      BodyEndsInLetter(email[..|email| - 1]);
    }
  }

  /** Conversely, every local run, '@', domain run, '.', top-level run is accepted, with or without a final '\n'. */
  lemma EmailFromParts(local: string, domain: string, tld: string)
    requires LocalRun(local) && DomainRun(domain) && TldRun(tld)
    ensures IsValidEmail(local + "@" + domain + "." + tld)
    ensures IsValidEmail(local + "@" + domain + "." + tld + "\n")
  {
    var e := local + "@" + domain + "." + tld;
    var at, dot := |local|, |local| + 1 + |domain|;
    assert e[..at] == local && e[at + 1..dot] == domain && e[dot + 1..] == tld;
    assert SplitsAt(e, at, dot);
    IsValidEmailCorrect(e);
    TrailingNewline(e);
  }
}
