/** The filter policy `clean_email_list` applies to candidate addresses
    (common_helpers.py): banned domains, over-long local parts, all-digit local parts
    and hex-token local parts are dropped; survivors keep their spelling and order. */
module EmailFilter {
  import opened Text
  import opened Sequences

  /** Domains whose addresses are tracking noise; matched exactly, after lower-casing. */
  const BANNED_DOMAINS: seq<string> := [
    "sentry.io",
    "wixpress.com",
    "sentry.wixpress.com",
    "sentry-next.wixpress.com",
    "oyorooms.com"
  ]

  /** Local parts longer than this are dropped. */
  const MAX_LOCAL_LENGTH := 25

  /** Local parts of at least this many lower-case hex digits are dropped. */
  const MIN_HEX_TOKEN_LENGTH := 20

  /** The lower-cased text before the first `@` (all of it when there is no `@`). */
  function LocalPart(email: string): string {
    Partition(Lower(email), '@').0
  }

  /** The lower-cased text after the first `@` (empty when there is no `@`). */
  function DomainPart(email: string): string {
    Partition(Lower(email), '@').1
  }

  /** For an address written `l@d` with no `@` in `l`, the tests see `l` and `d`
      lower-cased. */
  lemma PartsOf(l: string, d: string)
    requires '@' !in l
    ensures LocalPart(l + "@" + d) == Lower(l)
    ensures DomainPart(l + "@" + d) == Lower(d)
  {
    var ll, ld := Lower(l), Lower(d);
    LowerAround(l, "@", d);
    LowerKeepsAbsent(l, '@');
    IndexOfAfter(ll, '@', ld);
    var s := ll + ['@'] + ld;
    assert s[..|ll|] == ll;
    assert s[|ll| + 1..] == ld;
  }

  predicate IsHexDigit(c: char) {
    ('0' <= c <= '9') || ('a' <= c <= 'f')
  }

  /** `re.fullmatch(r"[a-f0-9]{20,}", local)` succeeds. */
  predicate IsHexToken(local: string) {
    |local| >= MIN_HEX_TOKEN_LENGTH && forall i :: 0 <= i < |local| ==> IsHexDigit(local[i])
  }

  /** One address survives the filter: none of the four `continue` tests fires. */
  predicate Keep(email: string) {
    var local := LocalPart(email);
    var domain := DomainPart(email);
    && domain !in BANNED_DOMAINS
    && !(|local| > MAX_LOCAL_LENGTH)
    && !IsDigits(local)
    && !IsHexToken(local)
  }

  /** The survivors of `emails`, in input order and in their original spelling. */
  function Clean(emails: seq<string>): seq<string> {
    Filter(emails, Keep)
  }

  /** `clean_email_list`: the loop that appends each surviving address to `cleaned`. */
  method CleanEmailList(emails: seq<string>) returns (cleaned: seq<string>)
    ensures cleaned == Clean(emails)
  {
    cleaned := [];
    for i := 0 to |emails|
      invariant cleaned == Clean(emails[..i])
    {
      var email := emails[i];
      assert emails[..i + 1][..i] == emails[..i];
      var (local, domain) := Partition(Lower(email), '@');
      if domain in BANNED_DOMAINS {
        continue;
      }
      if |local| > MAX_LOCAL_LENGTH {
        continue;
      }
      if IsDigits(local) {
        continue;
      }
      if IsHexToken(local) {
        continue;
      }
      cleaned := cleaned + [email];
    }
    assert emails[..|emails|] == emails;
  }

  /** An address is kept exactly when it occurs in the input and passes all four tests:
      its lower-cased domain is not banned, and its lower-cased local part is at most 25
      characters, not all digits and not a 20-or-more-character hex token. */
  lemma CleanMembership(emails: seq<string>, e: string)
    ensures e in Clean(emails) <==>
      && e in emails
      && DomainPart(e) !in BANNED_DOMAINS
      && |LocalPart(e)| <= MAX_LOCAL_LENGTH
      && !IsDigits(LocalPart(e))
      && !IsHexToken(LocalPart(e))
  {
    FilterMembership(emails, Keep, e);
  }

  /** The output is a subsequence of the input: the kept addresses appear unchanged and in
      input order. */
  lemma CleanIsSubsequence(emails: seq<string>)
    ensures IsSubsequence(Clean(emails), emails)
  {
    FilterIsSubsequence(emails, Keep);
  }

  /** Filtering distributes over concatenation: each address is judged on its own. */
  lemma CleanAppend(a: seq<string>, b: seq<string>)
    ensures Clean(a + b) == Clean(a) + Clean(b)
  {
    FilterAppend(a, b, Keep);
  }

  /** Filtering twice is filtering once. */
  lemma CleanIdempotent(emails: seq<string>)
    ensures Clean(Clean(emails)) == Clean(emails)
  {
    FilterIdempotent(emails, Keep);
  }

  /** Filtering a duplicate-free list leaves it duplicate-free. */
  lemma CleanKeepsNoDup(emails: seq<string>)
    requires NoDup(emails)
    ensures NoDup(Clean(emails))
  {
    FilterKeepsNoDup(emails, Keep);
  }

  /** A list none of whose addresses is kept filters to nothing. */
  lemma CleanNone(emails: seq<string>)
    requires forall k :: 0 <= k < |emails| ==> !Keep(emails[k])
    ensures Clean(emails) == []
  {
    FilterNone(emails, Keep);
  }

  /** The two halves the tests see for `l@d` written as a literal. */
  lemma LiteralParts(e: string, l: string, d: string)
    requires e == l + "@" + d && '@' !in l
    requires forall i :: 0 <= i < |e| ==> !('A' <= e[i] <= 'Z')
    ensures LocalPart(e) == l && DomainPart(e) == d
  {
    PartsOf(l, d);
    LowerOfLowerCase(l);
    LowerOfLowerCase(d);
  }

  /** The domain test is an exact comparison: a subdomain of a banned domain is kept. */
  lemma SubdomainOfBannedIsKept()
    ensures Keep("info@mail.wixpress.com")
  {
    assert "mail.wixpress.com" !in BANNED_DOMAINS;
    assert !IsAsciiDigit("info"[0]);
    LiteralParts("info@mail.wixpress.com", "info", "mail.wixpress.com");
  }

  lemma BannedDomainIsDropped()
    ensures !Keep("info@wixpress.com")
  {
    LiteralParts("info@wixpress.com", "info", "wixpress.com");
  }

  /** An empty local part is not "all digits" (`"".isdigit()` is false), so it passes. */
  lemma EmptyLocalPartIsKept()
    ensures Keep("@example.com")
  {
    assert "example.com" !in BANNED_DOMAINS;
    LiteralParts("@example.com", "", "example.com");
  }

  /** The tests ignore case, but a kept address is returned as written. */
  lemma KeptSpellingUnchanged()
    ensures Clean(["Sales@Example.COM", "1234567890123456789012@tracking.com"]) == ["Sales@Example.COM"]
  {
    var kept, dropped := "Sales@Example.COM", "1234567890123456789012@tracking.com";
    MixedCaseIsKept();
    AllDigitLocalIsDropped();
    FilterSingleton(kept, Keep);
    FilterSingleton(dropped, Keep);
    CleanAppend([kept], [dropped]);
    assert [kept] + [dropped] == [kept, dropped];
  }

  lemma MixedCaseIsKept()
    ensures Keep("Sales@Example.COM")
  {
    assert "example.com" !in BANNED_DOMAINS;
    assert !IsAsciiDigit("sales"[0]);
    assert Lower("Sales") == "sales";
    assert Lower("Example.COM") == "example.com";
    assert "Sales@Example.COM" == "Sales" + "@" + "Example.COM";
    PartsOf("Sales", "Example.COM");
  }

  lemma AllDigitLocalIsDropped()
    ensures !Keep("1234567890123456789012@tracking.com")
  {
    assert IsDigits("1234567890123456789012");
    LiteralParts("1234567890123456789012@tracking.com", "1234567890123456789012", "tracking.com");
  }
}
