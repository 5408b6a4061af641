/** The account matching policy: which pairs of accounts may be merged, and why. */
module Matching {
  import opened Wrappers
  import opened Text

  datatype Link = Link(provider: string, subject: string, userName: Option<string>)

  datatype Account = Account(email: Option<string>, emailVerified: bool, active: bool)

  datatype Reason = ExactIdpSubject | VerifiedEmail | ExplicitLink | NoMatch

  /** Unicode lower-casing is a parameter; all that matters of it is that it
      neither erases nor invents text. */
  ghost predicate LowerOk(lower: string -> string) {
    forall x :: lower(x) == "" <==> x == ""
  }

  /** A comparable email, or none for blank input. */
  function NormalizeEmail(lower: string -> string, email: Option<string>): Option<string> {
    if email.None? || email.value == "" then None
    else
      var t := lower(Strip(email.value));
      if t == "" then None else Some(t)
  }

  function Pairs(links: seq<Link>): set<(string, string)> {
    set l | l in links :: (l.provider, l.subject)
  }

  function SharedSubject(a: seq<Link>, b: seq<Link>): Option<Link> {
    if a == [] then None
    else if (a[0].provider, a[0].subject) in Pairs(b) then Some(a[0])
    else SharedSubject(a[1..], b)
  }

  predicate MatchingVerifiedEmail(lower: string -> string, a: Account, b: Account) {
    var x, y := NormalizeEmail(lower, a.email), NormalizeEmail(lower, b.email);
    x.Some? && y.Some? && x == y && a.emailVerified && b.emailVerified
  }

  function Decide(lower: string -> string, s: Account, sLinks: seq<Link>, d: Account, dLinks: seq<Link>,
                  explicit: bool): Reason {
    if SharedSubject(sLinks, dLinks).Some? then ExactIdpSubject
    else if MatchingVerifiedEmail(lower, s, d) then VerifiedEmail
    else if explicit then ExplicitLink
    else NoMatch
  }

  function OrEmpty(email: Option<string>): string {
    if email.Some? then email.value else ""
  }

  /** The guard that runs whatever the decision: an address shared but not
      verified on both sides never carries a merge by itself. */
  predicate SharesUnverifiedEmail(lower: string -> string, s: Account, d: Account) {
    && Strip(OrEmpty(s.email)) != ""
    && lower(Strip(OrEmpty(s.email))) == lower(Strip(OrEmpty(d.email)))
    && !MatchingVerifiedEmail(lower, s, d)
  }

  datatype Verdict = Allowed(reason: Reason) | RefusedUnverifiedEmail | RefusedNoMatch

  function Judge(lower: string -> string, s: Account, sLinks: seq<Link>, d: Account, dLinks: seq<Link>,
                 explicit: bool): Verdict {
    var reason := Decide(lower, s, sLinks, d, dLinks, explicit);
    if SharesUnverifiedEmail(lower, s, d) && reason != ExactIdpSubject && reason != VerifiedEmail then
        RefusedUnverifiedEmail
    else if reason == NoMatch then RefusedNoMatch
    else Allowed(reason)
  }

  // ---- What the policy means ----

  /** Both accounts hold a link for the same subject at the same provider. */
  ghost predicate ShareSubject(a: seq<Link>, b: seq<Link>) {
    exists x, y :: x in a && y in b && x.provider == y.provider && x.subject == y.subject
  }

  lemma {:induction false} SharedSubjectFindsAny(a: seq<Link>, b: seq<Link>)
    ensures SharedSubject(a, b).Some? <==> ShareSubject(a, b)
  {
    if a != [] {
      SharedSubjectFindsAny(a[1..], b);
      assert a == [a[0]] + a[1..];
      if (a[0].provider, a[0].subject) in Pairs(b) {
        var y :| y in b && (y.provider, y.subject) == (a[0].provider, a[0].subject);
        assert a[0] in a;
      }
      if ShareSubject(a, b) {
        var x, y :| x in a && y in b && x.provider == y.provider && x.subject == y.subject;
        assert (y.provider, y.subject) in Pairs(b);
        assert x == a[0] || x in a[1..];
      }
      if ShareSubject(a[1..], b) {
        var x, y :| x in a[1..] && y in b && x.provider == y.provider && x.subject == y.subject;
        assert x in a;
      }
    }
  }

  ghost predicate SameKnownEmail(lower: string -> string, a: Account, b: Account) {
    NormalizeEmail(lower, a.email).Some? && NormalizeEmail(lower, a.email) == NormalizeEmail(lower, b.email)
  }

  /** A merge is allowed exactly when the accounts share an identity-provider
      subject, or share an email verified on both sides, or an operator links
      two accounts that do not share an email at all. */
  lemma AllowedExactlyWhen(lower: string -> string, s: Account, sLinks: seq<Link>, d: Account, dLinks: seq<Link>,
                           explicit: bool)
    requires LowerOk(lower)
    ensures Judge(lower, s, sLinks, d, dLinks, explicit).Allowed? <==>
              || ShareSubject(sLinks, dLinks)
              || (SameKnownEmail(lower, s, d) && s.emailVerified && d.emailVerified)
              || (explicit && !SameKnownEmail(lower, s, d))
  {
    SharedSubjectFindsAny(sLinks, dLinks);
    assert Strip("") == "";
  }

  /** Swapping the accounts changes neither the verdict nor its reason. */
  lemma VerdictIsSymmetric(lower: string -> string, s: Account, sLinks: seq<Link>, d: Account, dLinks: seq<Link>,
                           explicit: bool)
    requires LowerOk(lower)
    ensures Judge(lower, s, sLinks, d, dLinks, explicit) == Judge(lower, d, dLinks, s, sLinks, explicit)
  {
    SharedSubjectFindsAny(sLinks, dLinks);
    SharedSubjectFindsAny(dLinks, sLinks);
    assert Strip("") == "";
  }

  /** What an address means to the policy: the text between the surrounding spaces,
      in lower case; a blank one means nothing. */
  lemma EmailMeansItsCore(lower: string -> string, before: string, core: string, after: string)
    requires LowerOk(lower) && AllSpace(before) && AllSpace(after) && Trimmed(core)
    ensures NormalizeEmail(lower, Some(before + core + after)) == if core == "" then None else Some(lower(core))
  {
    StripFinds(before, core, after);
  }

  /** The reason of an allowed merge is the strongest ground there is. */
  lemma ReasonIsTheStrongest(lower: string -> string, s: Account, sLinks: seq<Link>, d: Account, dLinks: seq<Link>,
                             explicit: bool)
    requires LowerOk(lower) && Judge(lower, s, sLinks, d, dLinks, explicit).Allowed?
    ensures Judge(lower, s, sLinks, d, dLinks, explicit).reason ==
            if ShareSubject(sLinks, dLinks) then ExactIdpSubject
            else if SameKnownEmail(lower, s, d) then VerifiedEmail else ExplicitLink
  {
    SharedSubjectFindsAny(sLinks, dLinks);
    AllowedExactlyWhen(lower, s, sLinks, d, dLinks, explicit);
  }
}
