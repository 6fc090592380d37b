// The dream-company check (src/lib/dreamCompanyPolicy.ts).
module DreamCompanyCheck {
  import opened Types

  /** ASCII lower-casing of one character. */
  function LowerChar(c: char): char {
    if 'A' <= c <= 'Z' then (c as int + 32) as char else c
  }

  /** ASCII upper-casing of one character. */
  function UpperChar(c: char): char {
    if 'a' <= c <= 'z' then (c as int - 32) as char else c
  }

  /** String lower-casing, character by character: same length, each
      character lower-cased in place. */
  function ToLower(s: string): (r: string)
    ensures |r| == |s|
    ensures forall i :: 0 <= i < |s| ==> r[i] == LowerChar(s[i])
  {
    if s == [] then [] else [LowerChar(s[0])] + ToLower(s[1..])
  }

  /** String upper-casing, character by character. */
  function ToUpper(s: string): string {
    if s == [] then [] else [UpperChar(s[0])] + ToUpper(s[1..])
  }

  /** Lower-casing twice is lower-casing once. */
  lemma {:induction false} ToLowerIdempotent(s: string)
    ensures ToLower(ToLower(s)) == ToLower(s)
  {
    if s != [] {
      ToLowerIdempotent(s[1..]);
      assert ToLower(s)[1..] == ToLower(s[1..]);
    }
  }

  /** A name written in capitals lower-cases to the same string as the name. */
  lemma {:induction false} ToLowerOfUpper(s: string)
    ensures ToLower(ToUpper(s)) == ToLower(s)
  {
    if s != [] {
      ToLowerOfUpper(s[1..]);
      assert ToUpper(s)[1..] == ToUpper(s[1..]);
    }
  }

  /** The check: eligible when disabled, otherwise eligible exactly when the
      student's dream company and the company name agree up to case.
      Every branch gives exactly one reason. */
  function CheckDreamCompanyPolicy(student: Student, company: Company, policy: DreamCompanyPolicy): (r: PolicyResult)
    ensures |r.reasons| == 1
    ensures !policy.enabled ==> r == PolicyResult(true, [DreamCompanyDisabled])
    ensures policy.enabled ==> (r.eligible <==> ToLower(student.dreamCompanyName) == ToLower(company.name))
    ensures r.reasons[0] != EligibleByDefault
  {
    if !policy.enabled then
      PolicyResult(true, [DreamCompanyDisabled])
    else
      var eligible := ToLower(student.dreamCompanyName) == ToLower(company.name);
      PolicyResult(eligible,
        if eligible then [DreamCompanyMatch(student.dreamCompanyName, company.name)]
        else [DreamCompanyMismatch(student.dreamCompanyName, company.name)])
  }

  /** A student whose dream company is the company's name written in
      capitals (or in any case that lower-cases to the same string) passes. */
  lemma DreamCompanyIgnoresCase(student: Student, company: Company, policy: DreamCompanyPolicy)
    requires student.dreamCompanyName == ToUpper(company.name)
    ensures CheckDreamCompanyPolicy(student, company, policy).eligible
  {
    ToLowerOfUpper(company.name);
  }

  /** The verdict depends only on the enabled flag and the two names: salary,
      CGPA and placement status play no part. */
  lemma DreamCompanyDependsOnlyOnNames(s: Student, t: Student, c: Company, d: Company, policy: DreamCompanyPolicy)
    requires s.dreamCompanyName == t.dreamCompanyName && c.name == d.name
    ensures CheckDreamCompanyPolicy(s, c, policy) == CheckDreamCompanyPolicy(t, d, policy)
  {
  }
}
