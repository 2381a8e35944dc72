/**
  The rule-based classifier of `JobApplicationTracker`: the noise filter
  `is_job_alert`, the extractors `extract_company` and `extract_role`, and the
  status classifier `categorize_status`. All four are pure; `extract_role`'s
  search loop over its two patterns is a method proved against `RoleOf`.
 */
module Classifier {
  import opened Wrappers
  import opened Text
  import opened Patterns

  // ---------------------------------------------------------------------------
  // Keyword lists
  // ---------------------------------------------------------------------------

  /** Some keyword of `keywords` occurs in `hay`. */
  ghost predicate Hits(hay: string, keywords: seq<string>) {
    exists j: nat, i: nat :: j < |keywords| && OccursAt(hay, keywords[j], i)
  }

  /** `any(kw in hay for kw in keywords)`, trying the keywords in order. */
  function AnyIn(hay: string, keywords: seq<string>): (r: bool)
    ensures r <==> Hits(hay, keywords)
  {
    if keywords == [] then false
    else
      HitsUncons(hay, keywords);
      Contains(hay, keywords[0]) || AnyIn(hay, keywords[1..])
  }

  /** A hit is a hit of the first keyword or of the others. */
  lemma HitsUncons(hay: string, keywords: seq<string>)
    requires keywords != []
    ensures Hits(hay, keywords) <==> Contains(hay, keywords[0]) || Hits(hay, keywords[1..])
  {
    if Hits(hay, keywords) {
      var j: nat, i: nat :| j < |keywords| && OccursAt(hay, keywords[j], i);
      if j > 0 {
        assert keywords[1..][j - 1] == keywords[j];
        assert OccursAt(hay, keywords[1..][j - 1], i);
      }
    }
    if Hits(hay, keywords[1..]) {
      var j: nat, i: nat :| j < |keywords[1..]| && OccursAt(hay, keywords[1..][j], i);
      assert OccursAt(hay, keywords[j + 1], i);
    }
    if Contains(hay, keywords[0]) {
      var i: nat :| OccursAt(hay, keywords[0], i);
      assert OccursAt(hay, keywords[0], i);
    }
  }

  /** A keyword found in a part of the text is found in the whole. */
  lemma HitsInfix(a: string, b: string, c: string, keywords: seq<string>, j: nat)
    requires j < |keywords| && Contains(b, keywords[j])
    ensures Hits(a + b + c, keywords)
  {
    ContainsInfix(a, b, c, keywords[j]);
    var i: nat :| OccursAt(a + b + c, keywords[j], i);
  }

  // ---------------------------------------------------------------------------
  // is_job_alert
  // ---------------------------------------------------------------------------

  /** Job-board domains and newsletter phrases that mark a message as noise. */
  const JobAlertIndicators: seq<string> := [
    "linkedin.com", "indeed.com", "glassdoor.com", "monster.com",
    "jobrapido", "jooble", "jobtome", "talent.com", "simplyhired",
    "ziprecruiter", "newsletter", "job alert", "new jobs",
    "recommended for you", "jobs matching", "daily digest"
  ]

  /** `is_job_alert`: some indicator occurs in the lower-cased sender and
      subject joined by one space. */
  function IsJobAlert(from: string, subject: string): (r: bool)
    ensures r <==> Hits(Lower(from + " " + subject), JobAlertIndicators)
  {
    AnyIn(Lower(from + " " + subject), JobAlertIndicators)
  }

  /** A keyword in either of two texts, in any letter case, is a keyword in
      their lower-cased join by one space. */
  lemma HitsInJoin(x: string, y: string, keywords: seq<string>, j: nat)
    requires j < |keywords|
    requires Contains(Lower(x), keywords[j]) || Contains(Lower(y), keywords[j])
    ensures Hits(Lower(x + " " + y), keywords)
  {
    LowerJoin(x, y);
    HitsInEitherPart(Lower(x), Lower(y), keywords, j);
  }

  /** A keyword in either of two texts is a keyword in their join by one space. */
  lemma HitsInEitherPart(x: string, y: string, keywords: seq<string>, j: nat)
    requires j < |keywords|
    requires Contains(x, keywords[j]) || Contains(y, keywords[j])
    ensures Hits(x + " " + y, keywords)
  {
    if Contains(x, keywords[j]) {
      assert [] + x + (" " + y) == x + " " + y;
      HitsInfix([], x, " " + y, keywords, j);
    } else {
      assert x + " " + y + [] == x + " " + y;
      HitsInfix(x + " ", y, [], keywords, j);
    }
  }

  /** An indicator in either field, in any letter case, marks the message. */
  lemma JobAlertInEitherField(from: string, subject: string, j: nat)
    requires j < |JobAlertIndicators|
    requires Contains(Lower(from), JobAlertIndicators[j]) || Contains(Lower(subject), JobAlertIndicators[j])
    ensures IsJobAlert(from, subject)
  {
    HitsInJoin(from, subject, JobAlertIndicators, j);
  }

  /** No indicator is shorter than six characters. */
  lemma IndicatorsAreLong()
    ensures forall j :: 0 <= j < |JobAlertIndicators| ==> |JobAlertIndicators[j]| >= 6
  {
  }

  /** No text of at most five characters holds an indicator. */
  lemma NoIndicatorInShortText(h: string)
    requires |h| <= 5
    ensures !Hits(h, JobAlertIndicators)
  {
    IndicatorsAreLong();
  }

  /** The joining space lets an indicator span the two fields: neither
      `"x@job"` nor `"alert"` holds an indicator, yet together they are a job
      alert. */
  lemma JobAlertAcrossFields()
    ensures !Hits(Lower("x@job"), JobAlertIndicators) && !Hits(Lower("alert"), JobAlertIndicators)
    ensures IsJobAlert("x@job", "alert")
  {
    NoIndicatorInShortText(Lower("x@job"));
    NoIndicatorInShortText(Lower("alert"));
    var joined := "x@job" + " " + "alert";
    assert joined == "x@job alert";
    LowerUnchanged(joined);
    assert OccursAt(joined, JobAlertIndicators[11], 2);
  }

  // ---------------------------------------------------------------------------
  // extract_company
  // ---------------------------------------------------------------------------

  /** Applicant-tracking vendors whose names are removed from a domain label,
      in the order they are removed. */
  const AtsVendors: seq<string> := ["greenhouse", "lever", "workday", "myworkday"]

  /** The chain of `replace(vendor, '')` calls, in the source's order. */
  function RemoveVendors(name: string): (r: string)
    ensures |r| <= |name|
  {
    RemoveAll(RemoveAll(RemoveAll(RemoveAll(name, AtsVendors[0]), AtsVendors[1]), AtsVendors[2]), AtsVendors[3])
  }

  /** The company named by the subject line, stripped and title-cased, or
      the sentinel. */
  function SubjectCompanyOrUnknown(subject: string): (r: string)
    ensures r == "Unknown" || Title(r) == r
    ensures SubjectCompany(subject).None? ==> r == "Unknown"
    ensures SubjectCompany(subject).Some? ==> Lower(r) == Lower(Strip(SubjectCompany(subject).value))
  {
    match SubjectCompany(subject)
    case Some(g) =>
      TitleIdempotent(Strip(g));
      LowerOfTitle(Strip(g));
      Title(Strip(g))
    case None => "Unknown"
  }

  /** `extract_company`: the sender-domain label with vendor names removed,
      title-cased, when more than two characters are left; otherwise the
      company named after "at" in the subject; otherwise `"Unknown"`. */
  function ExtractCompany(from: string, subject: string): (r: string)
    ensures r == "Unknown" || Title(r) == r
    ensures r == "Unknown" || forall c :: c in r ==> IsLabelChar(c) || IsSpace(c)
    ensures r == [] ==> SubjectCompany(subject).Some?
  {
    var domain := DomainLabel(Lower(from));
    if domain.Some? && |RemoveVendors(domain.value)| > 2 then
      DomainLabelChars(Lower(from));
      RemoveAllKeeps(domain.value);
      TitleKeeps(RemoveVendors(domain.value));
      TitleIdempotent(RemoveVendors(domain.value));
      Title(RemoveVendors(domain.value))
    else
      match SubjectCompany(subject)
      case Some(g) =>
        SubjectCompanyChars(subject);
        StripKeeps(g);
        TitleKeeps(Strip(g));
        TitleIdempotent(Strip(g));
        Title(Strip(g))
      case None => "Unknown"
  }

  /** When the domain step answers, the company is the label left after
      removing the vendor names, in title case; it has more than two
      characters. */
  lemma CompanyFromDomain(from: string, subject: string)
    requires DomainLabel(Lower(from)).Some?
    requires |RemoveVendors(DomainLabel(Lower(from)).value)| > 2
    ensures var rest := RemoveVendors(DomainLabel(Lower(from)).value);
      var r := ExtractCompany(from, subject);
      r == Title(rest) && Lower(r) == rest && |r| > 2
  {
    var name := DomainLabel(Lower(from)).value;
    var rest := RemoveVendors(name);
    DomainLabelLowered(from);
    RemovedVendorsLowered(name);
    LowerOfTitle(rest);
    LowerUnchanged(rest);
  }

  /** A domain label comes from the lower-cased sender, so it has no
      upper-case letter. */
  lemma DomainLabelLowered(from: string)
    requires DomainLabel(Lower(from)).Some?
    ensures forall c :: c in DomainLabel(Lower(from)).value ==> !('A' <= c <= 'Z')
  {
    var s := Lower(from);
    DomainLabelChars(s);
    forall c | c in DomainLabel(s).value ensures !('A' <= c <= 'Z') {
      var t :| 0 <= t < |s| && s[t] == c;
      assert s[t] == LowerChar(from[t]);
    }
  }

  /** Removing vendor names adds no upper-case letter. */
  lemma RemovedVendorsLowered(name: string)
    requires forall c :: c in name ==> !('A' <= c <= 'Z')
    ensures forall t :: 0 <= t < |RemoveVendors(name)| ==> !('A' <= RemoveVendors(name)[t] <= 'Z')
  {
    var r := RemoveVendors(name);
    forall t | 0 <= t < |r| ensures !('A' <= r[t] <= 'Z') {
      assert r[t] in r;
    }
  }

  /** When the domain step does not answer, the company comes from the subject
      or is `"Unknown"`. */
  lemma CompanyFallsThrough(from: string, subject: string)
    requires DomainLabel(Lower(from)).None? || |RemoveVendors(DomainLabel(Lower(from)).value)| <= 2
    ensures ExtractCompany(from, subject) == SubjectCompanyOrUnknown(subject)
  {
  }

  /** A label that is just a vendor name leaves at most two characters:
      "greenhouse", "lever" and "workday" vanish, and "myworkday" loses
      "workday" first and leaves "my". */
  lemma VendorLabelsVanish()
    ensures RemoveVendors("greenhouse") == [] && RemoveVendors("lever") == []
    ensures RemoveVendors("workday") == [] && RemoveVendors("myworkday") == "my"
  {
    VendorsWithoutLever();
    assert RemoveAll("myworkday", "workday") == "my" by {
      assert "myworkday"[..7] != "workday";
      assert "myworkday"[1..][..7] != "workday";
      assert "myworkday"[1..][1..] == "workday";
    }
  }

  /** Neither "workday" nor "myworkday" contains "lever", so the second
      `replace` keeps them. */
  lemma VendorsWithoutLever()
    ensures RemoveAll("workday", "lever") == "workday"
    ensures RemoveAll("myworkday", "lever") == "myworkday"
  {
    AbsentLead("workday", "lever");
    AbsentLead("myworkday", "lever");
  }

  /** A sender whose domain label is a vendor name gets its company from the
      subject, or `"Unknown"`. */
  lemma VendorDomainFallsThrough(from: string, subject: string)
    requires DomainLabel(Lower(from)).Some? && DomainLabel(Lower(from)).value in AtsVendors
    ensures ExtractCompany(from, subject) == SubjectCompanyOrUnknown(subject)
  {
    VendorLabelShort(DomainLabel(Lower(from)).value);
    CompanyFallsThrough(from, subject);
  }

  /** Removing the vendor names from a vendor name leaves at most two
      characters. */
  lemma VendorLabelShort(name: string)
    requires name in AtsVendors
    ensures |RemoveVendors(name)| <= 2
  {
    VendorLabelsVanish();
    assert name == "greenhouse" || name == "lever" || name == "workday" || name == "myworkday";
  }

  /** The company can be empty: after "at" and one space, the lazy group
      takes the last space of the subject, and strip() removes it. */
  lemma CompanyMayBeEmpty()
    ensures ExtractCompany("", "at  ") == []
  {
    assert Lower("") == [];
    CompanyFallsThrough("", "at  ");
    BlankSubjectCompany();
  }

  /** The subject-company group of "at  " is a single space. */
  lemma BlankSubjectCompany()
    ensures SubjectCompany("at  ").Some? && Strip(SubjectCompany("at  ").value) == []
  {
    var s := "at  ";
    BlankSubjectMatches();
    var g := SubjectCompany(s).value;
    var i: nat, k: nat, m: nat :| FirstCompanyMatch(s, i, k, m) && g == s[i + 2 + k..i + 2 + k + m];
    BlankCompanyGroup(s, i, k, m);
    StripBlank(g);
  }

  /** "at", one space for `\s+`, one space for the group, then the end. */
  lemma BlankSubjectMatches()
    ensures CompanyMatch("at  ", 0, 1, 1)
  {
    var s := "at  ";
    assert s[0..2] == "at";
    assert All(s, 2, 3, Space) && All(s, 3, 4, WordOrSpace);
  }

  /** In "at  " the subject-company pattern can only start at index 0, so
      its group is white space. */
  lemma BlankCompanyGroup(s: string, i: nat, k: nat, m: nat)
    requires s == "at  " && CompanyMatch(s, i, k, m)
    ensures forall c :: c in s[i + 2 + k..i + 2 + k + m] ==> IsSpace(c)
  {
    assert s[i..i + 2][0] == s[i] && s[i..i + 2][1] == s[i + 1];
    assert i == 0;
    assert forall t :: 2 + k <= t < 2 + k + m ==> s[t] == ' ';
  }

  /** Removing vendor names keeps only characters of the label. */
  lemma RemoveAllKeeps(name: string)
    requires forall c :: c in name ==> IsLabelChar(c)
    ensures forall c :: c in RemoveVendors(name) ==> IsLabelChar(c)
  {
  }

  /** Title-casing keeps label characters and white space. */
  lemma TitleKeeps(s: string)
    requires forall c :: c in s ==> IsLabelChar(c) || IsSpace(c)
    ensures forall c :: c in Title(s) ==> IsLabelChar(c) || IsSpace(c)
  {
    var r := Title(s);
    forall c | c in r ensures IsLabelChar(c) || IsSpace(c) {
      var t :| 0 <= t < |r| && r[t] == c;
      assert s[t] in s;
      if t == 0 {
        assert r[t] == UpperChar(s[t]);
      } else {
        assert r[t] == TitleChar(IsLetter(s[t - 1]), s[t]);
      }
    }
  }

  /** Stripping keeps only characters of its input. */
  lemma StripKeeps(s: string)
    ensures forall c :: c in Strip(s) ==> c in s
  {
    var a: nat :| IsStripOf(s, a, Strip(s));
    forall c | c in Strip(s) ensures c in s {
      var t :| 0 <= t < |Strip(s)| && Strip(s)[t] == c;
      assert s[a + t] == c;
    }
  }

  /** The subject group consists of word and space characters. */
  lemma SubjectCompanyChars(subject: string)
    requires SubjectCompany(subject).Some?
    ensures forall c :: c in SubjectCompany(subject).value ==> IsWordOrSpace(c)
  {
    var g := SubjectCompany(subject).value;
    var i: nat, k: nat, m: nat :| FirstCompanyMatch(subject, i, k, m) && g == subject[i + 2 + k..i + 2 + k + m];
    forall c | c in g ensures IsWordOrSpace(c) {
      var t :| 0 <= t < |g| && g[t] == c;
      assert subject[i + 2 + k + t] == c;
    }
  }

  // ---------------------------------------------------------------------------
  // categorize_status
  // ---------------------------------------------------------------------------

  datatype Status = Applied | Interview | Assessment | Rejected | Other

  const RejectionKeywords: seq<string> := [
    "not selected", "unfortunately", "other candidates", "position filled",
    "not moving forward", "pursue other", "not be considered"
  ]

  const AssessmentKeywords: seq<string> := [
    "codesignal", "hackerrank", "coding challenge", "assessment", "technical test"
  ]

  const InterviewKeywords: seq<string> := [
    "interview", "schedule", "meet with", "phone screen", "video call", "would like to speak"
  ]

  const AppliedKeywords: seq<string> := [
    "application received", "thank you for applying", "confirm your application", "submitted successfully"
  ]

  /** Only the first 500 characters of the body are read. */
  const StatusBodyWindow: nat := 500

  /** The lower-cased subject, a space, and the lower-cased start of the body. */
  function StatusHaystack(subject: string, body: string): (h: string)
    ensures |h| <= |subject| + 1 + StatusBodyWindow
    ensures forall i :: 0 <= i < |h| ==> !('A' <= h[i] <= 'Z')
  {
    Lower(subject) + " " + Lower(Prefix(body, StatusBodyWindow))
  }

  /** `categorize_status`: the first of Rejected, Assessment, Interview and
      Applied whose keyword list hits the haystack, else Other. */
  function CategorizeStatus(subject: string, body: string): (r: Status)
    ensures var h := StatusHaystack(subject, body);
      (r == Rejected <==> Hits(h, RejectionKeywords))
      && (r == Assessment <==> !Hits(h, RejectionKeywords) && Hits(h, AssessmentKeywords))
      && (r == Interview <==> !Hits(h, RejectionKeywords) && !Hits(h, AssessmentKeywords) && Hits(h, InterviewKeywords))
      && (r == Applied <==> !Hits(h, RejectionKeywords) && !Hits(h, AssessmentKeywords) && !Hits(h, InterviewKeywords)
                            && Hits(h, AppliedKeywords))
      && (r == Other <==> !Hits(h, RejectionKeywords) && !Hits(h, AssessmentKeywords) && !Hits(h, InterviewKeywords)
                          && !Hits(h, AppliedKeywords))
  {
    var h := StatusHaystack(subject, body);
    if AnyIn(h, RejectionKeywords) then Rejected
    else if AnyIn(h, AssessmentKeywords) then Assessment
    else if AnyIn(h, InterviewKeywords) then Interview
    else if AnyIn(h, AppliedKeywords) then Applied
    else Other
  }

  /** Body characters from index 500 on never affect the status. */
  lemma StatusIgnoresBodyTail(subject: string, body: string, body': string)
    requires Prefix(body, StatusBodyWindow) == Prefix(body', StatusBodyWindow)
    ensures CategorizeStatus(subject, body) == CategorizeStatus(subject, body')
  {
  }

  /** The status of a message is the status of its subject and the first 500
      characters of its body. */
  lemma StatusReadsWindow(subject: string, body: string)
    ensures CategorizeStatus(subject, body) == CategorizeStatus(subject, Prefix(body, StatusBodyWindow))
  {
    PrefixIdempotent(body, StatusBodyWindow);
    StatusIgnoresBodyTail(subject, body, Prefix(body, StatusBodyWindow));
  }

  /** A rejection keyword in the subject, in any letter case, outranks every
      other keyword, wherever they occur. */
  lemma RejectionOutranks(subject: string, body: string, j: nat)
    requires j < |RejectionKeywords| && Contains(Lower(subject), RejectionKeywords[j])
    ensures CategorizeStatus(subject, body) == Rejected
  {
    SubjectInHaystack(subject, body, RejectionKeywords, j);
  }

  /** An assessment keyword in the subject outranks interview and applied
      keywords: the result is Assessment unless a rejection keyword hits. */
  lemma AssessmentOutranksInterview(subject: string, body: string, j: nat)
    requires j < |AssessmentKeywords| && Contains(Lower(subject), AssessmentKeywords[j])
    ensures CategorizeStatus(subject, body) in {Rejected, Assessment}
  {
    SubjectInHaystack(subject, body, AssessmentKeywords, j);
  }

  /** A keyword of the lower-cased subject is a keyword of the haystack. */
  lemma SubjectInHaystack(subject: string, body: string, keywords: seq<string>, j: nat)
    requires j < |keywords| && Contains(Lower(subject), keywords[j])
    ensures Hits(StatusHaystack(subject, body), keywords)
  {
    var rest := " " + Lower(Prefix(body, StatusBodyWindow));
    assert [] + Lower(subject) + rest == StatusHaystack(subject, body);
    HitsInfix([], Lower(subject), rest, keywords, j);
  }

  // ---------------------------------------------------------------------------
  // extract_role
  // ---------------------------------------------------------------------------

  /** The two patterns of `extract_role`, in the order they are tried. */
  datatype RolePattern = GenericPattern | VocabularyPattern

  const RolePatterns: seq<RolePattern> := [GenericPattern, VocabularyPattern]

  /** Only the first 200 characters of the body are searched. */
  const RoleBodyWindow: nat := 200

  /** Group 1 of a role pattern's leftmost match in `text`. */
  function FindRole(pattern: RolePattern, text: string): Option<string> {
    match pattern
    case GenericPattern => GenericRole(text)
    case VocabularyPattern => VocabularyRole(text)
  }

  /** No role pattern matches an empty text. */
  lemma NoRoleInEmptyText(pattern: RolePattern)
    ensures FindRole(pattern, []).None?
  {
  }

  /** The role group `extract_role` finds trying the patterns from `n` on,
      each first on the subject and then on the window of the body. */
  function RoleFrom(subject: string, window: string, n: nat): Option<string>
    decreases |RolePatterns| - n
  {
    if n >= |RolePatterns| then None
    else
      var inSubject := FindRole(RolePatterns[n], subject);
      if inSubject.Some? then inSubject
      else
        var inWindow := FindRole(RolePatterns[n], window);
        if inWindow.Some? then inWindow else RoleFrom(subject, window, n + 1)
  }

  /** The role `extract_role` reports: the first group found, stripped and
      title-cased, or `"Unknown"`. */
  function RoleOf(subject: string, body: string): (r: string)
    ensures r == "Unknown" || Title(r) == r
  {
    match RoleFrom(subject, Prefix(body, RoleBodyWindow), 0)
    case Some(g) =>
      TitleIdempotent(Strip(g));
      Title(Strip(g))
    case None => "Unknown"
  }

  /** `extract_role`: the source's loop over the two patterns, searching the
      subject and then, when the body is not empty, its first 200 characters. */
  method ExtractRole(subject: string, body: string) returns (r: string)
    ensures r == RoleOf(subject, body)
  {
    var window := Prefix(body, RoleBodyWindow);
    for n := 0 to |RolePatterns|
      invariant RoleFrom(subject, window, n) == RoleFrom(subject, window, 0)
    {
      var found := FindRole(RolePatterns[n], subject);
      if found.Some? {
        return Title(Strip(found.value));
      }
      if body != [] {
        found := FindRole(RolePatterns[n], window);
        if found.Some? {
          return Title(Strip(found.value));
        }
      } else {
        NoRoleInEmptyText(RolePatterns[n]);
      }
    }
    return "Unknown";
  }

  /** The order in which `extract_role` consults its sources: the generic
      pattern on the subject, then on the window of the body, then the
      vocabulary on the subject, then on the window. */
  lemma RoleCascade(subject: string, body: string)
    ensures var window := Prefix(body, RoleBodyWindow);
      var r := RoleOf(subject, body);
      (GenericRole(subject).Some? ==> r == Title(Strip(GenericRole(subject).value)))
      && (GenericRole(subject).None? && GenericRole(window).Some? ==> r == Title(Strip(GenericRole(window).value)))
      && (GenericRole(subject).None? && GenericRole(window).None? && VocabularyRole(subject).Some? ==>
            r == Title(Strip(VocabularyRole(subject).value)))
      && ((GenericRole(subject).None? && GenericRole(window).None? && VocabularyRole(subject).None?
           && VocabularyRole(window).Some?) ==>
            r == Title(Strip(VocabularyRole(window).value)))
  {
    var window := Prefix(body, RoleBodyWindow);
    assert RoleFrom(subject, window, 2).None?;
  }

  /** The role can be empty: after "role:" the greedy `\s*` gives back all
      five spaces to the group, and strip() removes them. */
  lemma RoleMayBeEmpty()
    ensures RoleOf("role:     ", "") == []
  {
    BlankRoleMatches();
    RoleCascade("role:     ", "");
    BlankGenericRole();
  }

  /** The generic role group of "role:     " is white space. */
  lemma BlankGenericRole()
    ensures GenericRole("role:     ").Some? && Strip(GenericRole("role:     ").value) == []
  {
    var s := "role:     ";
    BlankRoleMatches();
    var g := GenericRole(s).value;
    var i: nat, a: nat, k: nat, m: nat :| FirstRoleMatch(s, i, a, k, m)
      && g == s[i + |RoleLeads[a]| + k..i + |RoleLeads[a]| + k + m];
    BlankRoleGroup(s, i, a, k, m);
    StripBlank(g);
  }

  /** "role:", no space for `\s*`, five spaces for the group, then the end. */
  lemma BlankRoleMatches()
    ensures RoleMatch("role:     ", 0, 1, 0, 5)
  {
    var s := "role:     ";
    assert StartsWithCI(s, 0, RoleLeads[1]);
    assert All(s, 5, 10, WordOrSpace);
  }

  /** In "role:     " the generic role pattern can only match with the lead-in
      "role:" at index 0, so its group is white space. */
  lemma BlankRoleGroup(s: string, i: nat, a: nat, k: nat, m: nat)
    requires s == "role:     " && RoleMatch(s, i, a, k, m)
    ensures forall c :: c in s[i + |RoleLeads[a]| + k..i + |RoleLeads[a]| + k + m] ==> IsSpace(c)
  {
    BlankRoleLead(s, i, a);
    assert forall t :: 5 <= t < |s| ==> s[t] == ' ';
  }

  /** The only lead-in of "role:     " is "role:" at index 0. */
  lemma BlankRoleLead(s: string, i: nat, a: nat)
    requires s == "role:     " && a < |RoleLeads| && StartsWithCI(s, i, RoleLeads[a])
    ensures a == 1 && i == 0
  {
    assert LowerChar(s[i + 0]) == LowerChar(RoleLeads[a][0]);
    assert a == 1;
    assert LowerChar(s[i + 4]) == LowerChar(RoleLeads[1][4]);
  }

  /** Body characters from index 200 on never affect the role. */
  lemma RoleIgnoresBodyTail(subject: string, body: string, body': string)
    requires Prefix(body, RoleBodyWindow) == Prefix(body', RoleBodyWindow)
    ensures RoleOf(subject, body) == RoleOf(subject, body')
  {
  }

  /** The role of a message is the role of its subject and the first 200
      characters of its body. */
  lemma RoleReadsWindow(subject: string, body: string)
    ensures RoleOf(subject, body) == RoleOf(subject, Prefix(body, RoleBodyWindow))
  {
    PrefixIdempotent(body, RoleBodyWindow);
    RoleIgnoresBodyTail(subject, body, Prefix(body, RoleBodyWindow));
  }

  /** When neither pattern matches the subject or the window, the role is
      `"Unknown"`. */
  lemma RoleUnknown(subject: string, body: string)
    requires var window := Prefix(body, RoleBodyWindow);
      GenericRole(subject).None? && GenericRole(window).None?
      && VocabularyRole(subject).None? && VocabularyRole(window).None?
    ensures RoleOf(subject, body) == "Unknown"
  {
    var window := Prefix(body, RoleBodyWindow);
    assert RoleFrom(subject, window, 1).None?;
  }

  /** A generic-pattern role has at most 40 characters. */
  lemma RoleGenericBound(subject: string, body: string)
    requires GenericRole(subject).Some? || GenericRole(Prefix(body, RoleBodyWindow)).Some?
    ensures |RoleOf(subject, body)| <= 40
  {
  }

  /** When only the vocabulary matches, the role is a vocabulary entry as the
      text spells it, title-cased. */
  lemma RoleVocabularyShape(subject: string, body: string)
    requires GenericRole(subject).None? && GenericRole(Prefix(body, RoleBodyWindow)).None?
    requires VocabularyRole(subject).Some? || VocabularyRole(Prefix(body, RoleBodyWindow)).Some?
    ensures var r := RoleOf(subject, body);
      Title(r) == r && exists a :: 0 <= a < |RoleVocabulary| && VocabularyMatch(r, 0, a) && |r| == |RoleVocabulary[a]|
  {
    var window := Prefix(body, RoleBodyWindow);
    var text := if VocabularyRole(subject).Some? then subject else window;
    VocabularyRoleTitled(text);
    RoleCascade(subject, body);
    TitleIdempotent(Strip(VocabularyRole(text).value));
  }

  /** Every vocabulary entry starts and ends with a lower-case letter. */
  lemma VocabularyIsLettered()
    ensures forall a :: 0 <= a < |RoleVocabulary| ==>
      |RoleVocabulary[a]| > 0 && 'a' <= RoleVocabulary[a][0] <= 'z'
      && 'a' <= RoleVocabulary[a][|RoleVocabulary[a]| - 1] <= 'z'
  {
  }

  /** Title-casing keeps a case-insensitive match against a pattern word. */
  lemma TitleKeepsPatternMatch(g: string, w: string)
    requires |g| == |w| && forall t :: 0 <= t < |w| ==> VocabularyCharMatches(g[t], w[t])
    ensures forall t :: 0 <= t < |w| ==> VocabularyCharMatches(Title(g)[t], w[t])
  {
    var r := Title(g);
    forall t | 0 <= t < |w| ensures VocabularyCharMatches(r[t], w[t]) {
      assert VocabularyCharMatches(g[t], w[t]);
      if t == 0 {
        assert r[t] == UpperChar(g[t]);
      } else {
        assert r[t] == TitleChar(IsLetter(g[t - 1]), g[t]);
      }
    }
  }

  /** A text spelling vocabulary entry `a` is left alone by strip(), and
      title() keeps it a spelling of that entry. */
  lemma TitledVocabularyMatch(g: string, a: nat)
    requires a < |RoleVocabulary| && |g| == |RoleVocabulary[a]| && VocabularyMatch(g, 0, a)
    ensures VocabularyMatch(Title(Strip(g)), 0, a)
  {
    var w := RoleVocabulary[a];
    VocabularyIsLettered();
    assert VocabularyCharMatches(g[0], w[0]);
    assert VocabularyCharMatches(g[|g| - 1], w[|w| - 1]);
    StripUnspaced(g);
    assert forall t :: 0 <= t < |w| ==> VocabularyCharMatches(g[0 + t], w[t]);
    TitleKeepsPatternMatch(g, w);
  }

  /** A vocabulary match survives strip() and title() as a vocabulary match. */
  lemma VocabularyRoleTitled(text: string)
    requires VocabularyRole(text).Some?
    ensures var r := Title(Strip(VocabularyRole(text).value));
      exists a :: 0 <= a < |RoleVocabulary| && VocabularyMatch(r, 0, a) && |r| == |RoleVocabulary[a]|
  {
    var g := VocabularyRole(text).value;
    var i: nat, a: nat :| FirstVocabularyMatch(text, i, a) && g == text[i..i + |RoleVocabulary[a]|];
    VocabularySlice(text, i, a);
    TitledVocabularyMatch(g, a);
  }

  /** The text a vocabulary match covers is itself a match at index 0. */
  lemma VocabularySlice(text: string, i: nat, a: nat)
    requires VocabularyMatch(text, i, a)
    ensures VocabularyMatch(text[i..i + |RoleVocabulary[a]|], 0, a)
  {
    var w := RoleVocabulary[a];
    var g := text[i..i + |w|];
    forall t | 0 <= t < |w| ensures VocabularyCharMatches(g[0 + t], w[t]) {
      assert g[0 + t] == text[i + t];
    }
  }

}
