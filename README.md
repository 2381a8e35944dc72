# Job application tracker: the classification core in Dafny

`job_application_tracker.py` reads a Gmail inbox. It drops job alerts and
newsletters, and turns every other message into one application record with
the columns Date, Company, Role, Status and Subject. Then it reports counts
over those records. This project models the decision logic of that pipeline
and proves properties of it:

- **Noise filter** (`is_job_alert`): the sender and the subject are joined by a
  space and lower-cased. The message is noise when this text contains one of
  sixteen indicator substrings.
- **Company** (`extract_company`): the first step takes the label of the
  sender's `@label.tld` domain, removes the vendor names "greenhouse", "lever",
  "workday" and "myworkday", and title-cases what is left when it is longer
  than two characters. The second step takes the group of `at\s+([\w\s]+?)`
  in the subject, stripped and title-cased. Otherwise the company is
  `"Unknown"`.
- **Status** (`categorize_status`): the first keyword list that hits the
  lower-cased subject plus the first 500 characters of the body. Lists are
  tried in priority order: Rejected, Assessment, Interview, Applied. When none
  hits, the status is Other.
- **Role** (`extract_role`): two patterns are tried in order. The first is the
  generic `for … / role: … / position: …` pattern. The second is a closed
  vocabulary of role names. Each pattern is tried on the subject and then on
  the first 200 characters of the body. The first group found is stripped and
  title-cased; when there is none, the role is `"Unknown"`.
- **Collection loop** (`analyze_applications`, lines 171-213): for each
  fetched message, the model
  - reads the `Subject` and `From` headers,
  - skips the message if it is noise,
  - otherwise appends one record to the tracker's `applications` list.
- **Key metrics** (lines 344-346): the counts of Applied records, of Rejected
  records, and of Interview-or-Assessment records.

Modules follow the program's layers:

| module | contents |
|---|---|
| `Wrappers` | the `Option` type |
| `Text` | ASCII models of `lower()`, `title()`, `strip()`, `replace(x, '')`, the `in` substring test and `s[:n]` |
| `Patterns` | the four regular expressions, as backtracking scanners (below) |
| `Classifier` | the noise filter, the two extractors and the status classifier |
| `Tracker` | message records, the `JobApplicationTracker` class, the metrics |

Each regular expression in `Patterns` is built in two layers:

- **Match predicate.** A declarative predicate says when the pattern matches at
  a start index with given quantifier counts.
- **Scanner.** A recursive function returns the decomposition that Python's
  backtracking engine picks. It tries the leftmost start first; alternatives in
  order; greedy counts from the longest; lazy counts from the shortest. Its
  contract proves that choice against the predicate.

`JobApplicationTracker` is a class with the field `applications`, which its
methods update. `ProcessEmail` is the loop body for one fetched message.
`AnalyzeApplications` is the loop.

`extract_role` loops over its two patterns. It is modelled as the method
`ExtractRole` with that loop, proved equal to the function `RoleOf`. The
record built inside the model's functions uses `RoleOf`.

## Model

| member | source | states |
|---|---|---|
| Text.Lower | job_application_tracker.py:80 | `lower()` keeps the length and lower-cases each ASCII letter, position by position |
| Text.LowerConcat | job_application_tracker.py:80 | lower-casing distributes over concatenation |
| Text.LowerJoin | job_application_tracker.py:80 | lower-casing `x + " " + y` is lower-casing each part around the space |
| Text.Title | job_application_tracker.py:92 | `title()` keeps the length; it upper-cases a letter that is first or follows a non-letter, and lower-cases a letter that follows a letter |
| Text.LowerOfTitle | job_application_tracker.py:92 | title-casing changes only letter case: the lower-case forms agree |
| Text.TitleIdempotent | job_application_tracker.py:92 | a title-cased text is its own `title()`, so "title-cased" can be stated as `Title(r) == r` |
| Text.Strip | job_application_tracker.py:97 | `strip()` is never longer, has no white space at either end, and is the input minus a leading and a trailing run of white space |
| Text.StripUnspaced | job_application_tracker.py:97 | a text with no white space at its ends is unchanged by `strip()` |
| Text.StripBlank | job_application_tracker.py:97 | stripping a text made only of white space gives the empty text |
| Text.Contains | job_application_tracker.py:81 | `needle in hay` holds exactly when the needle occurs at some index |
| Text.ContainsInfix | job_application_tracker.py:81 | a substring of a part is a substring of any text containing that part |
| Text.AbsentLead | job_application_tracker.py:90 | a text lacking the first character of a needle does not contain it |
| Text.Prefix | job_application_tracker.py:104 | `s[:n]` has length `min(len(s), n)` and is a prefix of `s` |
| Text.PrefixIdempotent | job_application_tracker.py:104 | slicing the window twice is slicing it once |
| Text.RemoveAll | job_application_tracker.py:90 | `replace(p, '')` never lengthens, adds no character, leaves a text without `p` unchanged, shortens a text containing `p` by at least its length, and empties a text equal to `p` |
| Text.RemoveAllLeftmost | job_application_tracker.py:90 | `replace(p, '')` cuts the leftmost occurrence of `p` and continues on the text after it: the result is the text before that occurrence followed by the replacement of the rest |
| Text.LowerUnchanged | job_application_tracker.py:86 | a text with no upper-case letter is its own `lower()` |
| Text.Span | job_application_tracker.py:86 | the longest run of a character class at an index: every character is in the class and the next one is not |
| Patterns.Search | job_application_tracker.py:86 | `re.search` returns the first start index where the pattern matches, and there is no match before it; `None` means no start matches |
| Patterns.DomainGreedy | job_application_tracker.py:86 | greedy `[\w-]+` backtracking: the longest label length that the `.tld` suffix accepts |
| Patterns.DomainAt | job_application_tracker.py:86 | the domain pattern matches at an index exactly when it returns a label length |
| Patterns.DomainLabelIsWholeRun | job_application_tracker.py:86 | a matching label is always the whole run of `[\w-]` characters after the `@` |
| Patterns.DomainLabel | job_application_tracker.py:86-88 | group 1 is the label of the leftmost `@label.(com\|io\|ai\|co)` match; `None` means no index matches |
| Patterns.DomainLabelChars | job_application_tracker.py:86-88 | a domain label consists of `[\w-]` characters of the searched text |
| Patterns.CompanyLazy | job_application_tracker.py:95 | lazy `[\w\s]+?`: the shortest group for which the separator-or-end tail matches |
| Patterns.CompanySpaces | job_application_tracker.py:95 | greedy `\s+` with the lazy group: the most spaces, then the shortest group |
| Patterns.CompanyAt | job_application_tracker.py:95 | the first decomposition, in engine order, of a subject-company match at an index |
| Patterns.SubjectCompany | job_application_tracker.py:95-97 | group 1 of the leftmost subject-company match, in engine order; `None` means no match |
| Patterns.RoleLazy | job_application_tracker.py:132 | lazy `{5,40}?`: the shortest group of 5 to 40 characters for which the tail matches |
| Patterns.RoleSpaces | job_application_tracker.py:132 | greedy space counts down to the lead-in's minimum, each with the lazy group; no larger count fits |
| Patterns.RoleLeadAt | job_application_tracker.py:132 | one lead-in alternative at an index: its first decomposition in engine order |
| Patterns.RoleLeadFrom | job_application_tracker.py:132 | the lead-in alternatives `for`, `role:`, `position:` tried in order |
| Patterns.RoleAt | job_application_tracker.py:132 | the first decomposition in engine order of a generic role match at an index |
| Patterns.GenericRole | job_application_tracker.py:132 | group 1 of the leftmost generic role match, case-insensitive, with 5 to 40 characters; `None` means no match |
| Patterns.VocabularyFrom | job_application_tracker.py:133 | the vocabulary alternatives tried in order at an index: the first that matches |
| Patterns.VocabularyRole | job_application_tracker.py:133 | group 1 of the leftmost vocabulary match; `None` means no match |
| Classifier.AnyIn | job_application_tracker.py:81 | `any(kw in text for kw in keywords)` holds exactly when some keyword occurs in the text |
| Classifier.HitsInfix | job_application_tracker.py:81 | a keyword found in a part is found in a text containing that part |
| Classifier.IsJobAlert | job_application_tracker.py:72-81 | noise exactly when an indicator occurs in the lower-cased `from + " " + subject` |
| Classifier.HitsInJoin | job_application_tracker.py:80-81 | a keyword in either lower-cased field hits the lower-cased join |
| Classifier.JobAlertInEitherField | job_application_tracker.py:72-81 | an indicator in the sender, or in the subject, in any letter case, makes the message noise |
| Classifier.IndicatorsAreLong | job_application_tracker.py:74-78 | every indicator has at least six characters |
| Classifier.NoIndicatorInShortText | job_application_tracker.py:74-81 | a text of at most five characters contains no indicator |
| Classifier.JobAlertAcrossFields | job_application_tracker.py:80-81 | the joining space can complete an indicator: "x@job" and "alert" each contain none, yet together they are noise |
| Classifier.RemoveVendors | job_application_tracker.py:90 | removing the vendor names never lengthens the label |
| Classifier.SubjectCompanyOrUnknown | job_application_tracker.py:95-99 | the subject step and the sentinel: exactly `"Unknown"` when the subject pattern does not match, otherwise a title-cased text that lower-cases like the stripped group |
| Classifier.ExtractCompany | job_application_tracker.py:83-99 | the company is `"Unknown"` or a title-cased text of `[\w-]` and white-space characters; it is empty only when the subject step answered |
| Classifier.CompanyFromDomain | job_application_tracker.py:86-92 | when the domain step answers, the company is the title-cased label minus the vendor names; it lower-cases back to that label and is longer than two characters |
| Classifier.DomainLabelLowered | job_application_tracker.py:86 | the label is cut from the lower-cased sender, so it has no upper-case letter |
| Classifier.RemovedVendorsLowered | job_application_tracker.py:90 | removing the vendor names adds no upper-case letter |
| Classifier.CompanyFallsThrough | job_application_tracker.py:88-99 | with no domain label, or two or fewer characters left, the company comes from the subject or is `"Unknown"` |
| Classifier.VendorLabelsVanish | job_application_tracker.py:90 | "greenhouse", "lever" and "workday" vanish; "myworkday" loses "workday" first and leaves "my" |
| Classifier.VendorsWithoutLever | job_application_tracker.py:90 | the "lever" removal leaves "workday" and "myworkday" unchanged |
| Classifier.VendorLabelShort | job_application_tracker.py:90-91 | a bare vendor name leaves at most two characters |
| Classifier.VendorDomainFallsThrough | job_application_tracker.py:86-97 | a sender whose domain label is a bare vendor name gets its company from the subject |
| Classifier.CompanyMayBeEmpty | job_application_tracker.py:95-97 | the company can be empty: for subject "at" plus two spaces, the group is one space and `strip()` removes it |
| Classifier.BlankSubjectCompany | job_application_tracker.py:95-97 | the subject-company group of "at" plus two spaces strips to the empty text |
| Classifier.BlankSubjectMatches | job_application_tracker.py:95 | "at", one space for `\s+`, and one space as the group match and reach the end |
| Classifier.BlankCompanyGroup | job_application_tracker.py:95 | in that subject, every subject-company group is white space |
| Classifier.RemoveAllKeeps | job_application_tracker.py:90 | removing the vendor names keeps only `[\w-]` characters |
| Classifier.TitleKeeps | job_application_tracker.py:92 | title-casing keeps a text within `[\w-]` and white space |
| Classifier.StripKeeps | job_application_tracker.py:97 | `strip()` adds no character |
| Classifier.SubjectCompanyChars | job_application_tracker.py:95-97 | the subject-company group is made of `[\w\s]` characters |
| Classifier.StatusHaystack | job_application_tracker.py:103-105 | the haystack has no upper-case letter and is at most the subject, a space and 500 body characters long |
| Classifier.CategorizeStatus | job_application_tracker.py:101-127 | each of the five statuses holds exactly when its own list hits the haystack and no higher-priority list does |
| Classifier.StatusIgnoresBodyTail | job_application_tracker.py:104 | body characters from index 500 on never change the status |
| Classifier.StatusReadsWindow | job_application_tracker.py:103-105 | the status of a message equals the status of its subject with `body[:500]` |
| Classifier.RejectionOutranks | job_application_tracker.py:119-120 | a rejection keyword in the subject, in any case, gives Rejected whatever else occurs |
| Classifier.AssessmentOutranksInterview | job_application_tracker.py:119-122 | an assessment keyword in the subject gives Assessment unless a rejection keyword hits |
| Classifier.SubjectInHaystack | job_application_tracker.py:103-105 | a keyword of the lower-cased subject is a keyword of the haystack |
| Classifier.NoRoleInEmptyText | job_application_tracker.py:140 | neither role pattern matches an empty text, so skipping an empty body changes nothing |
| Classifier.RoleOf | job_application_tracker.py:129-144 | the value of `extract_role`: `"Unknown"` or a title-cased text |
| Classifier.ExtractRole | job_application_tracker.py:129-144 | the loop over the two patterns, subject first and then the body window, returns `RoleOf` |
| Classifier.RoleCascade | job_application_tracker.py:136-143 | the order of sources: generic pattern on the subject, then on the body window, then vocabulary on the subject, then on the window |
| Classifier.RoleIgnoresBodyTail | job_application_tracker.py:142 | body characters from index 200 on never change the role |
| Classifier.RoleReadsWindow | job_application_tracker.py:140-143 | the role of a message equals the role of its subject with `body[:200]` |
| Classifier.RoleUnknown | job_application_tracker.py:144 | with no match in the subject or the window, the role is `"Unknown"` |
| Classifier.RoleGenericBound | job_application_tracker.py:132 | a role from the generic pattern has at most 40 characters |
| Classifier.RoleVocabularyShape | job_application_tracker.py:133-143 | a role from the vocabulary is in title case and spells one vocabulary entry, case-insensitively and at its exact length |
| Classifier.VocabularyIsLettered | job_application_tracker.py:133 | every vocabulary entry starts and ends with a letter |
| Classifier.TitleKeepsPatternMatch | job_application_tracker.py:140 | title-casing keeps a case-insensitive match against a pattern word |
| Classifier.TitledVocabularyMatch | job_application_tracker.py:140 | `strip().title()` keeps a text a spelling of the same vocabulary entry |
| Classifier.VocabularySlice | job_application_tracker.py:133 | the text a vocabulary match covers is itself a match of the same entry |
| Classifier.VocabularyRoleTitled | job_application_tracker.py:138-143 | a vocabulary match survives `strip().title()` as a spelling of an entry |
| Classifier.RoleMayBeEmpty | job_application_tracker.py:132-140 | the role can be empty: for subject "role:" plus five spaces, `\s*` gives all the spaces to the group |
| Classifier.BlankGenericRole | job_application_tracker.py:132 | that subject's generic group is white space and strips to the empty text |
| Classifier.BlankRoleMatches | job_application_tracker.py:132 | "role:", no spaces for `\s*`, and five spaces as the group match and reach the end |
| Classifier.BlankRoleGroup | job_application_tracker.py:132 | in that subject, every generic role group is white space |
| Classifier.BlankRoleLead | job_application_tracker.py:132 | in that subject the only lead-in is "role:" at index 0 |
| Tracker.HeaderMap | job_application_tracker.py:181 | the header dictionary has a key exactly for each header name, and keeps the value of the last header with that name |
| Tracker.HeaderLookup | job_application_tracker.py:181-183 | `headers.get(key, '')` on the header dictionary: the empty text when no header has the name, else the value of the last header with it |
| Tracker.SubjectAndSender | job_application_tracker.py:181-183 | the subject and the sender are read that way from the `Subject` and `From` headers |
| Tracker.RecordOf | job_application_tracker.py:186-213 | the record appended for a message that is not noise: its company and its role are each `"Unknown"` or a title-cased text |
| Tracker.KeptStep | job_application_tracker.py:207-213 | one more outcome appends its record, if any |
| Tracker.KeptConcat | job_application_tracker.py:172-213 | keeping the records of two lists of outcomes in turn concatenates them |
| Tracker.KeptBound | job_application_tracker.py:172-213 | no list of outcomes holds more records than outcomes |
| Tracker.KeptFrom | job_application_tracker.py:207-213 | every kept record is one of the outcomes |
| Tracker.OutcomeShape | job_application_tracker.py:176-187 | a message yields no record exactly when its fetch failed or it is noise |
| Tracker.RecordFields | job_application_tracker.py:203-213 | the record of a message that is not noise carries its date, the extracted company, role and status, and the verbatim subject |
| Tracker.AcceptedConcat | job_application_tracker.py:172-213 | processing two runs of messages in turn appends their records in order |
| Tracker.AcceptedBound | job_application_tracker.py:172-213 | a run appends at most one record per fetched message |
| Tracker.AcceptedFromMessages | job_application_tracker.py:176-213 | every appended record is the record of a fetched message that is not noise |
| Tracker.JobApplicationTracker.constructor | job_application_tracker.py:29-31 | a new tracker has no applications |
| Tracker.JobApplicationTracker.ProcessEmail | job_application_tracker.py:176-213 | one loop iteration appends this message's record, if any, and changes nothing else |
| Tracker.JobApplicationTracker.AnalyzeApplications | job_application_tracker.py:172-213 | the loop appends the records of the fetched messages in order, after the existing applications |
| Tracker.CountStatus | job_application_tracker.py:344-345 | a status count never exceeds the number of records |
| Tracker.CountConcat | job_application_tracker.py:344-346 | counting over two lists of records adds up |
| Tracker.StatusesPartition | job_application_tracker.py:344-346 | the five status counts sum to the number of records |
| Tracker.KeyMetrics | job_application_tracker.py:344-346 | the applied, rejected and interview-or-assessment counts plus the Other records count every record exactly once |
| Tracker.MetricsGrow | job_application_tracker.py:344-346 | appending records, as a further run does, never lowers a metric |

## Left out

- Gmail access is left out: `authenticate`, `search_emails`, `get_email_details` and the service object. A fetch arrives as an `Option<Email>`, with `None` for a failed fetch.
- The query strings and the cutoff date are left out. They depend on `datetime.now()`, a clock.
- The collection of message ids in a set is left out. Neither the set's iteration order nor its removal of duplicates is modelled. `AnalyzeApplications` takes the fetched messages in whatever order the caller gives.
- MIME-part selection and base64 decoding of the body (lines 189-200) are left out. Each message carries its decoded plain-text body, or `""`.
- `datetime.fromtimestamp(int(date_ms)/1000)` is left out, because it involves the local time zone and floating point. A record keeps `internalDate` as an integer number of milliseconds.
- Progress printing, `generate_visualizations`, `generate_report` and `main` are left out. So are the CSV file, the sort by date and the percentages, which are floating point and I/O. Only the three integer counts at lines 344-346 are modelled.
- Text is ASCII only. `\w`, `\s`, `lower()`, `title()`, `strip()` and `re.IGNORECASE` follow Python's behaviour on ASCII characters. Non-ASCII letters and Unicode white space, such as U+00A0 or U+2028, are treated as ordinary, uncased, non-word characters. The en dash in `[-–|]` is kept.
- A `KeyError` from a message without `payload.headers` or `internalDate` is not modelled. Every `Email` has both.
- Classifier.ExtractCompany: its own contract gives the title case, the character classes and where an empty result can come from. The exact result is stated by `CompanyFromDomain` for the domain step and by `CompanyFallsThrough` with `SubjectCompanyOrUnknown` for the rest.

## Notes on behaviour

The model follows the code on each of these points, although a reading of
the program's intent might expect otherwise:

- **Empty company and role.** Company and role are not always a name or `"Unknown"`. The code can return `""` for both:
  - `Classifier.CompanyMayBeEmpty` proves it for the company, with the subject "at" plus two spaces.
  - `Classifier.RoleMayBeEmpty` proves it for the role, with the subject "role:" plus five spaces.
  - In both cases backtracking gives white space to the group, and `strip()` removes it.
- **Sender `jobs@acme.greenhouse.io`.** This sender gives no domain match at all, so the company comes from the subject. The label must follow the `@` directly, and `acme` is followed by `.greenhouse`, not by a listed TLD. The label pattern `[\w-]+` is always the whole run after the `@` (`Patterns.DomainLabelIsWholeRun`), and `Patterns.DomainLabel` states which match is taken.
- **Role search order.** The patterns are not both tried on the subject before the body is read. The code tries the generic pattern on the subject, then on the body, and only then the vocabulary (`Classifier.RoleCascade`).
- **The noise test sees the joined text.** The sender and subject are joined by a space before the search, so an indicator can span the join (`Classifier.JobAlertAcrossFields`).
