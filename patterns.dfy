/**
  The four regular expressions of the classifier, each as a hand-written
  matcher that follows the backtracking order of Python's `re` engine:

  - `@([\w-]+)\.(com|io|ai|co)` (sender domain),
  - `at\s+([\w\s]+?)(?:\s*[-–|]|$)` (company in the subject, case-sensitive),
  - `(?:for\s+|role:\s*|position:\s*)([\w\s]{5,40}?)(?:\s+at|\s*[-–|]|$)`
    (role, case-insensitive),
  - `(software engineer|...|full.stack)` (role vocabulary, case-insensitive).

  For each pattern a predicate says when it matches at a start index with a
  given choice of repetition counts (a "decomposition"); a scanner returns the
  first decomposition in the engine's order (alternatives left to right,
  greedy counts from the largest down, lazy counts from the smallest up), and
  `Search` returns the leftmost start index at which the scanner succeeds,
  as `re.search` does.
 */
module Patterns {
  import opened Wrappers
  import opened Text

  // ---------------------------------------------------------------------------
  // Leftmost search and shared pieces
  // ---------------------------------------------------------------------------

  /** `re.search`: the first start index in `[from, end]` at which `at`
      reports a match, with that match. */
  function Search<T>(at: nat -> Option<T>, from: nat, end: nat): (r: Option<(nat, T)>)
    ensures r.Some? ==> from <= r.value.0 <= end && at(r.value.0) == Some(r.value.1)
    ensures r.Some? ==> forall i: nat :: from <= i < r.value.0 ==> at(i).None?
    ensures r.None? ==> forall i: nat :: from <= i <= end ==> at(i).None?
    decreases end - from
  {
    if from > end then None
    else match at(from)
      case Some(x) => Some((from, x))
      case None => Search(at, from + 1, end)
  }

  /** `$` without MULTILINE: the end of the text, or just before a final newline. */
  predicate AtEnd(s: string, q: nat) {
    q == |s| || (q + 1 == |s| && s[q] == '\n')
  }

  /** The class `[-–|]` (hyphen, en dash, vertical bar). */
  predicate IsSeparator(c: char) {
    c == '-' || c == '\U{2013}' || c == '|'
  }

  /** `\s*[-–|]` matches at `q`: a run of white space, then a separator. */
  predicate SeparatorAhead(s: string, q: nat)
    requires q <= |s|
  {
    exists t: nat {:trigger All(s, q, t, Space)} | q <= t < |s| :: All(s, q, t, Space) && IsSeparator(s[t])
  }

  /** `w` (lower-case) matches at `i` under `re.IGNORECASE`. */
  predicate StartsWithCI(s: string, i: nat, w: string) {
    i + |w| <= |s| && forall t | 0 <= t < |w| :: LowerChar(s[i + t]) == LowerChar(w[t])
  }

  // ---------------------------------------------------------------------------
  // @([\w-]+)\.(com|io|ai|co)
  // ---------------------------------------------------------------------------

  const Tlds: seq<string> := ["com", "io", "ai", "co"]

  /** `\.(com|io|ai|co)` matches at `q`; `co` also accepts `.company`. */
  predicate TldAt(s: string, q: nat) {
    q < |s| && s[q] == '.' && exists a | 0 <= a < |Tlds| :: OccursAt(s, Tlds[a], q + 1)
  }

  /** The domain pattern matches at `i` with a label of `n` characters. */
  predicate DomainMatch(s: string, i: nat, n: nat) {
    i + 1 + n <= |s| && s[i] == '@' && n >= 1 && All(s, i + 1, i + 1 + n, Label) && TldAt(s, i + 1 + n)
  }

  /** `[\w-]+` is greedy: try label lengths `n`, `n - 1`, ..., 1. */
  function DomainGreedy(s: string, i: nat, n: nat): (r: Option<nat>)
    requires i < |s| && s[i] == '@' && i + 1 + n <= |s| && All(s, i + 1, i + 1 + n, Label)
    ensures r.Some? ==> r.value <= n && DomainMatch(s, i, r.value)
    ensures r.Some? ==> forall n': nat :: r.value < n' <= n ==> !DomainMatch(s, i, n')
    ensures r.None? ==> forall n': nat :: n' <= n ==> !DomainMatch(s, i, n')
    decreases n
  {
    if n == 0 then None
    else if TldAt(s, i + 1 + n) then Some(n)
    else DomainGreedy(s, i, n - 1)
  }

  /** The domain pattern at start index `i`: the label length, if it matches. */
  function DomainAt(s: string, i: nat): (r: Option<nat>)
    ensures r.Some? ==> DomainMatch(s, i, r.value)
    ensures r.None? ==> forall n: nat :: !DomainMatch(s, i, n)
  {
    if i < |s| && s[i] == '@' then
      var run := Span(s, i + 1, Label);
      var r := DomainGreedy(s, i, run);
      assert forall n: nat :: DomainMatch(s, i, n) ==> n <= run by {
        forall n: nat | DomainMatch(s, i, n) ensures n <= run {
          SpanMaximal(s, i + 1, Label, n);
        }
      }
      r
    else None
  }

  /** Since `.` is not in `[\w-]`, a matching label is the whole run of label
      characters after the `@`. */
  lemma DomainLabelIsWholeRun(s: string, i: nat, n: nat)
    requires DomainMatch(s, i, n)
    ensures n == Span(s, i + 1, Label)
  {
    SpanMaximal(s, i + 1, Label, n);
  }

  /** The domain pattern matches at `i` and nowhere before. */
  ghost predicate LeftmostDomain(s: string, i: nat, n: nat) {
    DomainMatch(s, i, n) && forall i': nat, n': nat :: i' < i ==> !DomainMatch(s, i', n')
  }

  /** Group 1 of `re.search` with the domain pattern. */
  function DomainLabel(s: string): (r: Option<string>)
    ensures r.None? ==> forall i: nat, n: nat :: !DomainMatch(s, i, n)
    ensures r.Some? ==> exists i: nat, n: nat :: LeftmostDomain(s, i, n) && r.value == s[i + 1..i + 1 + n]
  {
    var at := (i: nat) => DomainAt(s, i);
    match Search(at, 0, |s|)
    case Some((i, n)) =>
      assert LeftmostDomain(s, i, n) by {
        forall i': nat, n': nat | i' < i ensures !DomainMatch(s, i', n') {
          assert at(i').None?;
        }
      }
      Some(s[i + 1..i + 1 + n])
    case None =>
      assert forall i: nat, n: nat :: !DomainMatch(s, i, n) by {
        forall i: nat, n: nat ensures !DomainMatch(s, i, n) {
          if i <= |s| { assert at(i).None?; }
        }
      }
      None
  }

  /** A domain label consists of label characters only. */
  lemma DomainLabelChars(s: string)
    requires DomainLabel(s).Some?
    ensures forall c :: c in DomainLabel(s).value ==> IsLabelChar(c) && c in s
  {
    var i: nat, n: nat :| LeftmostDomain(s, i, n) && DomainLabel(s).value == s[i + 1..i + 1 + n];
    forall c | c in DomainLabel(s).value ensures IsLabelChar(c) && c in s {
      var t :| 0 <= t < n && s[i + 1..i + 1 + n][t] == c;
      assert s[i + 1 + t] == c;
    }
  }

  // ---------------------------------------------------------------------------
  // at\s+([\w\s]+?)(?:\s*[-–|]|$)
  // ---------------------------------------------------------------------------

  /** The tail `(?:\s*[-–|]|$)` matches at `q`. */
  predicate CompanyEnd(s: string, q: nat)
    requires q <= |s|
  {
    SeparatorAhead(s, q) || AtEnd(s, q)
  }

  /** The subject-company pattern matches at `i` with `k` characters for
      `\s+` and `m` for the group. */
  predicate CompanyMatch(s: string, i: nat, k: nat, m: nat) {
    OccursAt(s, "at", i) && k >= 1 && m >= 1 && i + 2 + k + m <= |s|
    && All(s, i + 2, i + 2 + k, Space)
    && All(s, i + 2 + k, i + 2 + k + m, WordOrSpace)
    && CompanyEnd(s, i + 2 + k + m)
  }

  /** `([\w\s]+?)` is lazy: try group lengths `m`, `m + 1`, ... */
  function CompanyLazy(s: string, i: nat, k: nat, m: nat): (r: Option<nat>)
    requires OccursAt(s, "at", i) && k >= 1 && m >= 1 && i + 2 + k <= |s| && All(s, i + 2, i + 2 + k, Space)
    ensures r.Some? ==> m <= r.value && CompanyMatch(s, i, k, r.value)
    ensures r.Some? ==> forall m': nat :: m <= m' < r.value ==> !CompanyMatch(s, i, k, m')
    ensures r.None? ==> forall m': nat :: m <= m' ==> !CompanyMatch(s, i, k, m')
    decreases |s| - m
  {
    var p := i + 2 + k;
    if p + m > |s| || !All(s, p, p + m, WordOrSpace) then None
    else if CompanyEnd(s, p + m) then Some(m)
    else CompanyLazy(s, i, k, m + 1)
  }

  /** `\s+` is greedy: try space counts `k`, `k - 1`, ..., 1, and for each
      the lazy group. */
  function CompanySpaces(s: string, i: nat, k: nat): (r: Option<(nat, nat)>)
    requires OccursAt(s, "at", i) && i + 2 + k <= |s| && All(s, i + 2, i + 2 + k, Space)
    ensures r.Some? ==> 1 <= r.value.0 <= k && CompanyMatch(s, i, r.value.0, r.value.1)
    ensures r.Some? ==> forall k': nat, m': nat :: k' <= k && CompanyMatch(s, i, k', m') ==>
                          k' < r.value.0 || (k' == r.value.0 && r.value.1 <= m')
    ensures r.None? ==> forall k': nat, m': nat :: k' <= k ==> !CompanyMatch(s, i, k', m')
    decreases k
  {
    if k == 0 then None
    else match CompanyLazy(s, i, k, 1)
      case Some(m) => Some((k, m))
      case None => CompanySpaces(s, i, k - 1)
  }

  /** The subject-company pattern at start index `i`: the first decomposition
      `(k, m)` in the engine's order, if any. */
  function CompanyAt(s: string, i: nat): (r: Option<(nat, nat)>)
    ensures r.Some? ==> CompanyMatch(s, i, r.value.0, r.value.1)
    ensures r.Some? ==> forall k: nat, m: nat :: CompanyMatch(s, i, k, m) ==>
                          k < r.value.0 || (k == r.value.0 && r.value.1 <= m)
    ensures r.None? ==> forall k: nat, m: nat :: !CompanyMatch(s, i, k, m)
  {
    if OccursAt(s, "at", i) then
      var run := Span(s, i + 2, Space);
      assert forall k: nat, m: nat :: CompanyMatch(s, i, k, m) ==> k <= run by {
        forall k: nat, m: nat | CompanyMatch(s, i, k, m) ensures k <= run {
          SpanMaximal(s, i + 2, Space, k);
        }
      }
      CompanySpaces(s, i, run)
    else None
  }

  /** `(k, m)` is the decomposition `re.search` picks: leftmost start, then
      most spaces, then shortest group. */
  ghost predicate FirstCompanyMatch(s: string, i: nat, k: nat, m: nat) {
    CompanyMatch(s, i, k, m)
    && (forall i': nat, k': nat, m': nat :: i' < i ==> !CompanyMatch(s, i', k', m'))
    && (forall k': nat, m': nat :: CompanyMatch(s, i, k', m') ==> k' < k || (k' == k && m <= m'))
  }

  /** Group 1 of `re.search` with the subject-company pattern. */
  function SubjectCompany(s: string): (r: Option<string>)
    ensures r.None? ==> forall i: nat, k: nat, m: nat :: !CompanyMatch(s, i, k, m)
    ensures r.Some? ==> exists i: nat, k: nat, m: nat ::
                          FirstCompanyMatch(s, i, k, m) && r.value == s[i + 2 + k..i + 2 + k + m]
  {
    var at := (i: nat) => CompanyAt(s, i);
    match Search(at, 0, |s|)
    case Some((i, (k, m))) =>
      assert FirstCompanyMatch(s, i, k, m) by {
        forall i': nat, k': nat, m': nat | i' < i ensures !CompanyMatch(s, i', k', m') {
          assert at(i').None?;
        }
      }
      Some(s[i + 2 + k..i + 2 + k + m])
    case None =>
      assert forall i: nat, k: nat, m: nat :: !CompanyMatch(s, i, k, m) by {
        forall i: nat, k: nat, m: nat ensures !CompanyMatch(s, i, k, m) {
          if i <= |s| { assert at(i).None?; }
        }
      }
      None
  }

  // ---------------------------------------------------------------------------
  // (?:for\s+|role:\s*|position:\s*)([\w\s]{5,40}?)(?:\s+at|\s*[-–|]|$)
  // ---------------------------------------------------------------------------

  /** The three lead-in alternatives, in the order the engine tries them. */
  const RoleLeads: seq<string> := ["for", "role:", "position:"]

  /** The least number of spaces after each lead-in (`\s+` or `\s*`). */
  const RoleLeadMinSpaces: seq<nat> := [1, 0, 0]

  /** `\s+at` (case-insensitive) matches at `q`: a non-empty run of white
      space, then "at". */
  predicate AtWordAhead(s: string, q: nat)
    requires q <= |s|
  {
    exists t: nat {:trigger All(s, q, t, Space)} | q < t <= |s| :: All(s, q, t, Space) && StartsWithCI(s, t, "at")
  }

  /** The tail `(?:\s+at|\s*[-–|]|$)` matches at `q`. */
  predicate RoleEnd(s: string, q: nat)
    requires q <= |s|
  {
    AtWordAhead(s, q) || SeparatorAhead(s, q) || AtEnd(s, q)
  }

  /** After a lead-in ending at `p`: `k` spaces, a group of `m` word or space
      characters with `5 <= m <= 40`, then the tail. */
  predicate RoleTailMatch(s: string, p: nat, k: nat, m: nat) {
    5 <= m <= 40 && p + k + m <= |s|
    && All(s, p, p + k, Space)
    && All(s, p + k, p + k + m, WordOrSpace)
    && RoleEnd(s, p + k + m)
  }

  /** The generic role pattern matches at `i` with lead-in `a`, `k` spaces
      after it and a group of `m` characters. */
  predicate RoleMatch(s: string, i: nat, a: nat, k: nat, m: nat) {
    a < |RoleLeads| && StartsWithCI(s, i, RoleLeads[a]) && k >= RoleLeadMinSpaces[a]
    && RoleTailMatch(s, i + |RoleLeads[a]|, k, m)
  }

  /** `{5,40}?` is lazy: try group lengths `m`, `m + 1`, ..., 40. */
  function RoleLazy(s: string, p: nat, k: nat, m: nat): (r: Option<nat>)
    requires p + k <= |s| && All(s, p, p + k, Space)
    requires 5 <= m <= 40
    ensures r.Some? ==> m <= r.value && RoleTailMatch(s, p, k, r.value)
    ensures r.Some? ==> forall m': nat :: m <= m' < r.value ==> !RoleTailMatch(s, p, k, m')
    ensures r.None? ==> forall m': nat :: m <= m' ==> !RoleTailMatch(s, p, k, m')
    decreases 40 - m
  {
    if p + k + m > |s| || !All(s, p + k, p + k + m, WordOrSpace) then
      assert forall m': nat :: m <= m' ==> !RoleTailMatch(s, p, k, m') by {
        forall m': nat | m <= m' && RoleTailMatch(s, p, k, m') ensures false {
        }
      }
      None
    else if RoleEnd(s, p + k + m) then Some(m)
    else if m == 40 then None
    else RoleLazy(s, p, k, m + 1)
  }

  /** No group fits after exactly `k` spaces. */
  ghost predicate NoTail(s: string, p: nat, k: nat) {
    forall m: nat :: !RoleTailMatch(s, p, k, m)
  }

  /** The greedy space count: try `k`, `k - 1`, ..., down to `least`. */
  function RoleSpaces(s: string, p: nat, least: nat, k: nat): (r: Option<(nat, nat)>)
    requires p + k <= |s| && All(s, p, p + k, Space)
    ensures r.Some? ==> least <= r.value.0 <= k && RoleTailMatch(s, p, r.value.0, r.value.1)
    ensures r.Some? ==> forall k': nat :: r.value.0 < k' <= k ==> NoTail(s, p, k')
    ensures r.Some? ==> forall m': nat :: m' < r.value.1 ==> !RoleTailMatch(s, p, r.value.0, m')
    ensures r.None? ==> forall k': nat :: least <= k' <= k ==> NoTail(s, p, k')
    decreases k
  {
    if k < least then None
    else
      var lazy := RoleLazy(s, p, k, 5);
      if lazy.Some? then Some((k, lazy.value))
      else
        assert NoTail(s, p, k) by {
          forall m: nat ensures !RoleTailMatch(s, p, k, m) {
            if m >= 5 { assert !RoleTailMatch(s, p, k, m); }
          }
        }
        if k == 0 then None
        else
          var rest := RoleSpaces(s, p, least, k - 1);
          assert forall k': nat :: (rest.Some? && rest.value.0 < k' <= k) || (rest.None? && least <= k' <= k)
                                   ==> NoTail(s, p, k') by {
            forall k': nat | (rest.Some? && rest.value.0 < k' <= k) || (rest.None? && least <= k' <= k)
              ensures NoTail(s, p, k')
            {
              if k' < k {
                assert k' <= k - 1;
              }
            }
          }
          rest
  }

  /** Lead-in `a` at `i`, with its greedy spaces and lazy group. */
  function RoleLeadAt(s: string, i: nat, a: nat): (r: Option<(nat, nat)>)
    requires a < |RoleLeads|
    ensures r.Some? ==> RoleMatch(s, i, a, r.value.0, r.value.1)
    ensures r.Some? ==> forall k': nat, m': nat :: RoleMatch(s, i, a, k', m') ==>
                          r.value.0 > k' || (r.value.0 == k' && r.value.1 <= m')
    ensures r.None? ==> forall k': nat, m': nat :: !RoleMatch(s, i, a, k', m')
  {
    if StartsWithCI(s, i, RoleLeads[a]) then
      var j := i + |RoleLeads[a]|;
      var run := Span(s, j, Space);
      assert forall k: nat, m: nat :: RoleTailMatch(s, j, k, m) ==> k <= run by {
        forall k: nat, m: nat | RoleTailMatch(s, j, k, m) ensures k <= run {
          SpanMaximal(s, j, Space, k);
        }
      }
      var r := RoleSpaces(s, j, RoleLeadMinSpaces[a], run);
      assert forall k': nat, m': nat :: RoleMatch(s, i, a, k', m') ==>
               r.Some? && (r.value.0 > k' || (r.value.0 == k' && r.value.1 <= m')) by {
        forall k': nat, m': nat | RoleMatch(s, i, a, k', m')
          ensures r.Some? && (r.value.0 > k' || (r.value.0 == k' && r.value.1 <= m'))
        {
          assert RoleTailMatch(s, j, k', m');
          assert !NoTail(s, j, k');
        }
      }
      r
    else None
  }

  /** The lead-in alternatives `a`, `a + 1`, ..., tried in order. */
  function RoleLeadFrom(s: string, i: nat, a: nat): (r: Option<(nat, nat, nat)>)
    ensures r.Some? ==> a <= r.value.0 && RoleMatch(s, i, r.value.0, r.value.1, r.value.2)
    ensures r.Some? ==> forall a': nat, k': nat, m': nat :: a <= a' && RoleMatch(s, i, a', k', m') ==>
                          RoleOrder(r.value.0, r.value.1, r.value.2, a', k', m')
    ensures r.None? ==> forall a': nat, k': nat, m': nat :: a <= a' ==> !RoleMatch(s, i, a', k', m')
    decreases |RoleLeads| - a
  {
    if a >= |RoleLeads| then None
    else
      var here := RoleLeadAt(s, i, a);
      if here.Some? then Some((a, here.value.0, here.value.1))
      else
        var rest := RoleLeadFrom(s, i, a + 1);
        assert forall a': nat, k': nat, m': nat :: a' == a ==> !RoleMatch(s, i, a', k', m');
        rest
  }

  /** The engine's order on decompositions at one start index: earlier
      lead-in, then more spaces, then a shorter group. */
  predicate RoleOrder(a: nat, k: nat, m: nat, a': nat, k': nat, m': nat) {
    a < a' || (a == a' && (k > k' || (k == k' && m <= m')))
  }

  /** The generic role pattern at start index `i`. */
  function RoleAt(s: string, i: nat): (r: Option<(nat, nat, nat)>)
    ensures r.Some? ==> RoleMatch(s, i, r.value.0, r.value.1, r.value.2)
    ensures r.Some? ==> forall a: nat, k: nat, m: nat :: RoleMatch(s, i, a, k, m) ==>
                          RoleOrder(r.value.0, r.value.1, r.value.2, a, k, m)
    ensures r.None? ==> forall a: nat, k: nat, m: nat :: !RoleMatch(s, i, a, k, m)
  {
    RoleLeadFrom(s, i, 0)
  }

  /** The decomposition `re.search` picks for the generic role pattern. */
  ghost predicate FirstRoleMatch(s: string, i: nat, a: nat, k: nat, m: nat) {
    RoleMatch(s, i, a, k, m)
    && (forall i': nat, a': nat, k': nat, m': nat :: i' < i ==> !RoleMatch(s, i', a', k', m'))
    && (forall a': nat, k': nat, m': nat :: RoleMatch(s, i, a', k', m') ==> RoleOrder(a, k, m, a', k', m'))
  }

  /** Group 1 of `re.search` with the generic role pattern. */
  function GenericRole(s: string): (r: Option<string>)
    ensures r.None? ==> forall i: nat, a: nat, k: nat, m: nat :: !RoleMatch(s, i, a, k, m)
    ensures r.Some? ==> exists i: nat, a: nat, k: nat, m: nat :: FirstRoleMatch(s, i, a, k, m)
                          && r.value == s[i + |RoleLeads[a]| + k..i + |RoleLeads[a]| + k + m]
    ensures r.Some? ==> 5 <= |r.value| <= 40
  {
    var at := (i: nat) => RoleAt(s, i);
    match Search(at, 0, |s|)
    case Some((i, (a, k, m))) =>
      assert FirstRoleMatch(s, i, a, k, m) by {
        forall i': nat, a': nat, k': nat, m': nat | i' < i ensures !RoleMatch(s, i', a', k', m') {
          assert at(i').None?;
        }
      }
      Some(s[i + |RoleLeads[a]| + k..i + |RoleLeads[a]| + k + m])
    case None =>
      assert forall i: nat, a: nat, k: nat, m: nat :: !RoleMatch(s, i, a, k, m) by {
        forall i: nat, a: nat, k: nat, m: nat ensures !RoleMatch(s, i, a, k, m) {
          if i <= |s| { assert at(i).None?; }
        }
      }
      None
  }

  // ---------------------------------------------------------------------------
  // (software engineer|data engineer|...|full.stack)
  // ---------------------------------------------------------------------------

  /** The alternatives of the role vocabulary, in the order the engine tries
      them; `.` stands for any character but a newline. */
  const RoleVocabulary: seq<string> := [
    "software engineer", "data engineer", "ml engineer", "machine learning",
    "data scientist", "backend", "frontend", "full.stack"
  ]

  /** A pattern character of the vocabulary matches `c` under `re.IGNORECASE`. */
  predicate VocabularyCharMatches(c: char, pc: char) {
    if pc == '.' then c != '\n' else LowerChar(c) == LowerChar(pc)
  }

  /** Alternative `a` of the vocabulary matches at `i`. */
  predicate VocabularyMatch(s: string, i: nat, a: nat) {
    a < |RoleVocabulary| && i + |RoleVocabulary[a]| <= |s|
    && forall t | 0 <= t < |RoleVocabulary[a]| :: VocabularyCharMatches(s[i + t], RoleVocabulary[a][t])
  }

  /** The vocabulary alternatives `a`, `a + 1`, ..., tried in order at `i`. */
  function VocabularyFrom(s: string, i: nat, a: nat): (r: Option<nat>)
    ensures r.Some? ==> a <= r.value && VocabularyMatch(s, i, r.value)
    ensures r.Some? ==> forall a': nat :: a <= a' < r.value ==> !VocabularyMatch(s, i, a')
    ensures r.None? ==> forall a': nat :: a <= a' ==> !VocabularyMatch(s, i, a')
    decreases |RoleVocabulary| - a
  {
    if a >= |RoleVocabulary| then None
    else if VocabularyMatch(s, i, a) then Some(a)
    else VocabularyFrom(s, i, a + 1)
  }

  /** The alternative `re.search` picks for the vocabulary pattern. */
  ghost predicate FirstVocabularyMatch(s: string, i: nat, a: nat) {
    VocabularyMatch(s, i, a)
    && (forall i': nat, a': nat :: i' < i ==> !VocabularyMatch(s, i', a'))
    && (forall a': nat :: a' < a ==> !VocabularyMatch(s, i, a'))
  }

  /** Group 1 of `re.search` with the vocabulary pattern. */
  function VocabularyRole(s: string): (r: Option<string>)
    ensures r.None? ==> forall i: nat, a: nat :: !VocabularyMatch(s, i, a)
    ensures r.Some? ==> exists i: nat, a: nat :: FirstVocabularyMatch(s, i, a)
                          && r.value == s[i..i + |RoleVocabulary[a]|]
  {
    var at := (i: nat) => VocabularyFrom(s, i, 0);
    match Search(at, 0, |s|)
    case Some((i, a)) =>
      assert FirstVocabularyMatch(s, i, a) by {
        forall i': nat, a': nat | i' < i ensures !VocabularyMatch(s, i', a') {
          assert at(i').None?;
        }
      }
      Some(s[i..i + |RoleVocabulary[a]|])
    case None =>
      assert forall i: nat, a: nat :: !VocabularyMatch(s, i, a) by {
        forall i: nat, a: nat ensures !VocabularyMatch(s, i, a) {
          if i <= |s| { assert at(i).None?; }
        }
      }
      None
  }

}
