/**
  The acceptance loop of `JobApplicationTracker.analyze_applications`: each
  fetched message is reduced to its `Subject` and `From` headers, skipped if
  it is noise, and otherwise turned into one record appended to
  `applications`. Fetching, body decoding and the conversion of the date are
  outside the model: a fetched message arrives with its decoded body and its
  `internalDate` in milliseconds, and a failed fetch arrives as `None`.
 */
module Tracker {
  import opened Wrappers
  import opened Text
  import opened Classifier

  /** One entry of a message's `payload.headers` list. */
  datatype Header = Header(name: string, value: string)

  /** A fetched message: its headers, its decoded plain-text body and its
      `internalDate` (milliseconds since the epoch). */
  datatype Email = Email(headers: seq<Header>, body: string, internalDate: int)

  /** One row of `applications`, with the columns Date, Company, Role,
      Status and Subject. */
  datatype Application = Application(date: int, company: string, role: string, status: Status, subject: string)

  // ---------------------------------------------------------------------------
  // Headers
  // ---------------------------------------------------------------------------

  /** Some header of `headers` is called `name`. */
  ghost predicate Named(headers: seq<Header>, name: string) {
    exists j :: 0 <= j < |headers| && headers[j].name == name
  }

  /** No header after index `j` has the name of header `j`. */
  ghost predicate LastNamed(headers: seq<Header>, j: int)
    requires 0 <= j < |headers|
  {
    forall j' :: j < j' < |headers| ==> headers[j'].name != headers[j].name
  }

  /** `{h['name']: h['value'] for h in headers}`: every header name is a key,
      and the value kept for a name is that of the last header with it. */
  function HeaderMap(headers: seq<Header>): (d: map<string, string>)
    ensures forall name :: name in d <==> Named(headers, name)
    ensures forall j :: 0 <= j < |headers| && LastNamed(headers, j) ==>
              headers[j].name in d && d[headers[j].name] == headers[j].value
  {
    if headers == [] then map[]
    else
      var n := |headers| - 1;
      NamedSnoc(headers);
      LastNamedSnoc(headers);
      HeaderMap(headers[..n])[headers[n].name := headers[n].value]
  }

  lemma NamedSnoc(headers: seq<Header>)
    requires headers != []
    ensures forall name :: Named(headers, name) <==> Named(headers[..|headers| - 1], name) || headers[|headers| - 1].name == name
  {
    var n := |headers| - 1;
    forall name | Named(headers, name) ensures Named(headers[..n], name) || headers[n].name == name {
      var j :| 0 <= j < |headers| && headers[j].name == name;
      if j < n {
        assert headers[..n][j] == headers[j];
      }
    }
    forall name | Named(headers[..n], name) ensures Named(headers, name) {
      var j :| 0 <= j < n && headers[..n][j].name == name;
      assert headers[j] == headers[..n][j];
    }
  }

  lemma LastNamedSnoc(headers: seq<Header>)
    requires headers != []
    ensures forall j :: 0 <= j < |headers| - 1 && LastNamed(headers, j) ==>
              LastNamed(headers[..|headers| - 1], j) && headers[j].name != headers[|headers| - 1].name
  {
    var n := |headers| - 1;
    forall j | 0 <= j < n && LastNamed(headers, j)
      ensures LastNamed(headers[..n], j) && headers[j].name != headers[n].name
    {
      assert forall j' :: j < j' < n ==> headers[..n][j'] == headers[j'];
    }
  }

  /** `headers.get(key, '')`. */
  function HeaderOrEmpty(d: map<string, string>, key: string): string {
    if key in d then d[key] else ""
  }

  /** The value the loop reads for header `key` of a message. */
  function HeaderValue(headers: seq<Header>, key: string): string {
    HeaderOrEmpty(HeaderMap(headers), key)
  }

  function SubjectOf(e: Email): string {
    HeaderValue(e.headers, "Subject")
  }

  function FromOf(e: Email): string {
    HeaderValue(e.headers, "From")
  }

  /** A header the message lacks reads as the empty text; otherwise the value
      read is that of the last header with the name. */
  lemma HeaderLookup(headers: seq<Header>, key: string, j: nat)
    ensures !Named(headers, key) ==> HeaderValue(headers, key) == ""
    ensures j < |headers| && headers[j].name == key && LastNamed(headers, j) ==>
              HeaderValue(headers, key) == headers[j].value
  {
  }

  /** The subject and the sender a message is classified by: the empty text
      when it has no such header, and the value of the last one otherwise. */
  lemma SubjectAndSender(e: Email, j: nat)
    ensures !Named(e.headers, "Subject") ==> SubjectOf(e) == ""
    ensures !Named(e.headers, "From") ==> FromOf(e) == ""
    ensures j < |e.headers| && e.headers[j].name == "Subject" && LastNamed(e.headers, j) ==>
              SubjectOf(e) == e.headers[j].value
    ensures j < |e.headers| && e.headers[j].name == "From" && LastNamed(e.headers, j) ==>
              FromOf(e) == e.headers[j].value
  {
    HeaderLookup(e.headers, "Subject", j);
    HeaderLookup(e.headers, "From", j);
  }

  // ---------------------------------------------------------------------------
  // One message
  // ---------------------------------------------------------------------------

  /** The record the loop body appends for a fetched message, or `None` when
      the message is a job alert. A record's company and role are each the
      sentinel `"Unknown"` or a title-cased text. */
  function RecordOf(e: Email): (r: Option<Application>)
    ensures r.Some? ==> r.value.company == "Unknown" || Title(r.value.company) == r.value.company
    ensures r.Some? ==> r.value.role == "Unknown" || Title(r.value.role) == r.value.role
  {
    var subject := SubjectOf(e);
    var from := FromOf(e);
    if IsJobAlert(from, subject) then None
    else Some(Application(e.internalDate, ExtractCompany(from, subject), RoleOf(subject, e.body),
                          CategorizeStatus(subject, e.body), subject))
  }

  /** What the loop body makes of one fetched message: `None` when the fetch
      failed or the message is a job alert, and its record otherwise. */
  function Outcome(fetched: Option<Email>): Option<Application> {
    match fetched
    case None => None
    case Some(e) => RecordOf(e)
  }

  /** The outcomes of a run over `fetched`, message by message. */
  function Outcomes(fetched: seq<Option<Email>>): (r: seq<Option<Application>>)
    ensures |r| == |fetched|
    ensures forall i :: 0 <= i < |fetched| ==> r[i] == Outcome(fetched[i])
  {
    seq(|fetched|, i requires 0 <= i < |fetched| => Outcome(fetched[i]))
  }

  /** The records among `outcomes`, in order: what appending them one by one
      to `applications` adds. */
  function Kept(outcomes: seq<Option<Application>>): seq<Application> {
    if outcomes == [] then []
    else
      var n := |outcomes| - 1;
      Kept(outcomes[..n]) + (if outcomes[n].Some? then [outcomes[n].value] else [])
  }

  /** The records a run over `fetched` appends, in fetch order. */
  function Accepted(fetched: seq<Option<Email>>): seq<Application> {
    Kept(Outcomes(fetched))
  }

  /** Keeping the records of two lists of outcomes one after the other. */
  lemma {:induction false} KeptConcat(a: seq<Option<Application>>, b: seq<Option<Application>>)
    ensures Kept(a + b) == Kept(a) + Kept(b)
    decreases |b|
  {
    if b == [] {
      assert a + b == a;
    } else {
      var n := |b| - 1;
      assert (a + b)[..|a + b| - 1] == a + b[..n];
      assert (a + b)[|a + b| - 1] == b[n];
      KeptConcat(a, b[..n]);
    }
  }

  /** No list of outcomes holds more records than outcomes. */
  lemma {:induction false} KeptBound(outcomes: seq<Option<Application>>)
    ensures |Kept(outcomes)| <= |outcomes|
  {
    if outcomes != [] {
      KeptBound(outcomes[..|outcomes| - 1]);
    }
  }

  /** Every kept record is one of the outcomes. */
  lemma {:induction false} KeptFrom(outcomes: seq<Option<Application>>, k: nat)
    requires k < |Kept(outcomes)|
    ensures exists j :: 0 <= j < |outcomes| && outcomes[j] == Some(Kept(outcomes)[k])
  {
    var n := |outcomes| - 1;
    var front := Kept(outcomes[..n]);
    if k < |front| {
      KeptFrom(outcomes[..n], k);
      var j :| 0 <= j < n && outcomes[..n][j] == Some(front[k]);
      assert outcomes[j] == Some(Kept(outcomes)[k]);
    } else {
      assert outcomes[n] == Some(Kept(outcomes)[k]);
    }
  }

  /** Keeping the records of one more outcome appends that outcome's record,
      if any. */
  lemma KeptStep(outcomes: seq<Option<Application>>, n: nat)
    requires n < |outcomes|
    ensures Kept(outcomes[..n + 1]) == Kept(outcomes[..n]) + Kept([outcomes[n]])
  {
    assert outcomes[..n + 1][..n] == outcomes[..n];
  }

  /** A message contributes no record exactly when its fetch failed or it is
      a job alert. */
  lemma OutcomeShape(fetched: Option<Email>)
    ensures Outcome(fetched).None? <==> fetched.None? || IsJobAlert(FromOf(fetched.value), SubjectOf(fetched.value))
  {
  }

  /** The record of a message that is not noise carries the verbatim subject
      and the classifier's results for it. */
  lemma RecordFields(e: Email)
    requires !IsJobAlert(FromOf(e), SubjectOf(e))
    ensures RecordOf(e).Some?
    ensures var a := RecordOf(e).value;
      a.subject == SubjectOf(e) && a.date == e.internalDate
      && a.company == ExtractCompany(FromOf(e), SubjectOf(e))
      && a.role == RoleOf(SubjectOf(e), e.body)
      && a.status == CategorizeStatus(SubjectOf(e), e.body)
  {
  }

  /** Processing two runs one after the other appends their records in order. */
  lemma AcceptedConcat(a: seq<Option<Email>>, b: seq<Option<Email>>)
    ensures Accepted(a + b) == Accepted(a) + Accepted(b)
  {
    assert Outcomes(a + b) == Outcomes(a) + Outcomes(b) by {
      forall i | 0 <= i < |a + b| ensures Outcomes(a + b)[i] == (Outcomes(a) + Outcomes(b))[i] {
        if i < |a| {
          assert (a + b)[i] == a[i];
        } else {
          assert (a + b)[i] == b[i - |a|];
        }
      }
    }
    KeptConcat(Outcomes(a), Outcomes(b));
  }

  /** No run appends more records than it fetched messages. */
  lemma AcceptedBound(fetched: seq<Option<Email>>)
    ensures |Accepted(fetched)| <= |fetched|
  {
    KeptBound(Outcomes(fetched));
  }

  /** Every appended record is the record of some successfully fetched
      message, and so of one that is not a job alert. */
  lemma AcceptedFromMessages(fetched: seq<Option<Email>>, k: nat)
    requires k < |Accepted(fetched)|
    ensures exists j, e :: 0 <= j < |fetched| && fetched[j] == Some(e)
                           && !IsJobAlert(FromOf(e), SubjectOf(e)) && RecordOf(e) == Some(Accepted(fetched)[k])
  {
    var outs := Outcomes(fetched);
    KeptFrom(outs, k);
    var j :| 0 <= j < |outs| && outs[j] == Some(Kept(outs)[k]);
    var e := fetched[j].value;
    assert fetched[j] == Some(e);
  }

  // ---------------------------------------------------------------------------
  // The tracker
  // ---------------------------------------------------------------------------

  class JobApplicationTracker {
    var applications: seq<Application>

    constructor()
      ensures applications == []
    {
      applications := [];
    }

    /** The loop body of `analyze_applications` for one fetched message. */
    method ProcessEmail(fetched: Option<Email>)
      modifies this
      ensures applications == old(applications) + Kept([Outcome(fetched)])
    {
      if fetched.None? {
        return;
      }
      var e := fetched.value;
      var headers := HeaderMap(e.headers);
      var subject := HeaderOrEmpty(headers, "Subject");
      var from := HeaderOrEmpty(headers, "From");
      if IsJobAlert(from, subject) {
        return;
      }
      var role := ExtractRole(subject, e.body);
      var record := Application(e.internalDate, ExtractCompany(from, subject), role,
                                CategorizeStatus(subject, e.body), subject);
      applications := applications + [record];
    }

    /** The processing loop of `analyze_applications` over the fetched
        messages, in order. */
    method AnalyzeApplications(fetched: seq<Option<Email>>)
      modifies this
      ensures applications == old(applications) + Accepted(fetched)
    {
      ghost var outcomes := Outcomes(fetched);
      for n := 0 to |fetched|
        invariant applications == old(applications) + Kept(outcomes[..n])
      {
        ProcessEmail(fetched[n]);
        KeptStep(outcomes, n);
      }
      assert outcomes[..|fetched|] == outcomes;
    }
  }

  // ---------------------------------------------------------------------------
  // Key metrics
  // ---------------------------------------------------------------------------

  /** The number of records with status `status`. */
  function CountStatus(apps: seq<Application>, status: Status): (n: nat)
    ensures n <= |apps|
  {
    if apps == [] then 0
    else CountStatus(apps[..|apps| - 1], status) + (if apps[|apps| - 1].status == status then 1 else 0)
  }

  /** The three counts of the key metrics: applications sent, rejections, and
      interviews or assessments. */
  datatype Metrics = Metrics(applied: nat, rejected: nat, interviews: nat)

  /** The key metrics together with the Other records account for every
      record exactly once. */
  function KeyMetrics(apps: seq<Application>): (m: Metrics)
    ensures m.applied + m.rejected + m.interviews + CountStatus(apps, Other) == |apps|
  {
    StatusesPartition(apps);
    Metrics(CountStatus(apps, Applied), CountStatus(apps, Rejected),
            CountStatus(apps, Interview) + CountStatus(apps, Assessment))
  }

  /** Counting over two lists adds up. */
  lemma {:induction false} CountConcat(a: seq<Application>, b: seq<Application>, status: Status)
    ensures CountStatus(a + b, status) == CountStatus(a, status) + CountStatus(b, status)
    decreases |b|
  {
    if b == [] {
      assert a + b == a;
    } else {
      var n := |b| - 1;
      assert (a + b)[..|a + b| - 1] == a + b[..n];
      assert (a + b)[|a + b| - 1] == b[n];
      CountConcat(a, b[..n], status);
    }
  }

  /** The five statuses partition the records. */
  lemma {:induction false} StatusesPartition(apps: seq<Application>)
    ensures CountStatus(apps, Applied) + CountStatus(apps, Interview) + CountStatus(apps, Assessment)
            + CountStatus(apps, Rejected) + CountStatus(apps, Other) == |apps|
  {
    if apps != [] {
      StatusesPartition(apps[..|apps| - 1]);
    }
  }

  /** Appending records, as a further run does, never lowers a metric. */
  lemma MetricsGrow(apps: seq<Application>, more: seq<Application>)
    ensures var before := KeyMetrics(apps);
      var after := KeyMetrics(apps + more);
      before.applied <= after.applied && before.rejected <= after.rejected && before.interviews <= after.interviews
  {
    CountConcat(apps, more, Applied);
    CountConcat(apps, more, Rejected);
    CountConcat(apps, more, Interview);
    CountConcat(apps, more, Assessment);
  }

}
