/**
 * `printIssues`: every (issue, revision) pair of the selected map becomes
 * one output record. The two scripts differ in one place: `jira-find`
 * reports a null resolution as `Unresolved`, `git-jira-log` reads its
 * `name` unguarded and dies.
 */
module Projection {
  import opened Wrappers
  import opened Tracker
  import opened Revisions
  import opened Dicts

  /** The resolution `jira-find` reports for an issue whose resolution is null. */
  const Unresolved: string := "Unresolved"

  /** One output record; `repository` is JSON null for a revision without a module. */
  datatype Record = Record(key: string, endpoint: string, summary: FieldValue, resolution: string,
                           revision: string, repository: Option<string>)

  /**
   * Why `printIssues` dies before printing anything: no issue has the key
   * (the first element of an empty list), a field is missing (KeyError), a
   * null resolution in `git-jira-log`, or a resolution that is not an object
   * with a name.
   */
  datatype ProjectionError =
    | NoSuchIssue(key: string)
    | MissingField(key: string, name: string)
    | NullResolution(key: string)
    | NamelessResolution(key: string)

  /** `[i for i in issues if i['key'] == key][0]`: the first issue with that key. */
  function FirstIssue(issues: seq<Issue>, key: string): (r: Option<Issue>)
    ensures r.None? <==> forall i :: 0 <= i < |issues| ==> issues[i].key != key
    ensures r.Some? ==> exists i :: (0 <= i < |issues| && issues[i] == r.value && r.value.key == key
      && forall j :: 0 <= j < i ==> issues[j].key != key)
  {
    if |issues| == 0 then None
    else if issues[0].key == key then Some(issues[0])
    else
      var r := FirstIssue(issues[1..], key);
      assert forall i :: 1 <= i < |issues| ==> issues[i] == issues[1..][i - 1];
      r
  }

  /**
   * The resolution's name. `jira-find` (`guarded`) tests the value's truth
   * first: null and the empty text give `Unresolved`.
   */
  function ResolutionName(key: string, v: FieldValue, guarded: bool): (r: Result<string, ProjectionError>)
    ensures v.Named? ==> r == Ok(v.name)
    ensures v.Null? ==> r == if guarded then Ok(Unresolved) else Err(NullResolution(key))
  {
    match v
    case Named(name) => Ok(name)
    case Null => if guarded then Ok(Unresolved) else Err(NullResolution(key))
    case Text(t) => if guarded && t == "" then Ok(Unresolved) else Err(NamelessResolution(key))
    case Thread(_) => Err(NamelessResolution(key))
  }

  /** The summary and resolution every record of `issue` carries, read as the dict literal reads them. */
  function IssueFields(issue: Issue, guarded: bool): Result<(FieldValue, string), ProjectionError> {
    if "summary" !in issue.fields then Err(MissingField(issue.key, "summary"))
    else if "resolution" !in issue.fields then Err(MissingField(issue.key, "resolution"))
    else match ResolutionName(issue.key, issue.fields["resolution"], guarded)
      case Err(e) => Err(e)
      case Ok(name) => Ok((issue.fields["summary"], name))
  }

  /** `rev.module.url if rev.module else None` */
  function RepositoryOf(s: RevisionState): Option<string> {
    match s.gitModule
    case None => None
    case Some(m) => Some(m.url)
  }

  function RecordOf(key: string, endpoint: string, summary: FieldValue, resolution: string, s: RevisionState): Record {
    Record(key, endpoint, summary, resolution, s.revision, RepositoryOf(s))
  }

  /** The records of one issue's revisions, in list order. */
  function RevisionRecords(key: string, endpoint: string, summary: FieldValue, resolution: string,
                           ss: seq<RevisionState>): (rs: seq<Record>)
    ensures |rs| == |ss|
  {
    if |ss| == 0 then []
    else RevisionRecords(key, endpoint, summary, resolution, ss[..|ss| - 1])
         + [RecordOf(key, endpoint, summary, resolution, ss[|ss| - 1])]
  }

  /**
   * What the outer loop's body produces for `key`: the lookup fails first;
   * the fields are only read when there is a revision to report.
   */
  function IssueRecords(issues: seq<Issue>, key: string, ss: seq<RevisionState>, endpoint: string, guarded: bool)
    : Result<seq<Record>, ProjectionError>
  {
    match FirstIssue(issues, key)
    case None => Err(NoSuchIssue(key))
    case Some(issue) =>
      if |ss| == 0 then Ok([])
      else WithFields(IssueFields(issue, guarded), key, endpoint, ss)
  }

  /** The records of the revisions `ss` once the issue's fields are read, or the failure reading them. */
  function WithFields(fields: Result<(FieldValue, string), ProjectionError>, key: string, endpoint: string,
                      ss: seq<RevisionState>): Result<seq<Record>, ProjectionError>
  {
    match fields
    case Err(e) => Err(e)
    case Ok(f) => Ok(RevisionRecords(key, endpoint, f.0, f.1, ss))
  }

  /** Records already printed followed by the next issue's, or that issue's failure. */
  function Then(rs: seq<Record>, next: Result<seq<Record>, ProjectionError>): Result<seq<Record>, ProjectionError> {
    match next
    case Err(e) => Err(e)
    case Ok(more) => Ok(rs + more)
  }

  /** The records of the issues in `order`, or the first failure in that order. */
  function RecordsInOrder(issues: seq<Issue>, snap: map<string, seq<RevisionState>>, order: seq<string>,
                          endpoint: string, guarded: bool): Result<seq<Record>, ProjectionError>
    requires forall k :: k in order ==> k in snap
  {
    if |order| == 0 then Ok([])
    else match RecordsInOrder(issues, snap, order[..|order| - 1], endpoint, guarded)
      case Err(e) => Err(e)
      case Ok(rs) =>
        var k := order[|order| - 1];
        Then(rs, IssueRecords(issues, k, snap[k], endpoint, guarded))
  }

  /** The number of (issue, revision) pairs of the issues in `order`. */
  function PairCount(snap: map<string, seq<RevisionState>>, order: seq<string>): nat
    requires forall k :: k in order ==> k in snap
  {
    if |order| == 0 then 0 else PairCount(snap, order[..|order| - 1]) + |snap[order[|order| - 1]]|
  }

  /**
   * An issue's records: one per revision, in list order, carrying the issue
   * key, the endpoint, the revision and its module's URL, or no URL at all
   * when it has no module. An empty list gives no record and reads no field.
   */
  lemma {:induction false} RevisionRecordsMeaning(key: string, endpoint: string, summary: FieldValue, resolution: string,
                                                  ss: seq<RevisionState>)
    ensures var rs := RevisionRecords(key, endpoint, summary, resolution, ss);
      forall i :: 0 <= i < |ss| ==>
        rs[i].key == key && rs[i].endpoint == endpoint && rs[i].summary == summary && rs[i].resolution == resolution
        && rs[i].revision == ss[i].revision
        && (rs[i].repository.None? <==> ss[i].gitModule.None?)
        && (ss[i].gitModule.Some? ==> rs[i].repository == Some(ss[i].gitModule.value.url))
    decreases |ss|
  {
    if |ss| > 0 {
      var init := ss[..|ss| - 1];
      RevisionRecordsMeaning(key, endpoint, summary, resolution, init);
      assert forall i :: 0 <= i < |init| ==> init[i] == ss[i];
    }
  }

  /**
   * An issue with revisions is reported with its summary and its resolution
   * name; a null resolution is `Unresolved` in `jira-find` and fatal in
   * `git-jira-log`. An issue without revisions gives no record.
   */
  lemma IssueRecordsCases(issues: seq<Issue>, key: string, ss: seq<RevisionState>, endpoint: string, guarded: bool)
    ensures FirstIssue(issues, key).None? ==> IssueRecords(issues, key, ss, endpoint, guarded) == Err(NoSuchIssue(key))
    ensures FirstIssue(issues, key).Some? && |ss| == 0 ==> IssueRecords(issues, key, ss, endpoint, guarded) == Ok([])
    ensures var r := IssueRecords(issues, key, ss, endpoint, guarded);
      r.Ok? ==> |r.value| == |ss| && forall i :: 0 <= i < |ss| ==>
        r.value[i].key == key && r.value[i].revision == ss[i].revision
        && (r.value[i].repository.None? <==> ss[i].gitModule.None?)
        && r.value[i].summary == FirstIssue(issues, key).value.fields["summary"]
    ensures FirstIssue(issues, key).Some? && |ss| > 0 ==>
      var fs := FirstIssue(issues, key).value.fields;
      "summary" in fs && "resolution" in fs && fs["resolution"].Null? ==>
        IssueRecords(issues, key, ss, endpoint, guarded) ==
          if guarded then Ok(RevisionRecords(key, endpoint, fs["summary"], Unresolved, ss))
          else Err(NullResolution(key))
  {
    match FirstIssue(issues, key)
    case None =>
    case Some(issue) =>
      if |ss| > 0 {
        match IssueFields(issue, guarded)
        case Err(e) =>
        case Ok(fields) =>
          RevisionRecordsMeaning(key, endpoint, fields.0, fields.1, ss);
      }
  }

  /**
   * Printing succeeds exactly when every issue's records can be built; then
   * there is one record per (issue, revision) pair, each issue's records
   * appear among them, and every record comes from one issue. A failure is
   * one issue's failure.
   */
  lemma {:induction false} RecordsInOrderMeaning(issues: seq<Issue>, snap: map<string, seq<RevisionState>>, order: seq<string>,
                                                 endpoint: string, guarded: bool)
    requires forall k :: k in order ==> k in snap
    ensures var r := RecordsInOrder(issues, snap, order, endpoint, guarded);
      r.Ok? <==> forall k :: k in order ==> IssueRecords(issues, k, snap[k], endpoint, guarded).Ok?
    ensures var r := RecordsInOrder(issues, snap, order, endpoint, guarded);
      r.Ok? ==> (|r.value| == PairCount(snap, order)
        && (forall k, x :: k in order && x in IssueRecords(issues, k, snap[k], endpoint, guarded).value ==> x in r.value)
        && (forall x :: x in r.value ==> exists k :: k in order && x in IssueRecords(issues, k, snap[k], endpoint, guarded).value))
    ensures var r := RecordsInOrder(issues, snap, order, endpoint, guarded);
      r.Err? ==> exists k :: k in order && IssueRecords(issues, k, snap[k], endpoint, guarded) == Err(r.error)
    decreases |order|
  {
    if |order| > 0 {
      var init := order[..|order| - 1];
      var k := order[|order| - 1];
      assert forall j :: j in order <==> j in init || j == k;
      RecordsInOrderMeaning(issues, snap, init, endpoint, guarded);
      IssueRecordsCases(issues, k, snap[k], endpoint, guarded);
    }
  }

  /** `for rev in revSpecifiers`: the records of one issue, or the failure reading its fields. */
  method RecordsOfIssue(issue: Issue, key: string, endpoint: string, guarded: bool, specs: seq<RevisionSpecifier>)
    returns (r: Result<seq<Record>, ProjectionError>)
    ensures |specs| == 0 ==> r == Ok([])
    ensures |specs| > 0 ==> r == WithFields(IssueFields(issue, guarded), key, endpoint, States(specs))
  {
    ghost var ss := States(specs);
    var records: seq<Record> := [];
    for i := 0 to |specs|
      invariant i > 0 ==> IssueFields(issue, guarded).Ok?
      invariant i > 0 ==> records == RevisionRecords(key, endpoint, IssueFields(issue, guarded).value.0,
                                                     IssueFields(issue, guarded).value.1, ss[..i])
      invariant i == 0 ==> records == []
    {
      var fields := IssueFields(issue, guarded);
      if fields.Err? {
        return Err(fields.error);
      }
      var rev := specs[i];
      var repository := if rev.gitModule.Some? then Some(rev.gitModule.value.url) else None;
      assert ss[..i + 1][..i] == ss[..i];
      assert Record(key, endpoint, fields.value.0, fields.value.1, rev.revision, repository)
          == RecordOf(key, endpoint, fields.value.0, fields.value.1, ss[..i + 1][i]);
      records := records + [Record(key, endpoint, fields.value.0, fields.value.1, rev.revision, repository)];
    }
    assert ss[..|specs|] == ss;
    return Ok(records);
  }

  /** `[i for i in issues if i['key'] == issueKey][0]` */
  method FindIssue(issues: seq<Issue>, key: string) returns (issue: Option<Issue>)
    ensures issue == FirstIssue(issues, key)
  {
    var matching: seq<Issue> := [];
    for i := 0 to |issues|
      invariant (matching == []) == FirstIssue(issues[..i], key).None?
      invariant matching != [] ==> matching[0] == FirstIssue(issues[..i], key).value
    {
      FirstIssueStep(issues, key, i);
      if issues[i].key == key {
        matching := matching + [issues[i]];
      }
    }
    assert issues[..|issues|] == issues;
    if matching == [] {
      return None;
    }
    return Some(matching[0]);
  }

  /** Extending the searched prefix by one issue changes the first match only if there was none. */
  lemma FirstIssueStep(issues: seq<Issue>, key: string, i: nat)
    requires i < |issues|
    ensures FirstIssue(issues[..i + 1], key) ==
      if FirstIssue(issues[..i], key).Some? then FirstIssue(issues[..i], key)
      else if issues[i].key == key then Some(issues[i])
      else None
  {
    FirstIssueAppend(issues[..i], issues[i], key);
    assert issues[..i + 1] == issues[..i] + [issues[i]];
  }

  lemma {:induction false} FirstIssueAppend(issues: seq<Issue>, last: Issue, key: string)
    ensures FirstIssue(issues + [last], key) ==
      if FirstIssue(issues, key).Some? then FirstIssue(issues, key)
      else if last.key == key then Some(last)
      else None
    decreases |issues|
  {
    if |issues| > 0 {
      assert (issues + [last])[1..] == issues[1..] + [last];
      FirstIssueAppend(issues[1..], last, key);
    }
  }

  /** The body of `printIssues`' outer loop: look the issue up, then report its revisions. */
  method ReportIssue(issues: seq<Issue>, key: string, endpoint: string, guarded: bool, specs: seq<RevisionSpecifier>)
    returns (r: Result<seq<Record>, ProjectionError>)
    ensures r == IssueRecords(issues, key, States(specs), endpoint, guarded)
  {
    var issue := FindIssue(issues, key);
    if issue.None? {
      return Err(NoSuchIssue(key));
    }
    r := RecordsOfIssue(issue.value, key, endpoint, guarded, specs);
  }

  /** Reporting one more issue: its records follow, or its failure ends the output. */
  lemma RecordsInOrderStep(issues: seq<Issue>, snap: map<string, seq<RevisionState>>, keys: seq<string>, i: nat,
                           endpoint: string, guarded: bool)
    requires i < |keys|
    requires forall k :: k in keys ==> k in snap
    ensures forall k :: k in keys[..i] ==> k in snap
    ensures forall k :: k in keys[..i + 1] ==> k in snap
    ensures RecordsInOrder(issues, snap, keys[..i], endpoint, guarded).Ok? ==>
      RecordsInOrder(issues, snap, keys[..i + 1], endpoint, guarded) ==
        Then(RecordsInOrder(issues, snap, keys[..i], endpoint, guarded).value,
             IssueRecords(issues, keys[i], snap[keys[i]], endpoint, guarded))
  {
    assert keys[..i + 1][..i] == keys[..i];
  }

  /**
   * `printIssues(issues, selected)`: the records of every selected issue,
   * issue by issue in the map's iteration order (`order`, an enumeration of
   * its keys), or the first failure, which ends the script.
   */
  method PrintIssues(issues: seq<Issue>, selected: Revisions, endpoint: string, guarded: bool)
    returns (r: Result<seq<Record>, ProjectionError>, ghost order: seq<string>)
    ensures forall k :: k in order ==> k in selected
    ensures r.Ok? ==> (forall k :: k in selected ==> k in order) && |order| == |selected.Keys|
    ensures r == RecordsInOrder(issues, Snapshot(selected), order, endpoint, guarded)
  {
    var keys := IterationOrder(selected);
    ghost var snap := Snapshot(selected);
    var reachablesJSON: seq<Record> := [];
    r := Ok([]);
    order := [];
    for i := 0 to |keys|
      invariant order == keys[..i]
      invariant RecordsInOrder(issues, snap, order, endpoint, guarded) == Ok(reachablesJSON)
    {
      var key := keys[i];
      RecordsInOrderStep(issues, snap, keys, i, endpoint, guarded);
      assert States(selected[key]) == snap[key];
      var records := ReportIssue(issues, key, endpoint, guarded, selected[key]);
      order := keys[..i + 1];
      if records.Err? {
        r := Err(records.error);
        break;
      }
      reachablesJSON := reachablesJSON + records.value;
    }
    if r.Ok? {
      assert keys[..|keys|] == keys;
      r := Ok(reachablesJSON);
    }
    forall k | k in selected
      ensures States(selected[k]) == snap[k]
    {
    }
    SnapshotIs(selected, snap);
  }
}
