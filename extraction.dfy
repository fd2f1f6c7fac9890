/**
 * `findRevisionsSpecified`: the candidate revisions of every issue, from
 * the requested text fields (every script) and, in `jira-find`, from the
 * commits the tracker links to the issue.
 */
module Extraction {
  import opened Wrappers
  import opened Text
  import opened RevisionTokens
  import opened Tracker
  import opened Revisions

  /** A linked commit: its id, whether it is a merge, and its author timestamp. */
  datatype Commit = Commit(id: string, merge: bool, authorTimestamp: int)

  /** The linked-commit endpoint: issue id to the commits of each repository. */
  type LinkedCommits = string -> seq<seq<Commit>>

  const CommentField := "comment"

  /** The tracker gives a text for a plain field and a thread for `comment` (or null). */
  predicate WellTyped(issue: Issue, fieldNames: seq<string>) {
    forall f :: f in fieldNames && f in issue.fields ==>
      match issue.fields[f]
      case Null => true
      case Text(_) => f != CommentField
      case Thread(_) => f == CommentField
      case Named(_) => false
  }

  /** The texts scanned for one field: none when absent or null, each comment body for `comment`. */
  function FieldTexts(issue: Issue, name: string): seq<string> {
    if name !in issue.fields then []
    else match issue.fields[name]
      case Text(t) => [t]
      case Thread(cs) => Bodies(cs)
      case _ => []
  }

  /** The bodies of a comment thread, in order. */
  function Bodies(cs: seq<Comment>): (r: seq<string>)
    ensures |r| == |cs| && forall i :: 0 <= i < |cs| ==> r[i] == cs[i].body
  {
    seq(|cs|, i requires 0 <= i < |cs| => cs[i].body)
  }

  /** The tokens of a list of texts, text after text. */
  function TokensOfTexts(texts: seq<string>): seq<string>
    decreases |texts|
  {
    if |texts| == 0 then [] else TokensOfTexts(texts[..|texts| - 1]) + Tokens(texts[|texts| - 1])
  }

  /** The text-derived candidates of an issue: field after field in the requested order. */
  function TextCandidates(issue: Issue, fieldNames: seq<string>): seq<string>
    decreases |fieldNames|
  {
    if |fieldNames| == 0 then []
    else TextCandidates(issue, fieldNames[..|fieldNames| - 1]) + TokensOfTexts(FieldTexts(issue, fieldNames[|fieldNames| - 1]))
  }

  // ------------------------------------------------------------- linked commits

  /** `[c for c in commits if not c["merge"]]` */
  function NonMerges(commits: seq<Commit>): (r: seq<Commit>)
    ensures forall c :: c in r <==> c in commits && !c.merge
    decreases |commits|
  {
    if |commits| == 0 then []
    else (if commits[0].merge then [] else [commits[0]]) + NonMerges(commits[1..])
  }

  /**
   * `sorted(commits, key=authorTimestamp, reverse=True)[0]`: Python's sort is
   * stable even when reversed, so this is the first commit of greatest timestamp.
   */
  function Latest(commits: seq<Commit>): Commit
    requires |commits| > 0
    decreases |commits|
  {
    if |commits| == 1 then commits[0]
    else
      var rest := Latest(commits[1..]);
      if commits[0].authorTimestamp >= rest.authorTimestamp then commits[0] else rest
  }

  /** `commits[i]` is later than every commit before it. */
  predicate LaterThanAllBefore(commits: seq<Commit>, i: int) {
    0 <= i < |commits| && forall j :: 0 <= j < i ==> commits[j].authorTimestamp < commits[i].authorTimestamp
  }

  lemma {:induction false} LatestIsFirstGreatest(commits: seq<Commit>)
    requires |commits| > 0
    ensures exists i :: LaterThanAllBefore(commits, i) && commits[i] == Latest(commits)
    ensures forall c :: c in commits ==> c.authorTimestamp <= Latest(commits).authorTimestamp
    decreases |commits|
  {
    if |commits| > 1 {
      var tail := commits[1..];
      LatestIsFirstGreatest(tail);
      var rest := Latest(tail);
      var latest := Latest(commits);
      assert latest == if commits[0].authorTimestamp >= rest.authorTimestamp then commits[0] else rest;
      if commits[0].authorTimestamp < rest.authorTimestamp {
        var i :| LaterThanAllBefore(tail, i) && tail[i] == rest;
        assert commits[i + 1] == latest;
        forall j | 0 <= j < i + 1
          ensures commits[j].authorTimestamp < commits[i + 1].authorTimestamp
        {
          if j > 0 {
            assert commits[j] == tail[j - 1];
          }
        }
        assert LaterThanAllBefore(commits, i + 1) && commits[i + 1] == latest;
      } else {
        assert LaterThanAllBefore(commits, 0) && commits[0] == latest;
      }
      forall c | c in commits
        ensures c.authorTimestamp <= latest.authorTimestamp
      {
        var k :| 0 <= k < |commits| && commits[k] == c;
        if k > 0 {
          assert tail[k - 1] == c;
        }
      }
    } else {
      assert LaterThanAllBefore(commits, 0) && commits[0] == Latest(commits);
    }
  }

  /** The candidate one repository group adds: its latest non-merge commit, if any. */
  function GroupCandidate(group: seq<Commit>): Option<string> {
    var nonMerges := NonMerges(group);
    if |nonMerges| > 0 then Some(Latest(nonMerges).id) else None
  }

  /**
   * A group adds a candidate exactly when it has a non-merge commit, and the
   * candidate is a non-merge commit whose timestamp no other non-merge
   * commit of the group exceeds.
   */
  lemma GroupCandidateIsLatest(group: seq<Commit>)
    ensures GroupCandidate(group).None? <==> forall c :: c in group ==> c.merge
    ensures GroupCandidate(group).Some? ==>
      exists c :: c in group && !c.merge && c.id == GroupCandidate(group).value
        && forall d :: d in group && !d.merge ==> d.authorTimestamp <= c.authorTimestamp
  {
    var nonMerges := NonMerges(group);
    if |nonMerges| > 0 {
      LatestIsFirstGreatest(nonMerges);
      assert Latest(nonMerges) in nonMerges;
    }
  }

  /** The candidates the linked-commit groups add, group after group. */
  function LinkedCandidates(groups: seq<seq<Commit>>): (r: seq<string>)
    ensures |r| <= |groups|
    decreases |groups|
  {
    if |groups| == 0 then []
    else
      LinkedCandidates(groups[..|groups| - 1])
        + match GroupCandidate(groups[|groups| - 1]) case Some(id) => [id] case None => []
  }

  /** Every candidate of an issue: text first, then (with the linked source) one per group. */
  function Candidates(issue: Issue, fieldNames: seq<string>, linked: Option<LinkedCommits>): seq<string> {
    TextCandidates(issue, fieldNames)
      + match linked case Some(l) => LinkedCandidates(l(issue.id)) case None => []
  }

  /** The candidate texts by issue key; a later issue with the same key replaces an earlier one. */
  function CandidateMap(issues: seq<Issue>, fieldNames: seq<string>, linked: Option<LinkedCommits>): map<string, seq<string>>
    decreases |issues|
  {
    if |issues| == 0 then map[]
    else
      var last := issues[|issues| - 1];
      CandidateMap(issues[..|issues| - 1], fieldNames, linked)[last.key := Candidates(last, fieldNames, linked)]
  }

  /** Every issue has an entry, holding the candidates of the last issue with that key. */
  lemma {:induction false} CandidateMapLastWins(issues: seq<Issue>, fieldNames: seq<string>, linked: Option<LinkedCommits>, i: nat)
    requires i < |issues|
    requires forall j :: i < j < |issues| ==> issues[j].key != issues[i].key
    ensures issues[i].key in CandidateMap(issues, fieldNames, linked)
    ensures CandidateMap(issues, fieldNames, linked)[issues[i].key] == Candidates(issues[i], fieldNames, linked)
    decreases |issues|
  {
    if i < |issues| - 1 {
      var init := issues[..|issues| - 1];
      CandidateMapLastWins(init, fieldNames, linked, i);
      assert init[i] == issues[i];
    }
  }

  lemma {:induction false} CandidateMapKeys(issues: seq<Issue>, fieldNames: seq<string>, linked: Option<LinkedCommits>)
    ensures CandidateMap(issues, fieldNames, linked).Keys == set i | 0 <= i < |issues| :: issues[i].key
    decreases |issues|
  {
    if |issues| > 0 {
      var init := issues[..|issues| - 1];
      CandidateMapKeys(init, fieldNames, linked);
      assert forall i :: 0 <= i < |init| ==> init[i] == issues[i];
    }
  }

  // ---------------------------------------------------------------- the method

  /** Append a fresh specifier for every match in `text` (the nested `findRevisions`). */
  method FindRevisions(found: seq<RevisionSpecifier>, text: string) returns (extended: seq<RevisionSpecifier>)
    ensures Texts(extended) == Texts(found) + Tokens(text)
    ensures extended[..|found|] == found
    ensures forall r :: r in extended && r !in found ==> fresh(r) && r.gitModule == None && !r.isReachable
  {
    var tokens := ScanText(text);
    extended := found;
    for t := 0 to |tokens|
      invariant Texts(extended) == Texts(found) + tokens[..t]
      invariant extended[..|found|] == found
      invariant forall r :: r in extended && r !in found ==> fresh(r) && r.gitModule == None && !r.isReachable
    {
      var rev := new RevisionSpecifier(tokens[t]);
      assert tokens[..t + 1] == tokens[..t] + [tokens[t]];
      extended := extended + [rev];
    }
    assert tokens[..|tokens|] == tokens;
  }

  /** All texts of `map k | k in revs :: Texts(revs[k])`. */
  function TextMap(revs: Revisions): (m: map<string, seq<string>>)
    ensures m.Keys == revs.Keys
  {
    map k | k in revs :: Texts(revs[k])
  }

  /** The specifiers a comment thread adds to `found`: the bodies' matches, comment after comment. */
  method ThreadRevisions(found: seq<RevisionSpecifier>, comments: seq<Comment>) returns (extended: seq<RevisionSpecifier>)
    ensures Texts(extended) == Texts(found) + TokensOfTexts(Bodies(comments))
    ensures forall r :: r in extended && r !in found ==> fresh(r) && r.gitModule == None && !r.isReachable
    ensures forall r :: r in found ==> r in extended
  {
    var bodies := Bodies(comments);
    extended := found;
    for c := 0 to |comments|
      invariant Texts(extended) == Texts(found) + TokensOfTexts(bodies[..c])
      invariant forall r :: r in extended && r !in found ==> fresh(r) && r.gitModule == None && !r.isReachable
      invariant forall r :: r in found ==> r in extended
    {
      assert bodies[..c + 1][..c] == bodies[..c];
      assert bodies[..c + 1][c] == comments[c].body;
      extended := FindRevisions(extended, comments[c].body);
    }
    assert bodies[..|comments|] == bodies;
  }

  /** The specifiers one requested field adds to `found`. */
  method FieldRevisions(found: seq<RevisionSpecifier>, issue: Issue, name: string) returns (extended: seq<RevisionSpecifier>)
    requires WellTyped(issue, [name])
    ensures Texts(extended) == Texts(found) + TokensOfTexts(FieldTexts(issue, name))
    ensures forall r :: r in extended && r !in found ==> fresh(r) && r.gitModule == None && !r.isReachable
    ensures forall r :: r in found ==> r in extended
  {
    extended := found;
    var field := if name in issue.fields then issue.fields[name] else Null;
    if field != Null {
      if name == CommentField {
        assert field.Thread?;
        extended := ThreadRevisions(extended, field.comments);
      } else {
        extended := FindRevisions(extended, field.text);
        assert FieldTexts(issue, name) == [field.text];
        assert FieldTexts(issue, name)[..0] == [];
      }
    }
  }

  /** The specifiers the linked-commit groups add to `found`: one per group with a non-merge commit. */
  method LinkedRevisions(found: seq<RevisionSpecifier>, groups: seq<seq<Commit>>) returns (extended: seq<RevisionSpecifier>)
    ensures Texts(extended) == Texts(found) + LinkedCandidates(groups)
    ensures forall r :: r in extended && r !in found ==> fresh(r) && r.gitModule == None && !r.isReachable
    ensures forall r :: r in found ==> r in extended
  {
    extended := found;
    for g := 0 to |groups|
      invariant Texts(extended) == Texts(found) + LinkedCandidates(groups[..g])
      invariant forall r :: r in extended && r !in found ==> fresh(r) && r.gitModule == None && !r.isReachable
      invariant forall r :: r in found ==> r in extended
    {
      assert groups[..g + 1][..g] == groups[..g];
      var nonMerges := NonMerges(groups[g]);
      if |nonMerges| > 0 {
        var latestCommit := Latest(nonMerges);
        var rev := new RevisionSpecifier(latestCommit.id);
        extended := extended + [rev];
      }
    }
    assert groups[..|groups|] == groups;
  }

  /** The specifiers of one issue, in candidate order. */
  method IssueRevisions(issue: Issue, fieldNames: seq<string>, linked: Option<LinkedCommits>) returns (found: seq<RevisionSpecifier>)
    requires WellTyped(issue, fieldNames)
    ensures Texts(found) == Candidates(issue, fieldNames, linked)
    ensures forall r :: r in found ==> fresh(r) && r.gitModule == None && !r.isReachable
  {
    found := [];
    for f := 0 to |fieldNames|
      invariant Texts(found) == TextCandidates(issue, fieldNames[..f])
      invariant forall r :: r in found ==> fresh(r) && r.gitModule == None && !r.isReachable
    {
      assert fieldNames[..f + 1][..f] == fieldNames[..f];
      found := FieldRevisions(found, issue, fieldNames[f]);
    }
    assert fieldNames[..|fieldNames|] == fieldNames;
    if linked.Some? {
      found := LinkedRevisions(found, linked.value(issue.id));
    }
  }

  /** Storing the next issue's specifiers extends the map by that issue. */
  lemma CandidateMapStep(issues: seq<Issue>, fieldNames: seq<string>, linked: Option<LinkedCommits>, n: nat,
                         revs: Revisions, found: seq<RevisionSpecifier>)
    requires n < |issues|
    requires TextMap(revs) == CandidateMap(issues[..n], fieldNames, linked)
    requires Texts(found) == Candidates(issues[n], fieldNames, linked)
    ensures TextMap(revs[issues[n].key := found]) == CandidateMap(issues[..n + 1], fieldNames, linked)
  {
    assert issues[..n + 1][..n] == issues[..n];
    assert issues[..n + 1][n] == issues[n];
    TextMapUpdate(revs, issues[n].key, found);
  }

  lemma TextMapUpdate(revs: Revisions, k: string, found: seq<RevisionSpecifier>)
    ensures TextMap(revs[k := found]) == TextMap(revs)[k := Texts(found)]
  {
    var m1 := TextMap(revs[k := found]);
    var m2 := TextMap(revs)[k := Texts(found)];
    assert m1.Keys == m2.Keys;
    forall j | j in m1
      ensures m1[j] == m2[j]
    {
    }
  }

  /**
   * `findRevisionsSpecified`: per issue, a fresh unverified specifier for
   * every candidate, in candidate order. `linked` is `None` for
   * `git-jira-log`, which has no linked-commit source.
   */
  method FindRevisionsSpecified(issues: seq<Issue>, fieldNames: seq<string>, linked: Option<LinkedCommits>)
    returns (revs: Revisions)
    requires forall i :: 0 <= i < |issues| ==> WellTyped(issues[i], fieldNames)
    ensures TextMap(revs) == CandidateMap(issues, fieldNames, linked)
    ensures forall k :: k in revs ==> forall r :: r in revs[k] ==> fresh(r) && r.gitModule == None && !r.isReachable
  {
    revs := map[];
    for n := 0 to |issues|
      invariant TextMap(revs) == CandidateMap(issues[..n], fieldNames, linked)
      invariant forall k :: k in revs ==> forall r :: r in revs[k] ==> fresh(r) && r.gitModule == None && !r.isReachable
    {
      var issue := issues[n];
      var found := IssueRevisions(issue, fieldNames, linked);
      CandidateMapStep(issues, fieldNames, linked, n, revs, found);
      revs := revs[issue.key := found];
    }
    assert issues[..|issues|] == issues;
  }
}
