/**
 * `filterReachables`, `filterUnreachables`, `filterOrphants` and the
 * flag-driven choice of which of them a script prints.
 */
module Classification {
  import opened Revisions

  /** A revision with a module that is reachable from that module's head. */
  predicate IsReachableRevision(s: RevisionState) {
    s.gitModule.Some? && s.isReachable
  }

  predicate HasReachable(ss: seq<RevisionState>) {
    exists i :: 0 <= i < |ss| && IsReachableRevision(ss[i])
  }

  predicate HasModule(ss: seq<RevisionState>) {
    exists i :: 0 <= i < |ss| && ss[i].gitModule.Some?
  }

  /** The issues `filterReachables` keeps. */
  function ReachableKeys(snap: map<string, seq<RevisionState>>): set<string> {
    set k | k in snap && HasReachable(snap[k])
  }

  /** The issues `filterUnreachables` keeps: all without a reachable revision. */
  function UnreachableKeys(snap: map<string, seq<RevisionState>>): set<string> {
    set k | k in snap && !HasReachable(snap[k])
  }

  /** The issues `filterOrphants` keeps: all without a revision that has a module. */
  function OrphanKeys(snap: map<string, seq<RevisionState>>): set<string> {
    set k | k in snap && !HasModule(snap[k])
  }

  /**
   * Reachables and unreachables split the issues; orphans are unreachables.
   * Issues that are unreachable but not orphans are those with a module but
   * nothing reachable.
   */
  lemma Partition(snap: map<string, seq<RevisionState>>)
    ensures ReachableKeys(snap) + UnreachableKeys(snap) == snap.Keys
    ensures ReachableKeys(snap) !! UnreachableKeys(snap)
    ensures OrphanKeys(snap) <= UnreachableKeys(snap)
    ensures forall k :: k in UnreachableKeys(snap) - OrphanKeys(snap) <==>
      k in snap && HasModule(snap[k]) && !HasReachable(snap[k])
  {
  }

  /** Every issue's revision list, unfiltered, for the keys in `keys`. */
  predicate KeepsLists(out: Revisions, revs: Revisions, keys: set<string>) {
    out.Keys == keys && forall k :: k in out ==> k in revs && out[k] == revs[k]
  }

  /** The inner loop of `filterReachables`: every reachable revision (re)assigns the issue's list. */
  method KeepIfReachable(reachables: Revisions, key: string, specs: seq<RevisionSpecifier>) returns (updated: Revisions)
    ensures updated == if HasReachable(States(specs)) then reachables[key := specs] else reachables
  {
    ghost var ss := States(specs);
    updated := reachables;
    for i := 0 to |specs|
      invariant updated == if HasReachable(ss[..i]) then reachables[key := specs] else reachables
    {
      assert forall j :: 0 <= j < i ==> ss[..i + 1][j] == ss[..i][j];
      if specs[i].gitModule.Some? && specs[i].isReachable {
        assert IsReachableRevision(ss[..i + 1][i]);
        updated := updated[key := specs];
      }
    }
    assert ss[..|specs|] == ss;
  }

  /**
   * One step of the filters' loops: moving `key` out of `remaining` keeps the
   * processed part of `keys` exactly when the issue's list is copied iff the
   * key belongs to `keys`.
   */
  lemma KeepsListsStep(out: Revisions, revs: Revisions, keys: set<string>, remaining: set<string>, key: string, keep: bool)
    requires KeepsLists(out, revs, keys - remaining)
    requires key in remaining && remaining <= revs.Keys
    requires keep <==> key in keys
    ensures KeepsLists(if keep then out[key := revs[key]] else out, revs, keys - (remaining - {key}))
  {
    assert keys - (remaining - {key}) == (keys - remaining) + if keep then {key} else {};
  }

  /** `filterReachables` */
  method FilterReachables(revs: Revisions) returns (reachables: Revisions)
    ensures KeepsLists(reachables, revs, ReachableKeys(Snapshot(revs)))
  {
    ghost var snap := Snapshot(revs);
    reachables := map[];
    var remaining := revs.Keys;
    while remaining != {}
      invariant remaining <= revs.Keys
      invariant KeepsLists(reachables, revs, ReachableKeys(snap) - remaining)
      decreases remaining
    {
      var key :| key in remaining;
      var r := KeepIfReachable(reachables, key, revs[key]);
      assert States(revs[key]) == snap[key];
      KeepsListsStep(reachables, revs, ReachableKeys(snap), remaining, key, HasReachable(snap[key]));
      reachables := r;
      remaining := remaining - {key};
    }
  }

  /** The loop with `break` of `filterUnreachables`: does any revision have a module and reach? */
  method IssueIsReachable(specs: seq<RevisionSpecifier>) returns (issueIsReachable: bool)
    ensures issueIsReachable == HasReachable(States(specs))
  {
    issueIsReachable := false;
    var i := 0;
    while i < |specs|
      invariant i <= |specs|
      invariant forall j :: 0 <= j < i ==> !IsReachableRevision(StateOf(specs[j]))
    {
      if specs[i].gitModule.Some? && specs[i].isReachable {
        issueIsReachable := true;
        assert IsReachableRevision(States(specs)[i]);
        break;
      }
      i := i + 1;
    }
  }

  /** The loop with `break` of `filterOrphants`: does any revision have a module? */
  method HasValidRevisions(specs: seq<RevisionSpecifier>) returns (hasValid: bool)
    ensures hasValid == HasModule(States(specs))
  {
    hasValid := false;
    var i := 0;
    while i < |specs|
      invariant i <= |specs|
      invariant forall j :: 0 <= j < i ==> StateOf(specs[j]).gitModule.None?
    {
      if specs[i].gitModule.Some? {
        hasValid := true;
        assert States(specs)[i].gitModule.Some?;
        break;
      }
      i := i + 1;
    }
  }

  /** `filterUnreachables` */
  method FilterUnreachables(revs: Revisions) returns (unreachables: Revisions)
    ensures KeepsLists(unreachables, revs, UnreachableKeys(Snapshot(revs)))
  {
    ghost var snap := Snapshot(revs);
    unreachables := map[];
    var remaining := revs.Keys;
    while remaining != {}
      invariant remaining <= revs.Keys
      invariant KeepsLists(unreachables, revs, UnreachableKeys(snap) - remaining)
      decreases remaining
    {
      var key :| key in remaining;
      var issueIsReachable := IssueIsReachable(revs[key]);
      assert States(revs[key]) == snap[key];
      KeepsListsStep(unreachables, revs, UnreachableKeys(snap), remaining, key, !issueIsReachable);
      if !issueIsReachable {
        unreachables := unreachables[key := revs[key]];
      }
      remaining := remaining - {key};
    }
  }

  /** `filterOrphants` */
  method FilterOrphants(revs: Revisions) returns (orphants: Revisions)
    ensures KeepsLists(orphants, revs, OrphanKeys(Snapshot(revs)))
  {
    ghost var snap := Snapshot(revs);
    orphants := map[];
    var remaining := revs.Keys;
    while remaining != {}
      invariant remaining <= revs.Keys
      invariant KeepsLists(orphants, revs, OrphanKeys(snap) - remaining)
      decreases remaining
    {
      var key :| key in remaining;
      var hasValid := HasValidRevisions(revs[key]);
      assert States(revs[key]) == snap[key];
      KeepsListsStep(orphants, revs, OrphanKeys(snap), remaining, key, !hasValid);
      if !hasValid {
        orphants := orphants[key := revs[key]];
      }
      remaining := remaining - {key};
    }
  }

  // ------------------------------------------------------------ output choice

  /** The issues `jira-find` prints for its `--orphants` and `--unreachable` flags. */
  function SelectedKeys(snap: map<string, seq<RevisionState>>, orphants: bool, unreachable: bool): set<string> {
    if orphants && unreachable then OrphanKeys(snap) + UnreachableKeys(snap)
    else if orphants then OrphanKeys(snap)
    else if unreachable then UnreachableKeys(snap)
    else ReachableKeys(snap)
  }

  /**
   * Without flags the reachables are printed, never alongside another set;
   * with both flags the selection is exactly the unreachables, and any flag
   * excludes every reachable issue.
   */
  lemma SelectedKeysCases(snap: map<string, seq<RevisionState>>, orphants: bool, unreachable: bool)
    ensures orphants && unreachable ==> SelectedKeys(snap, orphants, unreachable) == UnreachableKeys(snap)
    ensures orphants || unreachable ==> SelectedKeys(snap, orphants, unreachable) !! ReachableKeys(snap)
    ensures SelectedKeys(snap, orphants, unreachable) <= snap.Keys
  {
    Partition(snap);
  }

  lemma KeepsListsUnion(a: Revisions, b: Revisions, revs: Revisions, ka: set<string>, kb: set<string>)
    requires KeepsLists(a, revs, ka) && KeepsLists(b, revs, kb)
    ensures KeepsLists(a + b, revs, ka + kb)
  {
  }

  /**
   * `jira-find`'s selection: `dict.update` with each requested filter in turn
   * (orphants, then unreachables), the reachables when no flag is given.
   */
  method SelectIssues(revs: Revisions, orphants: bool, unreachable: bool) returns (filteredIssues: Revisions)
    ensures KeepsLists(filteredIssues, revs, SelectedKeys(Snapshot(revs), orphants, unreachable))
  {
    if !orphants && !unreachable {
      filteredIssues := FilterReachables(revs);
    } else if !unreachable {
      filteredIssues := FilterOrphants(revs);
    } else if !orphants {
      filteredIssues := FilterUnreachables(revs);
    } else {
      filteredIssues := OrphantsUpdatedWithUnreachables(revs);
    }
  }

  /** Both flags: the orphants, then `dict.update` with the unreachables. */
  method OrphantsUpdatedWithUnreachables(revs: Revisions) returns (filteredIssues: Revisions)
    ensures KeepsLists(filteredIssues, revs, OrphanKeys(Snapshot(revs)) + UnreachableKeys(Snapshot(revs)))
  {
    var o := FilterOrphants(revs);
    ghost var snap := Snapshot(revs);
    var u := FilterUnreachables(revs);
    assert Snapshot(revs) == snap;
    KeepsListsUnion(o, u, revs, OrphanKeys(snap), UnreachableKeys(snap));
    filteredIssues := o + u;
  }

  /** `git-jira-log`'s selection: the orphants with `--orphants`, the reachables otherwise. */
  method SelectLogIssues(revs: Revisions, orphants: bool) returns (selected: Revisions)
    ensures KeepsLists(selected, revs, if orphants then OrphanKeys(Snapshot(revs)) else ReachableKeys(Snapshot(revs)))
    ensures selected.Keys !! (if orphants then ReachableKeys(Snapshot(revs)) else OrphanKeys(Snapshot(revs)))
  {
    Partition(Snapshot(revs));
    if orphants {
      selected := FilterOrphants(revs);
    } else {
      selected := FilterReachables(revs);
    }
  }
}
