/**
 * `verifyRevisions` and `verifyReachability`: the in-place annotation of
 * every revision specifier with the module that knows it and with whether it
 * is an ancestor of that module's head. The two git queries are oracles.
 */
module Verification {
  import opened Wrappers
  import opened Revisions

  /** `git rev-parse --verify <revision>^{commit}` succeeds in the checkout at `path`: (path, revision). */
  type CommitOracle = (string, string) -> bool

  /** `git merge-base --is-ancestor <revision> <head>` succeeds in the checkout at `path`: (path, revision, head). */
  type AncestorOracle = (string, string, string) -> bool

  /** The last module, in discovery order, whose checkout accepts `revision`. */
  function LastAccepting(revision: string, modules: seq<GitModule>, isCommit: CommitOracle): Option<GitModule>
    decreases |modules|
  {
    if |modules| == 0 then None
    else if isCommit(modules[|modules| - 1].path, revision) then Some(modules[|modules| - 1])
    else LastAccepting(revision, modules[..|modules| - 1], isCommit)
  }

  /**
   * No module is found exactly when no module accepts the revision; a found
   * module accepts it and no later module does.
   */
  lemma {:induction false} LastAcceptingMeaning(revision: string, modules: seq<GitModule>, isCommit: CommitOracle)
    ensures LastAccepting(revision, modules, isCommit).None? <==>
      forall i :: 0 <= i < |modules| ==> !isCommit(modules[i].path, revision)
    ensures LastAccepting(revision, modules, isCommit).Some? ==>
      exists i :: 0 <= i < |modules| && modules[i] == LastAccepting(revision, modules, isCommit).value
        && isCommit(modules[i].path, revision)
        && forall j :: i < j < |modules| ==> !isCommit(modules[j].path, revision)
    decreases |modules|
  {
    if |modules| > 0 {
      var init := modules[..|modules| - 1];
      LastAcceptingMeaning(revision, init, isCommit);
      assert forall i :: 0 <= i < |init| ==> init[i] == modules[i];
      if !isCommit(modules[|modules| - 1].path, revision) && LastAccepting(revision, init, isCommit).Some? {
        var i :| 0 <= i < |init| && init[i] == LastAccepting(revision, init, isCommit).value
          && isCommit(init[i].path, revision)
          && forall j :: i < j < |init| ==> !isCommit(init[j].path, revision);
        assert modules[i] == init[i];
      }
    }
  }

  /** The module a specifier holds after verification: the last accepting one, else the one it had. */
  function Resolution(revision: string, modules: seq<GitModule>, isCommit: CommitOracle, current: Option<GitModule>): Option<GitModule> {
    match LastAccepting(revision, modules, isCommit)
    case Some(m) => Some(m)
    case None => current
  }

  /** The inner loop of `verifyRevisions` for one specifier: every accepting module overwrites the last. */
  method ResolveModule(rev: RevisionSpecifier, modules: seq<GitModule>, isCommit: CommitOracle)
    modifies rev
    ensures rev.gitModule == Resolution(rev.revision, modules, isCommit, old(rev.gitModule))
    ensures rev.isReachable == old(rev.isReachable)
  {
    for m := 0 to |modules|
      invariant rev.gitModule == Resolution(rev.revision, modules[..m], isCommit, old(rev.gitModule))
      invariant rev.isReachable == old(rev.isReachable)
    {
      assert modules[..m + 1][..m] == modules[..m];
      var isValid := isCommit(modules[m].path, rev.revision);
      if isValid {
        rev.gitModule := Some(modules[m]);
      }
    }
    assert modules[..|modules|] == modules;
  }

  /**
   * `verifyRevisions`: every specifier, whatever issue holds it, ends up with
   * its resolution; reachability is untouched. Issues are visited in an
   * unspecified order, as Python 2 iterates a dict.
   */
  method VerifyRevisions(revs: Revisions, modules: seq<GitModule>, isCommit: CommitOracle)
    modifies Objects(revs)
    ensures forall k, i :: k in revs && 0 <= i < |revs[k]| ==>
      revs[k][i].gitModule == Resolution(revs[k][i].revision, modules, isCommit, old(revs[k][i].gitModule))
      && revs[k][i].isReachable == old(revs[k][i].isReachable)
  {
    var remaining := revs.Keys;
    while remaining != {}
      invariant remaining <= revs.Keys
      invariant forall k, i :: k in revs && 0 <= i < |revs[k]| ==>
        (revs[k][i].gitModule == old(revs[k][i].gitModule)
          || revs[k][i].gitModule == Resolution(revs[k][i].revision, modules, isCommit, old(revs[k][i].gitModule)))
        && revs[k][i].isReachable == old(revs[k][i].isReachable)
      invariant forall k, i :: k in revs && k !in remaining && 0 <= i < |revs[k]| ==>
        revs[k][i].gitModule == Resolution(revs[k][i].revision, modules, isCommit, old(revs[k][i].gitModule))
      decreases remaining
    {
      var key :| key in remaining;
      var specs := revs[key];
      for i := 0 to |specs|
        invariant forall k, i :: k in revs && 0 <= i < |revs[k]| ==>
          (revs[k][i].gitModule == old(revs[k][i].gitModule)
            || revs[k][i].gitModule == Resolution(revs[k][i].revision, modules, isCommit, old(revs[k][i].gitModule)))
          && revs[k][i].isReachable == old(revs[k][i].isReachable)
        invariant forall k, i :: k in revs && k !in remaining && 0 <= i < |revs[k]| ==>
          revs[k][i].gitModule == Resolution(revs[k][i].revision, modules, isCommit, old(revs[k][i].gitModule))
        invariant forall j :: 0 <= j < i ==>
          specs[j].gitModule == Resolution(specs[j].revision, modules, isCommit, old(specs[j].gitModule))
      {
        assert specs[i] in Objects(revs);
        ResolveModule(specs[i], modules, isCommit);
      }
      remaining := remaining - {key};
    }
  }

  /** The inner step of `verifyReachability` for one specifier. */
  method MarkReachability(rev: RevisionSpecifier, isAncestor: AncestorOracle)
    modifies rev
    ensures rev.gitModule == old(rev.gitModule)
    ensures rev.isReachable == match rev.gitModule
      case Some(m) => isAncestor(m.path, rev.revision, m.head)
      case None => old(rev.isReachable)
  {
    if rev.gitModule.Some? {
      var m := rev.gitModule.value;
      var isReachable := isAncestor(m.path, rev.revision, m.head);
      rev.isReachable := isReachable;
    }
  }

  /** Reachability after `verifyReachability`: asked of the module's checkout, else unchanged. */
  function Reachability(s: RevisionState, isAncestor: AncestorOracle): bool {
    match s.gitModule
    case Some(m) => isAncestor(m.path, s.revision, m.head)
    case None => s.isReachable
  }

  /**
   * `verifyReachability`: every specifier with a module is marked with the
   * ancestor oracle's answer at that module's path against its head; the
   * others and every module stay as they were. Specifier validity is kept.
   */
  method VerifyReachability(revs: Revisions, isAncestor: AncestorOracle)
    modifies Objects(revs)
    ensures forall k, i :: k in revs && 0 <= i < |revs[k]| ==>
      revs[k][i].gitModule == old(revs[k][i].gitModule)
      && revs[k][i].isReachable == Reachability(old(StateOf(revs[k][i])), isAncestor)
    ensures forall k, i :: k in revs && 0 <= i < |revs[k]| && old(revs[k][i].Valid()) ==> revs[k][i].Valid()
  {
    var remaining := revs.Keys;
    while remaining != {}
      invariant remaining <= revs.Keys
      invariant forall k, i :: k in revs && 0 <= i < |revs[k]| ==>
        revs[k][i].gitModule == old(revs[k][i].gitModule)
        && (revs[k][i].isReachable == old(revs[k][i].isReachable)
          || revs[k][i].isReachable == Reachability(old(StateOf(revs[k][i])), isAncestor))
      invariant forall k, i :: k in revs && k !in remaining && 0 <= i < |revs[k]| ==>
        revs[k][i].isReachable == Reachability(old(StateOf(revs[k][i])), isAncestor)
      decreases remaining
    {
      var key :| key in remaining;
      var specs := revs[key];
      for i := 0 to |specs|
        invariant forall k, i :: k in revs && 0 <= i < |revs[k]| ==>
          revs[k][i].gitModule == old(revs[k][i].gitModule)
          && (revs[k][i].isReachable == old(revs[k][i].isReachable)
            || revs[k][i].isReachable == Reachability(old(StateOf(revs[k][i])), isAncestor))
        invariant forall k, i :: k in revs && k !in remaining && 0 <= i < |revs[k]| ==>
          revs[k][i].isReachable == Reachability(old(StateOf(revs[k][i])), isAncestor)
        invariant forall j :: 0 <= j < i ==>
          specs[j].isReachable == Reachability(old(StateOf(specs[j])), isAncestor)
      {
        assert specs[i] in Objects(revs);
        MarkReachability(specs[i], isAncestor);
      }
      remaining := remaining - {key};
    }
  }

  /** The state of one specifier after both passes. */
  function Verified(s: RevisionState, modules: seq<GitModule>, isCommit: CommitOracle, isAncestor: AncestorOracle): RevisionState {
    var resolved := s.(gitModule := Resolution(s.revision, modules, isCommit, s.gitModule));
    resolved.(isReachable := Reachability(resolved, isAncestor))
  }

  /**
   * For a freshly found revision, both passes leave: no module exactly when
   * no module accepts it, otherwise the last accepting one; reachability
   * only with a module, and then the ancestor oracle's answer for it.
   */
  lemma VerifiedFresh(revision: string, modules: seq<GitModule>, isCommit: CommitOracle, isAncestor: AncestorOracle)
    ensures var v := Verified(RevisionState(revision, None, false), modules, isCommit, isAncestor);
      && v.revision == revision
      && (v.gitModule.None? <==> forall i :: 0 <= i < |modules| ==> !isCommit(modules[i].path, revision))
      && (v.gitModule.Some? ==> exists i :: (0 <= i < |modules| && modules[i] == v.gitModule.value
            && isCommit(modules[i].path, revision)
            && forall j :: i < j < |modules| ==> !isCommit(modules[j].path, revision)))
      && (v.isReachable ==> v.gitModule.Some?)
      && (v.gitModule.Some? ==> v.isReachable == isAncestor(v.gitModule.value.path, revision, v.gitModule.value.head))
  {
    LastAcceptingMeaning(revision, modules, isCommit);
  }
}
