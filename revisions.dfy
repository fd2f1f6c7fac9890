/**
 * The entities of the revision-finding pipeline: a repository module and
 * the revision specifier that verification annotates in place.
 */
module Revisions {
  import opened Wrappers

  /** `GitModule`: the remote URL, the checkout path and the head revision pinned for it. */
  datatype GitModule = GitModule(url: string, path: string, head: string)

  /**
   * `RevisionSpecifier`: a candidate revision; verification sets the module
   * that knows it, then whether it is reachable from that module's head.
   */
  class RevisionSpecifier {
    const revision: string
    var gitModule: Option<GitModule>
    var isReachable: bool

    /** Reachability is only ever established for a revision with a module. */
    predicate Valid()
      reads this
    {
      isReachable ==> gitModule.Some?
    }

    constructor (revision: string)
      ensures this.revision == revision && gitModule == None && !isReachable
      ensures Valid()
    {
      this.revision := revision;
      gitModule := None;
      isReachable := false;
    }
  }

  /** The value of a revision specifier at one moment. */
  datatype RevisionState = RevisionState(revision: string, gitModule: Option<GitModule>, isReachable: bool)

  /** The pipeline's revisions: issue key to the specifiers found in that issue. */
  type Revisions = map<string, seq<RevisionSpecifier>>

  /** Every specifier held by `revs`. */
  ghost function Objects(revs: Revisions): set<RevisionSpecifier> {
    set k, i | k in revs && 0 <= i < |revs[k]| :: revs[k][i]
  }

  /** The revision texts of a list of specifiers (they never change). */
  function Texts(rs: seq<RevisionSpecifier>): (ts: seq<string>)
    ensures |ts| == |rs|
  {
    if |rs| == 0 then [] else Texts(rs[..|rs| - 1]) + [rs[|rs| - 1].revision]
  }

  function StateOf(r: RevisionSpecifier): RevisionState
    reads r
  {
    RevisionState(r.revision, r.gitModule, r.isReachable)
  }

  function States(rs: seq<RevisionSpecifier>): (ss: seq<RevisionState>)
    reads set r | r in rs
    ensures |ss| == |rs| && forall i :: 0 <= i < |rs| ==> ss[i] == StateOf(rs[i])
  {
    if |rs| == 0 then [] else States(rs[..|rs| - 1]) + [StateOf(rs[|rs| - 1])]
  }

  /** The value of the whole revision map at one moment. */
  ghost function Snapshot(revs: Revisions): (snap: map<string, seq<RevisionState>>)
    reads Objects(revs)
    ensures snap.Keys == revs.Keys
  {
    map k | k in revs :: States(revs[k])
  }

  /** A map holding every issue's current states is the snapshot. */
  lemma SnapshotIs(revs: Revisions, snap: map<string, seq<RevisionState>>)
    requires snap.Keys == revs.Keys
    requires forall k :: k in revs ==> States(revs[k]) == snap[k]
    ensures Snapshot(revs) == snap
  {
  }
}
