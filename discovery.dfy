/**
 * `getGitModules`: the depth-first list of the repository and its
 * submodules, each pinned to the revision its parent records for it.
 *
 * The three git queries are oracles that return the command's output with
 * surrounding whitespace already stripped:
 * - `RemoteUrl(path)`: `git config --local --get remote.origin.url` in `path`;
 * - `SubmoduleConfig(path)`: the `submodule.*path` lines of `.gitmodules` in `path`;
 * - `LsTree(cwd, revision, modulePath)`: `git ls-tree revision modulePath` in `cwd`.
 */
module ModuleDiscovery {
  import opened Wrappers
  import opened Text
  import opened Revisions

  type RemoteUrl = string -> string
  type SubmoduleConfig = string -> string
  type LsTree = (string, string, string) -> string

  /** A module's submodule paths, from its path. */
  type SubmoduleLister = string -> Result<seq<string>, DiscoveryError>
  /** A submodule's head, from the parent's path and revision and the submodule's path. */
  type HeadReader = (string, string, string) -> Result<string, DiscoveryError>

  /** Why discovery stops: the exceptions the script dies with, and the fuel bound. */
  datatype DiscoveryError =
    | ConfigLineWithoutSpace(line: string)   // `kvPair.split(' ', 1)[1]` raises IndexError
    | MalformedTreeEntry(entry: string)      // `re.match(...)` is None, `.group` raises
    | TooDeep                                // the fuel bound of this model

  /** `os.path.join(a, b)` on POSIX. */
  function JoinPath(a: string, b: string): (r: string)
    ensures |b| > 0 && b[0] == '/' ==> r == b
    ensures |b| <= |r| <= |a| + |b| + 1
  {
    if |b| > 0 && b[0] == '/' then b
    else if |a| == 0 || a[|a| - 1] == '/' then a + b
    else a + "/" + b
  }

  /**
   * The joined path ends with `b`; a relative `b` is placed under `a`, with
   * one separator between them unless `a` is empty or already ends with one.
   */
  lemma JoinPathParts(a: string, b: string)
    ensures var r := JoinPath(a, b);
      r[|r| - |b|..] == b
    ensures (|b| == 0 || b[0] != '/') ==> JoinPath(a, b)[..|a|] == a
    ensures (|b| == 0 || b[0] != '/') && |a| > 0 && a[|a| - 1] != '/' ==> JoinPath(a, b) == a + "/" + b
  {
    var r := JoinPath(a, b);
    if |b| > 0 && b[0] == '/' {
    } else if |a| == 0 || a[|a| - 1] == '/' {
      assert r == a + b;
      assert r[..|a|] == a;
      assert r[|a|..] == b;
    } else {
      assert r == a + "/" + b;
      assert r[..|a|] == a;
      assert r[|a| + 1..] == b;
    }
  }

  /** The lines of the config output; empty output means no submodule at all. */
  function ConfigLines(out: string): (lines: seq<string>)
    ensures out == "" <==> lines == []
  {
    if out == "" then [] else Split(out, "\n")
  }

  /** The index of the first `c` in `s`. */
  function IndexOf(s: string, c: char): (r: Option<nat>)
    ensures r.None? <==> c !in s
    ensures r.Some? ==> r.value < |s| && s[r.value] == c && c !in s[..r.value]
  {
    if |s| == 0 then None
    else if s[0] == c then Some(0)
    else match IndexOf(s[1..], c)
      case None => None
      case Some(i) => assert s[..i + 1] == [s[0]] + s[1..][..i]; Some(i + 1)
  }

  /** `kvPair.split(' ', 1)[1]`: the text after the first space. */
  function ValueOfConfigLine(line: string): (r: Option<string>)
    ensures r.None? <==> ' ' !in line
  {
    match IndexOf(line, ' ')
    case None => None
    case Some(i) => Some(line[i + 1..])
  }

  /** The value is what follows the first space: `line` is a space-free key, a space and the value. */
  lemma ValueOfConfigLineSplits(key: string, value: string)
    requires ' ' !in key
    ensures ValueOfConfigLine(key + " " + value) == Some(value)
  {
    var line := key + " " + value;
    assert line[..|key|] == key;
    assert line[|key|] == ' ';
    assert IndexOf(line, ' ') == Some(|key|);
    assert line[|key| + 1..] == value;
  }

  /** The submodule paths of the module at `root`, in config-line order. */
  function SubmodulePaths(root: string, out: string): (r: Result<seq<string>, DiscoveryError>)
    ensures out == "" ==> r == Ok([])
  {
    PathsOfLines(root, ConfigLines(out))
  }

  /** The paths of `lines`, or the first line that has no space. */
  function PathsOfLines(root: string, lines: seq<string>): (r: Result<seq<string>, DiscoveryError>)
    ensures r.Ok? ==> |r.value| == |lines|
  {
    if |lines| == 0 then Ok([])
    else match PathsOfLines(root, lines[..|lines| - 1])
      case Err(e) => Err(e)
      case Ok(ps) =>
        match ValueOfConfigLine(lines[|lines| - 1])
        case None => Err(ConfigLineWithoutSpace(lines[|lines| - 1]))
        case Some(v) => Ok(ps + [JoinPath(root, v)])
  }

  /**
   * Each path is the module's path joined with the text after the first
   * space of its line; a line without a space is fatal.
   */
  lemma {:induction false} PathsOfLinesSound(root: string, lines: seq<string>)
    ensures var r := PathsOfLines(root, lines);
      r.Ok? ==> forall i :: 0 <= i < |lines| ==>
        ValueOfConfigLine(lines[i]).Some? && r.value[i] == JoinPath(root, ValueOfConfigLine(lines[i]).value)
    ensures var r := PathsOfLines(root, lines);
      r.Err? ==> exists i :: (0 <= i < |lines| && ValueOfConfigLine(lines[i]).None? &&
        r.error == ConfigLineWithoutSpace(lines[i]))
    ensures (forall i :: 0 <= i < |lines| ==> ' ' in lines[i]) ==> PathsOfLines(root, lines).Ok?
    decreases |lines|
  {
    if |lines| > 0 {
      var init := lines[..|lines| - 1];
      assert forall i :: 0 <= i < |init| ==> init[i] == lines[i];
      PathsOfLinesSound(root, init);
      match PathsOfLines(root, init)
      case Err(e) =>
      case Ok(ps) =>
        match ValueOfConfigLine(lines[|lines| - 1])
        case None =>
        case Some(v) =>
          var paths := ps + [JoinPath(root, v)];
          assert forall i :: 0 <= i < |ps| ==> paths[i] == ps[i];
    }
  }

  /** The length of the run of `\d` at the start of `s`. */
  function LeadingDigits(s: string): (n: nat)
    ensures n <= |s|
    ensures forall i :: 0 <= i < n ==> IsDigit(s[i])
    ensures n < |s| ==> !IsDigit(s[n])
  {
    if |s| > 0 && IsDigit(s[0]) then 1 + LeadingDigits(s[1..]) else 0
  }

  /**
   * `re.match('\d+ commit (?P<revision>.{40})\t', entry).group('revision')`:
   * the head is the 40 characters, none a newline, between the prefix and a tab.
   */
  function ParseTreeEntry(entry: string): (r: Option<string>)
    ensures r.Some? ==> |r.value| == 40 && '\n' !in r.value
  {
    var n := LeadingDigits(entry);
    if n >= 1 && n + 8 + 40 + 1 <= |entry| && entry[n..n + 8] == " commit "
      && '\n' !in entry[n + 8..n + 48] && entry[n + 48] == '\t'
    then Some(entry[n + 8..n + 48])
    else None
  }

  /** The shape `ParseTreeEntry` accepts, stated without the scan. */
  predicate TreeEntryShape(entry: string, digits: string, head: string, rest: string) {
    |digits| >= 1 && (forall i :: 0 <= i < |digits| ==> IsDigit(digits[i]))
    && |head| == 40 && '\n' !in head
    && entry == digits + " commit " + head + "\t" + rest
  }

  /** An entry parses exactly when it has the shape, and then the head is the one in the shape. */
  lemma ParseTreeEntryShape(entry: string)
    ensures ParseTreeEntry(entry).Some? <==> exists digits, head, rest :: TreeEntryShape(entry, digits, head, rest)
    ensures forall digits, head, rest :: TreeEntryShape(entry, digits, head, rest) ==> ParseTreeEntry(entry) == Some(head)
  {
    var n := LeadingDigits(entry);
    if ParseTreeEntry(entry).Some? {
      var digits, head, rest := entry[..n], entry[n + 8..n + 48], entry[n + 49..];
      assert entry == digits + " commit " + head + "\t" + rest;
      assert TreeEntryShape(entry, digits, head, rest);
    }
    forall digits, head, rest | TreeEntryShape(entry, digits, head, rest)
      ensures ParseTreeEntry(entry) == Some(head)
    {
      var d := |digits|;
      assert entry[d] == ' ';
      assert forall i :: 0 <= i < d ==> entry[i] == digits[i];
      assert n == d;
      assert entry[n..n + 8] == " commit ";
      assert entry[n + 8..n + 48] == head;
      assert entry[n + 48] == '\t';
    }
  }

  /**
   * The modules found from `path` checked out at `revision`: the module
   * itself, then, depth first in config-line order, each submodule's list.
   */
  function Discover(remote: RemoteUrl, submodulesOf: SubmoduleLister, headOf: HeadReader,
                    path: string, revision: string, fuel: nat): (r: Result<seq<GitModule>, DiscoveryError>)
    ensures r.Ok? ==> |r.value| >= 1 && r.value[0] == GitModule(remote(path), path, revision)
    decreases fuel, 1
  {
    if fuel == 0 then Err(TooDeep)
    else match submodulesOf(path)
      case Err(e) => Err(e)
      case Ok(subs) =>
        match DiscoverAll(remote, submodulesOf, headOf, path, revision, subs, fuel - 1)
        case Err(e) => Err(e)
        case Ok(ms) => Ok([GitModule(remote(path), path, revision)] + ms)
  }

  /** The lists of the submodules `subs` of the module at `path`, concatenated in order. */
  function DiscoverAll(remote: RemoteUrl, submodulesOf: SubmoduleLister, headOf: HeadReader,
                       path: string, revision: string, subs: seq<string>, fuel: nat): (r: Result<seq<GitModule>, DiscoveryError>)
    decreases fuel, 3, |subs|
  {
    if |subs| == 0 then Ok([])
    else match DiscoverAll(remote, submodulesOf, headOf, path, revision, subs[..|subs| - 1], fuel)
      case Err(e) => Err(e)
      case Ok(ms) =>
        match DiscoverSubmodule(remote, submodulesOf, headOf, path, revision, subs[|subs| - 1], fuel)
        case Err(e) => Err(e)
        case Ok(subModules) => Ok(ms + subModules)
  }

  /**
   * The list of the submodule at `sub`, checked out at the head its entry in
   * the parent's tree at `revision` records; an entry of another shape is fatal.
   */
  function DiscoverSubmodule(remote: RemoteUrl, submodulesOf: SubmoduleLister, headOf: HeadReader,
                             path: string, revision: string, sub: string, fuel: nat): (r: Result<seq<GitModule>, DiscoveryError>)
    decreases fuel, 2
  {
    match headOf(path, revision, sub)
    case Err(e) => Err(e)
    case Ok(head) => Discover(remote, submodulesOf, headOf, sub, head, fuel)
  }

  /** One more submodule: its list is appended, or its failure is the result. */
  lemma DiscoverAllStep(remote: RemoteUrl, submodulesOf: SubmoduleLister, headOf: HeadReader,
                        path: string, revision: string, subs: seq<string>, i: nat, fuel: nat)
    requires i < |subs|
    requires DiscoverAll(remote, submodulesOf, headOf, path, revision, subs[..i], fuel).Ok?
    ensures var sub := DiscoverSubmodule(remote, submodulesOf, headOf, path, revision, subs[i], fuel);
      DiscoverAll(remote, submodulesOf, headOf, path, revision, subs[..i + 1], fuel) ==
        if sub.Err? then sub
        else Ok(DiscoverAll(remote, submodulesOf, headOf, path, revision, subs[..i], fuel).value + sub.value)
  {
    assert subs[..i + 1][..i] == subs[..i];
  }

  /** The module's list is the module itself, then its submodules' lists, unless one of those fails. */
  lemma DiscoverStep(remote: RemoteUrl, submodulesOf: SubmoduleLister, headOf: HeadReader,
                     path: string, revision: string, subs: seq<string>, fuel: nat)
    requires fuel > 0
    requires submodulesOf(path) == Ok(subs)
    ensures var whole := DiscoverAll(remote, submodulesOf, headOf, path, revision, subs, fuel - 1);
      Discover(remote, submodulesOf, headOf, path, revision, fuel) ==
        if whole.Err? then whole else Ok([GitModule(remote(path), path, revision)] + whole.value)
  {
  }

  /** Discovery stops at the first failing submodule: a failing prefix decides the result. */
  lemma {:induction false} DiscoverAllPrefixErr(remote: RemoteUrl, submodulesOf: SubmoduleLister, headOf: HeadReader,
                                                path: string, revision: string, subs: seq<string>, i: nat, fuel: nat)
    requires i <= |subs|
    requires DiscoverAll(remote, submodulesOf, headOf, path, revision, subs[..i], fuel).Err?
    ensures DiscoverAll(remote, submodulesOf, headOf, path, revision, subs, fuel) ==
            DiscoverAll(remote, submodulesOf, headOf, path, revision, subs[..i], fuel)
    decreases |subs|
  {
    if i == |subs| {
      assert subs[..i] == subs;
    } else {
      var init := subs[..|subs| - 1];
      assert init[..i] == subs[..i];
      DiscoverAllPrefixErr(remote, submodulesOf, headOf, path, revision, init, i, fuel);
    }
  }

  /** The listing `getGitModules` performs: the config query, then the parsing of its lines. */
  function ListSubmodules(config: SubmoduleConfig): SubmoduleLister {
    path => SubmodulePaths(path, config(path))
  }

  /** The head an ls-tree entry records, or the fatal error for an entry of another shape. */
  function HeadOfEntry(entry: string): Result<string, DiscoveryError> {
    match ParseTreeEntry(entry)
    case None => Err(MalformedTreeEntry(entry))
    case Some(head) => Ok(head)
  }

  /** The lookup `getGitModules` performs: the ls-tree query in the parent, then the parsing of its entry. */
  function ReadHead(lsTree: LsTree): HeadReader {
    (cwd, revision, modulePath) => HeadOfEntry(lsTree(cwd, revision, modulePath))
  }

  /** Every head `headOf` can report is a 40-character name without a newline. */
  ghost predicate HeadsAreNames(headOf: HeadReader) {
    forall cwd, revision, modulePath :: headOf(cwd, revision, modulePath).Ok? ==>
      |headOf(cwd, revision, modulePath).value| == 40 && '\n' !in headOf(cwd, revision, modulePath).value
  }

  /** The ls-tree lookup only reports the 40 characters its pattern captures. */
  lemma ReadHeadNames(lsTree: LsTree)
    ensures HeadsAreNames(ReadHead(lsTree))
  {
    forall cwd, revision, modulePath | ReadHead(lsTree)(cwd, revision, modulePath).Ok?
      ensures |ReadHead(lsTree)(cwd, revision, modulePath).value| == 40
      ensures '\n' !in ReadHead(lsTree)(cwd, revision, modulePath).value
    {
      var entry := lsTree(cwd, revision, modulePath);
      assert ReadHead(lsTree)(cwd, revision, modulePath) == HeadOfEntry(entry);
    }
  }

  /**
   * `getGitModules(path, revision, out)`: appends the modules found to `out`.
   * `submodulesOf` and `headOf` are its two per-module lookups with their
   * parsing; the script's are `ListSubmodules(config)` and `ReadHead(lsTree)`.
   */
  method GetGitModules(remote: RemoteUrl, submodulesOf: SubmoduleLister, headOf: HeadReader,
                       path: string, revision: string, out: seq<GitModule>, fuel: nat)
    returns (r: Result<seq<GitModule>, DiscoveryError>)
    ensures r.Ok? <==> Discover(remote, submodulesOf, headOf, path, revision, fuel).Ok?
    ensures r.Ok? ==> r.value == out + Discover(remote, submodulesOf, headOf, path, revision, fuel).value
    ensures r.Err? ==> r == Discover(remote, submodulesOf, headOf, path, revision, fuel)
    decreases fuel, 1
  {
    if fuel == 0 {
      return Err(TooDeep);
    }
    var outModules := out + [GitModule(remote(path), path, revision)];
    var submodules := submodulesOf(path);
    if submodules.Err? {
      return Err(submodules.error);
    }
    DiscoverStep(remote, submodulesOf, headOf, path, revision, submodules.value, fuel);
    r := AppendSubmodules(remote, submodulesOf, headOf, path, revision, submodules.value, outModules, fuel - 1);
    if r.Ok? {
      assert r.value == out + ([GitModule(remote(path), path, revision)]
                               + DiscoverAll(remote, submodulesOf, headOf, path, revision, submodules.value, fuel - 1).value);
    }
  }

  /** `getGitModules`' loop over the submodule paths, stopping at the first failure. */
  method AppendSubmodules(remote: RemoteUrl, submodulesOf: SubmoduleLister, headOf: HeadReader,
                          path: string, revision: string, subs: seq<string>, out: seq<GitModule>, fuel: nat)
    returns (r: Result<seq<GitModule>, DiscoveryError>)
    ensures var all := DiscoverAll(remote, submodulesOf, headOf, path, revision, subs, fuel);
      (r.Ok? <==> all.Ok?) && (r.Ok? ==> r.value == out + all.value) && (r.Err? ==> r == all)
    decreases fuel, 3
  {
    var outModules := out;
    assert DiscoverAll(remote, submodulesOf, headOf, path, revision, subs[..0], fuel) == Ok([]) by {
      assert subs[..0] == [];
    }
    for i := 0 to |subs|
      invariant DiscoverAll(remote, submodulesOf, headOf, path, revision, subs[..i], fuel).Ok?
      invariant outModules == out + DiscoverAll(remote, submodulesOf, headOf, path, revision, subs[..i], fuel).value
    {
      DiscoverAllStep(remote, submodulesOf, headOf, path, revision, subs, i, fuel);
      var found := AppendSubmodule(remote, submodulesOf, headOf, path, revision, subs[i], outModules, fuel);
      if found.Err? {
        DiscoverAllPrefixErr(remote, submodulesOf, headOf, path, revision, subs, i + 1, fuel);
        return found;
      }
      outModules := found.value;
    }
    assert subs[..|subs|] == subs;
    return Ok(outModules);
  }

  /** The body of `getGitModules`' loop: read the submodule's head from the parent's tree, then recurse. */
  method AppendSubmodule(remote: RemoteUrl, submodulesOf: SubmoduleLister, headOf: HeadReader,
                         path: string, revision: string, modulePath: string, out: seq<GitModule>, fuel: nat)
    returns (r: Result<seq<GitModule>, DiscoveryError>)
    ensures var sub := DiscoverSubmodule(remote, submodulesOf, headOf, path, revision, modulePath, fuel);
      (r.Ok? <==> sub.Ok?) && (r.Ok? ==> r.value == out + sub.value) && (r.Err? ==> r == sub)
    decreases fuel, 2
  {
    var moduleRevision := headOf(path, revision, modulePath);
    if moduleRevision.Err? {
      return Err(moduleRevision.error);
    }
    r := GetGitModules(remote, submodulesOf, headOf, modulePath, moduleRevision.value, out, fuel);
  }

  /** Every module but the first is a submodule, pinned to a head `headOf` reported. */
  lemma {:induction false} SubmoduleHeads(remote: RemoteUrl, submodulesOf: SubmoduleLister, headOf: HeadReader,
                                          path: string, revision: string, fuel: nat)
    requires HeadsAreNames(headOf)
    requires Discover(remote, submodulesOf, headOf, path, revision, fuel).Ok?
    ensures var ms := Discover(remote, submodulesOf, headOf, path, revision, fuel).value;
      forall i :: 1 <= i < |ms| ==> |ms[i].head| == 40 && '\n' !in ms[i].head
    decreases fuel, 1
  {
    var subs := submodulesOf(path).value;
    DiscoverStep(remote, submodulesOf, headOf, path, revision, subs, fuel);
    var all := DiscoverAll(remote, submodulesOf, headOf, path, revision, subs, fuel - 1);
    var ms := Discover(remote, submodulesOf, headOf, path, revision, fuel).value;
    assert ms == [GitModule(remote(path), path, revision)] + all.value;
    AllHeads(remote, submodulesOf, headOf, path, revision, subs, fuel - 1);
    assert forall i :: 1 <= i < |ms| ==> ms[i] == all.value[i - 1];
  }

  /** Every module in the submodules' lists is pinned to a head `headOf` reported. */
  lemma {:induction false} AllHeads(remote: RemoteUrl, submodulesOf: SubmoduleLister, headOf: HeadReader,
                                    path: string, revision: string, subs: seq<string>, fuel: nat)
    requires HeadsAreNames(headOf)
    requires DiscoverAll(remote, submodulesOf, headOf, path, revision, subs, fuel).Ok?
    ensures var ms := DiscoverAll(remote, submodulesOf, headOf, path, revision, subs, fuel).value;
      forall i :: 0 <= i < |ms| ==> |ms[i].head| == 40 && '\n' !in ms[i].head
    decreases fuel, 3, |subs|
  {
    if |subs| > 0 {
      var init := subs[..|subs| - 1];
      DiscoverAllStep(remote, submodulesOf, headOf, path, revision, subs, |subs| - 1, fuel);
      var before := DiscoverAll(remote, submodulesOf, headOf, path, revision, init, fuel).value;
      AllHeads(remote, submodulesOf, headOf, path, revision, init, fuel);
      var sub := subs[|subs| - 1];
      var head := headOf(path, revision, sub).value;
      var subModules := Discover(remote, submodulesOf, headOf, sub, head, fuel).value;
      SubmoduleHeads(remote, submodulesOf, headOf, sub, head, fuel);
      var ms := DiscoverAll(remote, submodulesOf, headOf, path, revision, subs, fuel).value;
      assert subs[..|subs|] == subs;
      assert ms == before + subModules;
      assert forall i :: |before| <= i < |ms| ==> ms[i] == subModules[i - |before|];
    }
  }

  /** With the script's lookups, every submodule is pinned to a 40-character head from its parent's tree. */
  lemma ScriptSubmoduleHeads(remote: RemoteUrl, config: SubmoduleConfig, lsTree: LsTree,
                             path: string, revision: string, fuel: nat)
    requires Discover(remote, ListSubmodules(config), ReadHead(lsTree), path, revision, fuel).Ok?
    ensures var ms := Discover(remote, ListSubmodules(config), ReadHead(lsTree), path, revision, fuel).value;
      forall i :: 1 <= i < |ms| ==> |ms[i].head| == 40 && '\n' !in ms[i].head
  {
    ReadHeadNames(lsTree);
    SubmoduleHeads(remote, ListSubmodules(config), ReadHead(lsTree), path, revision, fuel);
  }

  /** A module whose config output is empty has no submodule: the list is the module alone. */
  lemma NoSubmodules(remote: RemoteUrl, config: SubmoduleConfig, lsTree: LsTree,
                     path: string, revision: string, fuel: nat)
    requires fuel >= 1 && config(path) == ""
    ensures Discover(remote, ListSubmodules(config), ReadHead(lsTree), path, revision, fuel)
            == Ok([GitModule(remote(path), path, revision)])
  {
    var submodulesOf, headOf := ListSubmodules(config), ReadHead(lsTree);
    assert submodulesOf(path) == Ok([]);
    DiscoverStep(remote, submodulesOf, headOf, path, revision, [], fuel);
    assert DiscoverAll(remote, submodulesOf, headOf, path, revision, [], fuel - 1) == Ok([]);
    assert [GitModule(remote(path), path, revision)] + [] == [GitModule(remote(path), path, revision)];
  }

  /**
   * With one submodule line `key value`, the submodule at `path/value` is
   * asked for its entry in the parent's tree; an entry of the wrong shape is
   * fatal, otherwise its list follows the module itself.
   */
  lemma OneSubmodule(remote: RemoteUrl, config: SubmoduleConfig, lsTree: LsTree,
                     path: string, revision: string, key: string, value: string, fuel: nat)
    requires fuel >= 2 && ' ' !in key && '\n' !in key + " " + value
    requires config(path) == key + " " + value
    ensures var sub := JoinPath(path, value);
      var entry := lsTree(path, revision, sub);
      Discover(remote, ListSubmodules(config), ReadHead(lsTree), path, revision, fuel) ==
        match ParseTreeEntry(entry)
        case None => Err(MalformedTreeEntry(entry))
        case Some(head) =>
          match Discover(remote, ListSubmodules(config), ReadHead(lsTree), sub, head, fuel - 1)
          case Err(e) => Err(e)
          case Ok(ms) => Ok([GitModule(remote(path), path, revision)] + ms)
  {
    var submodulesOf, headOf := ListSubmodules(config), ReadHead(lsTree);
    var line := key + " " + value;
    assert Free(line, "\n") by {
      forall i | 0 <= i < |line| ensures !OccursAt(line, i, "\n") {
        assert line[i] in line;
      }
    }
    SplitFree(line, "\n");
    assert ConfigLines(line) == [line];
    ValueOfConfigLineSplits(key, value);
    var sub := JoinPath(path, value);
    assert PathsOfLines(path, [line]) == Ok([sub]) by {
      assert [line][..0] == [];
      assert PathsOfLines(path, []) == Ok([]);
      assert ValueOfConfigLine([line][0]) == Some(value);
      assert [] + [sub] == [sub];
    }
    var subs := [sub];
    assert submodulesOf(path) == Ok(subs);
    DiscoverStep(remote, submodulesOf, headOf, path, revision, subs, fuel);
    assert subs[..0] == [];
    assert DiscoverAll(remote, submodulesOf, headOf, path, revision, subs[..0], fuel - 1) == Ok([]);
    DiscoverAllStep(remote, submodulesOf, headOf, path, revision, subs, 0, fuel - 1);
    assert subs[..1] == subs;
    var entry := lsTree(path, revision, sub);
    assert headOf(path, revision, sub) == HeadOfEntry(entry);
    match ParseTreeEntry(entry)
    case None =>
    case Some(head) =>
      match Discover(remote, submodulesOf, headOf, sub, head, fuel - 1)
      case Err(e) =>
      case Ok(ms) =>
        assert [] + ms == ms;
  }
}
