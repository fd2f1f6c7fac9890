# dev-tools: revision finding, build records, Swift upgrade and ticket ordering in Dafny

This project models the logic of five Python 2 scripts of the dev-tools
repository and proves properties of that model.

- **Revision finding** (`git/jira-find.py`, and the near-duplicate
  `git/git-jira-log.py`):
  - Issue-tracker issues are collected page by page.
  - Requested field names are resolved to field ids.
  - Every 40-character commit-looking token in the requested fields, and in
    `jira-find` the latest non-merge linked commit of each repository group,
    becomes a `RevisionSpecifier`.
  - The repository and its submodules are discovered depth first.
  - Each specifier is annotated in place with the module whose checkout knows
    the revision, then with whether the revision is an ancestor of that
    module's head.
  - Issues are classified as reachable, unreachable or orphan.
  - The flag-selected issues are projected to one record per
    (issue, revision) pair.
  - `git-jira-log` also adds a default `status = Resolved` clause to queries
    that do not mention `status`.
- **Build records** (`jira/jira-record-build.py`): `recordBuildInTicket`
  keeps one `[Available in builds: … ]` comment per ticket. The tracker
  client is the object the script's tests mock; it records every write call.
- **Swift upgrade** (`swift-syntax-upgrade/open2public.py`): ten `re.sub`
  rewrites applied in order. `open` becomes `public` and `fileprivate`
  becomes `private`.
- **Ticket ordering** (`jira/jira-find-pretty.py`):
  - `splitTicketKey` splits a key into a text prefix and a numeric suffix.
  - The last ticket read for each key wins.
  - Keys are then sorted on that pair, with `splitTicketKey` as written (see Findings).

Modelling choices:
- Git commands and tracker requests become function parameters (oracles):
  - `rev-parse --verify`, `merge-base --is-ancestor`, `config`, `ls-tree`;
  - the search endpoint and the linked-commit endpoint.
- `RevisionSpecifier` is a class. Verification changes its `gitModule` and
  `isReachable` fields in place, as the scripts do. Functions read its value
  through `Revisions.Snapshot`.
- Python dictionaries are Dafny maps. Where a script iterates over a dict,
  `Dicts.IterationOrder` supplies an arbitrary enumeration of the keys.
  Whatever holds for every order is proved.
- Python 2 `re` semantics are written out:
  - `\w` is `[A-Za-z0-9_]` and `\d` is `[0-9]`;
  - `$` also holds just before a final newline;
  - `^` under `re.MULTILINE` also holds after every newline;
  - greedy `.*` stops at a newline;
  - `re.sub` scans left to right, without overlaps;
  - `re.search` returns the leftmost match.

Where the scripts' names or docstrings suggest otherwise, the model follows
the code:
- `verifyRevisions` never leaves its module loop, so the **last** module in
  discovery order that accepts a revision wins, not the first.
- `filterUnreachables` keeps every issue without a reachable revision, orphans
  included, so the orphans are a subset of the unreachables.

## Model

| member | source | states |
|---|---|---|
| RevisionTokens.Tokens | git/jira-find.py:57 | The matches of `(?<!\w)[a-z0-9]{40}(?!\w)` in order of appearance, duplicates kept; characterised by TokensExact and TokensFromExact |
| RevisionTokens.ScanText | git/jira-find.py:57-58 | The `finditer` scan returns exactly `Tokens(s)`, every match of `(?<!\w)[a-z0-9]{40}(?!\w)` in order of appearance, duplicates kept |
| RevisionTokens.TokensExact | git/jira-find.py:57 | A text is a candidate iff it is a 40-character `[a-z0-9]` run with no word character right before or after it; every candidate is 40 lower-case alphanumerics |
| RevisionTokens.TokensFromExact | git/jira-find.py:57 | From any start, the scan finds exactly the matches that start there or later |
| RevisionTokens.NoTokenInsideToken | git/jira-find.py:57 | No match starts inside another match, so resuming after a match loses nothing |
| RevisionTokens.TokensOfConcat | git/jira-find.py:57-58 | When a non-word character joins two texts, their matches are the first text's followed by the second's |
| RevisionTokens.TokensFromConcat | git/jira-find.py:57-58 | A scan of `a + b` from inside `a` yields `a`'s remaining matches, then all of `b`'s, when a non-word character separates them |
| RevisionTokens.TokensShift | git/jira-find.py:57-58 | Scanning the suffix `b` of `a + b` after a non-word character is scanning `b` alone |
| Tracker.NameIndex | git/jira-find.py:17 | `dict([(f['name'], f['id']) for f in fields])`, built field by field so a later field with a name replaces an earlier one; characterised by NameIndexLast |
| Tracker.ResolveNames | git/jira-find.py:19-24 | The loop over the requested names, in order: a field id is kept, a known name becomes its id, anything else is dropped; characterised by ResolveNamesSound |
| Tracker.GetFieldIDs | git/jira-find.py:15-26 | The filtered ids are `ResolveNames(fields, rawNames)`: each name in request order is kept if it is an id, else replaced by its field's id, else dropped |
| Tracker.ResolveNamesSound | git/git-jira-log.py:14-25 | At most one id per requested name; every result is a known field id; nothing is dropped when every name is an id |
| Tracker.NameIndexLast | git/jira-find.py:17 | The name index has a name iff some field has it, and then holds the id of the last field with that name |
| Tracker.Collect | git/jira-find.py:29-35 | The pages requested at offset = issues gathered so far, size 128, appended until the first empty page, or `None` past the request bound; characterised by CollectStops and CollectAll |
| Tracker.GetAllIssues | git/jira-find.py:28-35 | The issues are `Collect` (pages requested at offset = issues gathered, size 128, until the first empty page); when it finishes, the page at the final count is empty |
| Tracker.CollectStops | git/git-jira-log.py:27-34 | A finished collection ends on an empty page at the offset equal to its length |
| Tracker.CollectAll | git/git-jira-log.py:27-34 | Against a tracker that serves slices of a fixed list, enough requests return the whole list in order, the last non-empty page included |
| Revisions.RevisionSpecifier.constructor | git/jira-find.py:43-47 | A new specifier holds its revision, no module, and is not reachable |
| Revisions.Texts | git/jira-find.py:45 | One revision text per specifier |
| Revisions.States | git/jira-find.py:43-47 | One state per specifier, the specifier's current fields |
| Revisions.Snapshot | git/jira-find.py:49-81 | The value of the revision map has the map's keys |
| Revisions.SnapshotIs | git/jira-find.py:87-88 | A map holding each issue's current states is the snapshot |
| Extraction.Bodies | git/jira-find.py:65-66 | The comment bodies, one per comment, in order |
| Extraction.NonMerges | git/jira-find.py:74 | A commit is kept iff it is in the group and is not a merge |
| Extraction.Latest | git/jira-find.py:76 | `sorted(nonMerges, key=authorTimestamp, reverse=True)[0]`: the first of the greatest timestamps; characterised by LatestIsFirstGreatest |
| Extraction.LatestIsFirstGreatest | git/jira-find.py:76 | The first element of the stable descending sort is the first commit of greatest timestamp; no commit has a greater one |
| Extraction.GroupCandidate | git/jira-find.py:74-77 | One repository group: the id of its latest non-merge commit, or nothing when it has none; characterised by GroupCandidateIsLatest |
| Extraction.GroupCandidateIsLatest | git/jira-find.py:73-77 | A group adds a candidate iff it has a non-merge commit; the candidate is a non-merge commit whose timestamp no other non-merge commit exceeds |
| Extraction.LinkedCandidates | git/jira-find.py:73-77 | Each repository group adds at most one candidate |
| Extraction.CandidateMap | git/jira-find.py:50-81 | The candidate texts stored under each issue key, issue after issue, a later issue replacing an earlier one with its key; characterised by CandidateMapLastWins and CandidateMapKeys |
| Extraction.CandidateMapLastWins | git/jira-find.py:79 | Every issue has an entry, holding the candidates of the last issue read with its key |
| Extraction.CandidateMapKeys | git/jira-find.py:79 | The map's keys are exactly the issues' keys |
| Extraction.FindRevisions | git/jira-find.py:56-58 | Appends one fresh, unverified specifier per match of the text, in order, keeping the earlier ones |
| Extraction.TextMap | git/jira-find.py:79 | The texts map has the revision map's keys |
| Extraction.ThreadRevisions | git/jira-find.py:65-66 | A comment thread adds the matches of its bodies, comment after comment, as fresh unverified specifiers |
| Extraction.FieldRevisions | git/jira-find.py:61-68 | One field adds the matches of its texts: nothing if absent or null, each comment body for `comment`, the text otherwise |
| Extraction.LinkedRevisions | git/jira-find.py:72-77 | The linked groups add their candidates after the text candidates, as fresh unverified specifiers |
| Extraction.IssueRevisions | git/jira-find.py:52-77 | An issue's specifiers are fresh, unverified, and their texts are its candidates: fields in request order, then linked candidates |
| Extraction.CandidateMapStep | git/jira-find.py:79 | Storing the next issue's specifiers extends the map by that issue |
| Extraction.TextMapUpdate | git/jira-find.py:79 | Storing a list under a key changes only that key's texts |
| Extraction.FindRevisionsSpecified | git/jira-find.py:49-81 | The texts of the result are `CandidateMap`; every specifier is fresh and unverified; `None` for the linked source models `git-jira-log` |
| ModuleDiscovery.JoinPath | git/jira-find.py:118 | `os.path.join`: an absolute second part replaces the first; the length is bounded by the parts |
| ModuleDiscovery.JoinPathParts | git/jira-find.py:118 | A relative part goes under the first with exactly one separator, unless the first is empty or already ends with `/` |
| ModuleDiscovery.ConfigLines | git/jira-find.py:118 | Empty config output, and only that, means no lines |
| ModuleDiscovery.IndexOf | git/jira-find.py:118 | The index of the first occurrence of a character, or none iff it does not occur |
| ModuleDiscovery.ValueOfConfigLine | git/jira-find.py:118 | `split(' ', 1)[1]` fails iff the line has no space |
| ModuleDiscovery.ValueOfConfigLineSplits | git/jira-find.py:118 | For a space-free key, the value is everything after the first space |
| ModuleDiscovery.SubmodulePaths | git/jira-find.py:117-118 | Empty config output gives no submodule |
| ModuleDiscovery.PathsOfLines | git/jira-find.py:118 | One path per config line |
| ModuleDiscovery.PathsOfLinesSound | git/jira-find.py:118 | Each path is the module's path joined with its line's value; a failure names a line without a space; no failure when every line has one |
| ModuleDiscovery.LeadingDigits | git/jira-find.py:121 | The maximal run of `\d` at the start of the entry |
| ModuleDiscovery.ParseTreeEntry | git/jira-find.py:121 | A parsed head is 40 characters without a newline |
| ModuleDiscovery.ParseTreeEntryShape | git/jira-find.py:121 | An entry parses iff it is digits, ` commit `, 40 non-newline characters and a tab, then anything; the head is those 40 characters |
| ModuleDiscovery.Discover | git/jira-find.py:111-124 | A successful discovery lists the module itself first, with the given revision as its head |
| ModuleDiscovery.DiscoverAll | git/jira-find.py:119-122 | The submodules' lists in config-line order, concatenated, or the first failure; characterised by DiscoverAllStep and DiscoverAllPrefixErr |
| ModuleDiscovery.DiscoverStep | git/jira-find.py:115-122 | The list is the module, then its submodules' lists in config-line order, unless one of them fails |
| ModuleDiscovery.DiscoverAllStep | git/jira-find.py:119-122 | One more submodule appends its list, or its failure is the result |
| ModuleDiscovery.DiscoverAllPrefixErr | git/jira-find.py:119-122 | The first failing submodule decides the result; later ones are not visited |
| ModuleDiscovery.ListSubmodules | git/jira-find.py:117-118 | The config query at a module's path, then its lines parsed into submodule paths, as `getGitModules` lists them; characterised by PathsOfLinesSound and NoSubmodules |
| ModuleDiscovery.ReadHead | git/jira-find.py:120-121 | The ls-tree query in the parent at the revision, then its entry parsed, a malformed entry being fatal; characterised by ReadHeadNames and ParseTreeEntryShape |
| ModuleDiscovery.ReadHeadNames | git/jira-find.py:120-121 | The ls-tree lookup only reports 40-character heads without a newline |
| ModuleDiscovery.GetGitModules | git/jira-find.py:111-124 | Succeeds iff discovery does, and then appends the discovered list to the accumulator; otherwise fails with discovery's error |
| ModuleDiscovery.AppendSubmodules | git/jira-find.py:119-122 | The loop appends the submodules' lists in order, stopping at the first failure |
| ModuleDiscovery.AppendSubmodule | git/jira-find.py:120-122 | One iteration: read the submodule's head from the parent's tree at the revision, then discover it there |
| ModuleDiscovery.SubmoduleHeads | git/jira-find.py:120-122 | Every module after the first is pinned to a head the lookup reported |
| ModuleDiscovery.AllHeads | git/jira-find.py:119-122 | Every module in the submodules' lists is pinned to a head the lookup reported |
| ModuleDiscovery.ScriptSubmoduleHeads | git/jira-find.py:111-124 | With the script's own lookups, every submodule is pinned to a 40-character head from its parent's tree |
| ModuleDiscovery.NoSubmodules | git/jira-find.py:118 | Empty config output: the list is the module alone |
| ModuleDiscovery.OneSubmodule | git/jira-find.py:117-122 | One config line `key value`: the submodule at `path/value` is looked up in the parent's tree; a malformed entry is fatal, otherwise its list follows the module |
| Verification.LastAccepting | git/jira-find.py:89-93 | Of the modules in discovery order, the last whose checkout accepts the revision; characterised by LastAcceptingMeaning |
| Verification.LastAcceptingMeaning | git/jira-find.py:89-93 | No module is found iff none accepts the revision; a found module accepts it and no later module does |
| Verification.ResolveModule | git/jira-find.py:89-93 | One specifier ends with the last accepting module, or keeps its module if none accepts; reachability unchanged |
| Verification.VerifyRevisions | git/jira-find.py:83-95 | Every specifier of every issue gets that resolution; reachability untouched |
| Verification.MarkReachability | git/jira-find.py:103-105 | A specifier with a module gets the ancestor oracle's answer at that module's path and head; one without is unchanged |
| Verification.VerifyReachability | git/jira-find.py:97-109 | Every specifier is marked that way; modules never change; a specifier reachable only with a module stays so |
| Verification.Verified | git/jira-find.py:83-109 | One specifier after `verifyRevisions` then `verifyReachability`; characterised by VerifiedFresh and tied to the methods by VerifyRevisions and VerifyReachability |
| Verification.VerifiedFresh | git/jira-find.py:83-109 | After both passes a fresh revision has no module iff no module accepts it, else the last accepting one; it is reachable only with a module, and then iff the oracle says so |
| Classification.Partition | git/jira-find.py:126-164 | Reachables and unreachables partition the issues; orphans are a subset of the unreachables; unreachable non-orphans are exactly the issues with a module but nothing reachable |
| Classification.KeepIfReachable | git/jira-find.py:129-131 | An issue is (re)assigned its full list iff it has a reachable revision |
| Classification.KeepsListsStep | git/jira-find.py:126-164 | One loop step keeps the filter's invariant: a kept key maps to the issue's full, unfiltered list |
| Classification.FilterReachables | git/jira-find.py:126-134 | The result maps exactly the issues with a revision that has a module and is reachable to their full lists |
| Classification.IssueIsReachable | git/jira-find.py:139-143 | The loop with `break` answers whether some revision has a module and is reachable |
| Classification.HasValidRevisions | git/jira-find.py:154-158 | The loop with `break` answers whether some revision has a module |
| Classification.FilterUnreachables | git/jira-find.py:136-149 | The result maps exactly the issues without a reachable revision, orphans included, to their full lists |
| Classification.FilterOrphants | git/jira-find.py:151-164 | The result maps exactly the issues without a revision that has a module to their full lists |
| Classification.SelectedKeysCases | git/jira-find.py:251-259 | No flag selects the reachables; both flags select exactly the unreachables; any flag excludes every reachable issue |
| Classification.KeepsListsUnion | git/jira-find.py:254-256 | `dict.update` of two filter results is the filter of the union of their key sets |
| Classification.SelectIssues | git/jira-find.py:251-259 | The printed map is the selected issues with their full lists |
| Classification.OrphantsUpdatedWithUnreachables | git/jira-find.py:253-256 | With both flags, orphans updated with unreachables hold the union of both sets |
| Classification.SelectLogIssues | git/git-jira-log.py:218-223 | `--orphants` prints the orphans, otherwise the reachables; neither selection shares a key with the other set |
| Dicts.IterationOrder | git/jira-find.py:183 | The enumeration lists each key of the dict exactly once |
| Projection.FirstIssue | git/jira-find.py:184 | No issue is found iff none has the key; the one found is the first with it |
| Projection.ResolutionName | git/jira-find.py:191 | A named resolution gives its name; a null one gives `Unresolved` in `jira-find` and is fatal in `git-jira-log` (git/git-jira-log.py:162) |
| Projection.RevisionRecords | git/jira-find.py:186-193 | One record per revision |
| Projection.RevisionRecordsMeaning | git/jira-find.py:186-193 | Record i carries the key, endpoint, fields, revision i's text and its module's URL, or no URL without a module; no revision gives no record |
| Projection.IssueFields | git/jira-find.py:190-191 | The summary and resolution name every record of an issue carries, or the failure reading them; characterised by IssueRecordsCases |
| Projection.IssueRecords | git/jira-find.py:184-193 | One outer iteration: the issue lookup, then one record per revision with the fields read only when there is one; characterised by IssueRecordsCases |
| Projection.IssueRecordsCases | git/jira-find.py:184-193 | A missing issue is fatal; an issue without revisions gives no record and reads no field; otherwise its summary and resolution name are reported, a null resolution by script |
| Projection.RecordsInOrder | git/jira-find.py:183-193 | The records of the issues in iteration order, or the first failure; characterised by RecordsInOrderMeaning and RecordsInOrderStep |
| Projection.RecordsInOrderMeaning | git/jira-find.py:183-193 | Printing succeeds iff every issue's records can be built; then one record per (issue, revision) pair, each issue's records included and none from elsewhere; a failure is one issue's failure |
| Projection.RecordsOfIssue | git/jira-find.py:185-193 | The inner loop produces the issue's records, or the failure reading its fields; no revision, no read |
| Projection.FindIssue | git/jira-find.py:184 | The loop finds the first issue with the key |
| Projection.FirstIssueStep | git/jira-find.py:184 | Extending the searched prefix changes the first match only if there was none |
| Projection.FirstIssueAppend | git/jira-find.py:184 | An appended issue is found only if no earlier one has the key |
| Projection.ReportIssue | git/jira-find.py:184-193 | One outer iteration gives that issue's records or failure |
| Projection.RecordsInOrderStep | git/jira-find.py:183-193 | Reporting one more issue appends its records, or its failure ends the output |
| Projection.PrintIssues | git/jira-find.py:181-194 | The records of every selected issue in the dict's iteration order, which lists each selected key once, or the first failure |
| QueryRewrite.MentionsStatus | git/git-jira-log.py:204 | Some position holds `status` in any ASCII case with a non-word character or an end of the query on either side; equated with the search by SearchStatus |
| QueryRewrite.SearchFrom | git/git-jira-log.py:204 | The scan succeeds iff the pattern matches at some position at or after the start |
| QueryRewrite.SearchStatus | git/git-jira-log.py:204 | The search succeeds iff `status`, in any case, is bounded by non-word characters or the ends of the query |
| QueryRewrite.WithDefaultStatus | git/git-jira-log.py:204-205 | A query mentioning `status` is unchanged; any other becomes `(q) and status = Resolved` |
| QueryRewrite.ClauseMentionsStatus | git/git-jira-log.py:205 | The added clause mentions `status` |
| QueryRewrite.WithDefaultStatusIdempotent | git/git-jira-log.py:204-205 | Every rewritten query mentions `status`, so a second rewrite changes nothing |
| QueryRewrite.UpperCaseMentions | git/git-jira-log.py:204 | `STATUS = Open` counts as a mention |
| QueryRewrite.LongerWordsDoNotMention | git/git-jira-log.py:204 | `statusX` and `x_status` do not count as mentions |
| QueryRewrite.WithoutLetterSRewritten | git/git-jira-log.py:204-205 | A query without the letter `s` gets the clause |
| QueryRewrite.StatusWordStart | git/git-jira-log.py:204 | A mention starts with `s` in either case |
| BuildRecord.Format | jira/jira-record-build.py:78-81 | `"[Available in builds: {0} ]".format(", ".join(builds))`; read back by FormatParses |
| BuildRecord.LastClose | jira/jira-record-build.py:67 | The last `" ]"` in a range, or none iff none occurs there |
| BuildRecord.MarkerAt | jira/jira-record-build.py:67 | The marker pattern tried at one position: the prefix, then everything up to the last `" ]"` on its line; characterised by MarkerAtMeaning |
| BuildRecord.MarkerAtMeaning | jira/jira-record-build.py:67 | The match at a position is exactly the greedy match of the marker pattern, and is found whenever the pattern can match there |
| BuildRecord.NoCloseNoMatch | jira/jira-record-build.py:67 | Without a `" ]"` later on the line the pattern cannot match |
| BuildRecord.LastCloseMatches | jira/jira-record-build.py:67 | The last `" ]"` on the line closes the greedy match |
| BuildRecord.SearchFromMeaning | jira/jira-record-build.py:67 | `re.search` returns the match at the leftmost position with one, and nothing when there is none |
| BuildRecord.SearchMarker | jira/jira-record-build.py:67 | `re.search` of the marker pattern on a body: the `builds` group of the leftmost match; characterised by SearchFromMeaning |
| BuildRecord.ShortBodyHasNoMarker | jira/jira-record-build.py:31 | A body shorter than the prefix, such as `test`, has no marker |
| BuildRecord.JoinWithout | jira/jira-record-build.py:78 | Joining parts and separator without a character gives a text without it |
| BuildRecord.MarkerAtStart | jira/jira-record-build.py:67 | A marker alone on its line matches at its start, with the inner text as its group |
| BuildRecord.FormatSearched | jira/jira-record-build.py:67-78 | A formatted marker is found, with the joined list as its group |
| BuildRecord.FormatParses | jira/jira-record-build.py:67-78 | Formatting a non-empty list and reading it back with the regex and `split(", ")` gives the list, when no id holds `", "` or a newline |
| BuildRecord.SplitPartsFree | jira/jira-record-build.py:74 | No part of `split` holds the separator |
| BuildRecord.ExtendFirstPart | jira/jira-record-build.py:74 | A leading character that starts no separator can be put back on the first part |
| BuildRecord.SplitPartsWithout | jira/jira-record-build.py:74 | The parts of a text without a character do not contain it |
| BuildRecord.MarkerGroupWithoutNewline | jira/jira-record-build.py:67 | A marker's group has no newline |
| BuildRecord.FirstMarker | jira/jira-record-build.py:66-71 | No marker iff no comment's body matches; otherwise the first matching comment and its group |
| BuildRecord.FirstMarkerAt | jira/jira-record-build.py:66-71 | The first marker is the one at `i` when no earlier comment matches |
| BuildRecord.FreeWithoutComma | jira/jira-record-build.py:74 | A text without a comma holds no separator |
| BuildRecord.ExpectedCalls | jira/jira-record-build.py:73-81 | The writes `recordBuildInTicket` makes given the ticket's comments; characterised by ExpectedCallsCases |
| BuildRecord.ExpectedCallsCases | jira/jira-record-build.py:73-81 | At most one write; an add of the one-build marker when no comment matches; nothing iff the first marker lists the build; otherwise an update of that comment with its builds then the new one |
| BuildRecord.RecordAfterAddWritesNothing | jira/jira-record-build.py:73-81 | Recording a build again after its marker was added writes nothing, for ids without `", "` or newline |
| BuildRecord.RecordAfterUpdateWritesNothing | jira/jira-record-build.py:74-79 | Recording a build again after the update writes nothing: the updated comment is still first and lists it |
| BuildRecord.UpdatedListHasBuild | jira/jira-record-build.py:74-78 | The updated marker reads back as the old list then the build |
| BuildRecord.OneRecordedBuild | jira/jira-record-build.py:38-58 | One comment recording one build: the same build writes nothing, another is appended by an update |
| BuildRecord.NoPreviousRecordAddsRecord | jira/jira-record-build.py:27-36 | A ticket whose only comment is `test` gets one added `[Available in builds: abcd123 ]` comment |
| BuildRecord.Client.constructor | jira/jira-record-build.py:12-25 | A new mock client has its comment data and no recorded call |
| BuildRecord.Client.GetComments | jira/jira-record-build.py:62 | Returns the fixed comments of the ticket |
| BuildRecord.Client.AddComment | jira/jira-record-build.py:13-16 | Records one add call and nothing else |
| BuildRecord.Client.UpdateComment | jira/jira-record-build.py:18-21 | Records one update call and nothing else |
| BuildRecord.FindMarkerComment | jira/jira-record-build.py:64-71 | The loop with `break` finds the first comment whose body matches, with its group, or none iff none matches |
| BuildRecord.RecordBuildInTicket | jira/jira-record-build.py:60-81 | The client's call log grows by exactly `ExpectedCalls` of the ticket's comments |
| SwiftUpgrade.CloseParen | swift-syntax-upgrade/open2public.py:12 | The first `)` at or after a position, or none iff there is none |
| SwiftUpgrade.ObjcEnd | swift-syntax-upgrade/open2public.py:12-16 | A found group is at least `@objc` and is followed by the rule's tail |
| SwiftUpgrade.ObjcEndNeedsObjc | swift-syntax-upgrade/open2public.py:12-16 | A group is found only where `@objc` starts |
| SwiftUpgrade.ObjcEndMeaning | swift-syntax-upgrade/open2public.py:12-16 | The group found is exactly an `@objc` or `@objc(x)`, `x` non-empty and free of `)`, followed by the tail |
| SwiftUpgrade.ObjcRuleRewrites | swift-syntax-upgrade/open2public.py:12-16 | An `@objc` rule meeting its lead, an attribute group and its tail (at a line start when anchored) emits the lead, the group unchanged and the new tail, and resumes after the tail |
| SwiftUpgrade.ArgumentGroup | swift-syntax-upgrade/open2public.py:12-16 | `@objc(x)` with `x` non-empty and free of `)` is a group `(@objc(\([^)]+\))?)` matches |
| SwiftUpgrade.ObjcClassLine | swift-syntax-upgrade/open2public.py:12 | A line `@objc(x) open class …` becomes `@objc(x) public class …`, the rest of the text rewritten by the same rule |
| SwiftUpgrade.ObjcMemberLine | swift-syntax-upgrade/open2public.py:16 | A line `    @objc(x) open …` becomes `    @objc(x) public …`, the rest rewritten by the same rule |
| SwiftUpgrade.MatchOf | swift-syntax-upgrade/open2public.py:11-20 | A match covers at least one character inside the text |
| SwiftUpgrade.SubFromCopy | swift-syntax-upgrade/open2public.py:11-20 | Where no match starts, `re.sub` copies one character |
| SwiftUpgrade.SubFromReplace | swift-syntax-upgrade/open2public.py:11-20 | Where a match starts, `re.sub` emits its replacement and resumes after it |
| SwiftUpgrade.SubFrom | swift-syntax-upgrade/open2public.py:11-20 | `re.sub` from a position: a match is replaced and the scan resumes after it, elsewhere one character is copied; characterised per rule by LiteralSubFrom, AtLineStartFrom and ObjcRuleRewrites |
| SwiftUpgrade.Sub | swift-syntax-upgrade/open2public.py:11-20 | One `re.sub` over the whole text; equal to `rep.join(s.split(pat))` for a literal rule (LiteralIsSplitJoin) and to a per-line rewrite for a `^` rule (AtLineStartPerLine) |
| SwiftUpgrade.LiteralSubFrom | swift-syntax-upgrade/open2public.py:13-20 | A literal rule from any position is `rep.join(split(pat))` of the rest |
| SwiftUpgrade.LiteralStepReplace | swift-syntax-upgrade/open2public.py:13 | Where the pattern occurs, both sides replace it and go on after it |
| SwiftUpgrade.LiteralStepCopy | swift-syntax-upgrade/open2public.py:13 | Elsewhere both sides copy one character |
| SwiftUpgrade.LiteralIsSplitJoin | swift-syntax-upgrade/open2public.py:13-20 | A literal rule replaces every non-overlapping occurrence, leftmost first, whatever follows: `rep.join(s.split(pat))` |
| SwiftUpgrade.ReplaceLeadingAll | swift-syntax-upgrade/open2public.py:11-17 | Each line is rewritten on its own |
| SwiftUpgrade.CopyInsideLine | swift-syntax-upgrade/open2public.py:11-17 | Away from a line start, an anchored rule only copies |
| SwiftUpgrade.PatternInsideLine | swift-syntax-upgrade/open2public.py:11-17 | An occurrence of a newline-free pattern ends inside its line |
| SwiftUpgrade.LineHeadReplaced | swift-syntax-upgrade/open2public.py:11-17 | A line starting with the pattern has it replaced and its rest copied |
| SwiftUpgrade.LineHeadCopied | swift-syntax-upgrade/open2public.py:11-17 | A line not starting with the pattern is copied |
| SwiftUpgrade.LineHead | swift-syntax-upgrade/open2public.py:11-17 | One line is rewritten by its head alone |
| SwiftUpgrade.SplitAtNewline | swift-syntax-upgrade/open2public.py:11-17 | Splitting at newlines yields the first line, then the split of the rest |
| SwiftUpgrade.LastLine | swift-syntax-upgrade/open2public.py:11-17 | The last line is rewritten alone |
| SwiftUpgrade.NextLine | swift-syntax-upgrade/open2public.py:11-17 | A line ending in a newline is rewritten, then the lines after it |
| SwiftUpgrade.AtLineStartFrom | swift-syntax-upgrade/open2public.py:11-17 | From a line start, an anchored rule rewrites line by line |
| SwiftUpgrade.AtLineStartPerLine | swift-syntax-upgrade/open2public.py:11-17 | `^pat` under MULTILINE replaces a leading `pat` in every line and nothing else |
| SwiftUpgrade.ApplyInOrder | swift-syntax-upgrade/open2public.py:10-21 | The rules applied in order, each to the previous result; identity when none matches (ApplyWithoutMatch) |
| SwiftUpgrade.Open2Public | swift-syntax-upgrade/open2public.py:10-21 | `open2public`: `Rules`, the ten rewrites of open2public.py:11-20 in source order, applied by ApplyInOrder; identity on source without `open` or `fileprivate` (WithoutKeywordsUnchanged) |
| SwiftUpgrade.SubFromWithoutMatch | swift-syntax-upgrade/open2public.py:11-20 | With no match, `re.sub` from a position copies the rest |
| SwiftUpgrade.SubWithoutMatch | swift-syntax-upgrade/open2public.py:11-20 | A rule that matches nowhere leaves the text unchanged |
| SwiftUpgrade.ApplyWithoutMatch | swift-syntax-upgrade/open2public.py:10-21 | A chain none of whose rules matches leaves the text unchanged |
| SwiftUpgrade.OccursInside | swift-syntax-upgrade/open2public.py:11-20 | An occurrence of a pattern brings along the words inside it |
| SwiftUpgrade.NoMatchWithout | swift-syntax-upgrade/open2public.py:11-20 | A rule whose match needs a word does not match a text free of it |
| SwiftUpgrade.OpenRulesNeedOpen | swift-syntax-upgrade/open2public.py:11-16 | The first six rules only match where `open` occurs |
| SwiftUpgrade.FileprivateRulesNeedFileprivate | swift-syntax-upgrade/open2public.py:17-20 | The last four rules only match where `fileprivate` occurs |
| SwiftUpgrade.WithoutKeywordsUnchanged | swift-syntax-upgrade/open2public.py:10-21 | Source mentioning neither `open` nor `fileprivate` is returned unchanged |
| SwiftUpgrade.NoIndentPastIndentation | swift-syntax-upgrade/open2public.py:31 | No four-space run of a comment line starts in the last three spaces of its indentation or later |
| SwiftUpgrade.IndentFree | swift-syntax-upgrade/open2public.py:31 | In a comment line, four spaces are followed only by a space or `/` |
| SwiftUpgrade.CommentFileprivateFree | swift-syntax-upgrade/open2public.py:31 | A comment line mentions `fileprivate` only where its text does |
| SwiftUpgrade.AnchoredRuleSkipsComment | swift-syntax-upgrade/open2public.py:11-17 | A line-anchored rule whose pattern starts with neither space nor `/` leaves a comment line alone |
| SwiftUpgrade.MemberObjcRuleSkipsComment | swift-syntax-upgrade/open2public.py:16 | The member `@objc` rule leaves a comment line alone |
| SwiftUpgrade.CommentLineUnchanged | swift-syntax-upgrade/open2public.py:31-55 | An indented comment like `        // open class - should stay untouched` is left as it is by the whole chain |
| TicketOrder.DollarEnd | jira/jira-find-pretty.py:11 | `$` holds at the returned position |
| TicketOrder.RunStart | jira/jira-find-pretty.py:11 | The start of the maximal run of digits ending at a position |
| TicketOrder.RunStartLeftmost | jira/jira-find-pretty.py:11 | No run of digits ending there starts earlier |
| TicketOrder.RunStartExact | jira/jira-find-pretty.py:11 | A run not preceded by a digit starts where `RunStart` says |
| TicketOrder.TrailingDigits | jira/jira-find-pretty.py:11 | `re.search(r"\d+$", key)`: the span of the match, if any; characterised by TrailingDigitsMeaning |
| TicketOrder.TrailingDigitsMeaning | jira/jira-find-pretty.py:11 | The span is the leftmost span `\d+$` can match, every match ends there, and there is none iff the pattern cannot match |
| TicketOrder.SplitTicketKeyAsWritten | jira/jira-find-pretty.py:8-15 | `splitTicketKey` as written, the prefix cut at `len(key) - len(m.group(0))`; the split the sort uses; agrees with the corrected split on keys without a final newline (AsWrittenAgrees) and keeps a digit otherwise (AsWrittenFinalNewline) |
| TicketOrder.SplitTicketKey | jira/jira-find-pretty.py:8-15 | `splitTicketKey` with the prefix cut where the match starts; characterised by SplitTicketKeyMeaning |
| TicketOrder.SplitTicketKeyMeaning | jira/jira-find-pretty.py:8-15 | A key ending in digits splits into the key up to its maximal trailing digit run and that run's value; prefix, digits and any final newline give back the key; the prefix does not end in a digit; other keys pair with 0 |
| TicketOrder.SplitPrefixDigits | jira/jira-find-pretty.py:11-14 | A prefix not ending in a digit, then digits: the key splits into exactly those two |
| TicketOrder.SplitsOfParts | jira/jira-find-pretty.py:11-14 | Both splits of a prefix, digits and an optional final newline |
| TicketOrder.SplitsAt | jira/jira-find-pretty.py:11-14 | Both splits of a key whose `\d+$` match is a given span |
| TicketOrder.AsWrittenAgrees | jira/jira-find-pretty.py:14 | On a key without a final newline, the code as written splits where the match starts |
| TicketOrder.AsWrittenFinalNewline | jira/jira-find-pretty.py:11-14 | With a final newline, the code as written keeps the first digit in the prefix; the corrected split does not |
| TicketOrder.StrLessIrreflexive | jira/jira-find-pretty.py:24 | No string is before itself |
| TicketOrder.StrLessTransitive | jira/jira-find-pretty.py:24 | String order is transitive |
| TicketOrder.StrLessTotal | jira/jira-find-pretty.py:24 | Two different strings are ordered one way |
| TicketOrder.KeyLessOrder | jira/jira-find-pretty.py:24 | The order on split keys is a strict total order |
| TicketOrder.NumericSuffixOrder | jira/jira-find-pretty.py:24 | Keys with the same prefix sort by the value of their digits, under the split as written and the corrected one |
| TicketOrder.NineBeforeTen | jira/jira-find-pretty.py:24 | `9` has a smaller value than `10` though `…10` precedes `…9` as text, so `ABC-9` sorts first |
| TicketOrder.StrLessAfterCommonPrefix | jira/jira-find-pretty.py:24 | A common prefix keeps the order |
| TicketOrder.Insert | jira/jira-find-pretty.py:24 | For any split, inserting adds the key once and keeps all others |
| TicketOrder.SortByTicketKey | jira/jira-find-pretty.py:24 | `sorted(keys, key=split)` as a stable insertion sort; with `SplitTicketKeyAsWritten` it is the script's sort; sorted and a permutation by SortByTicketKeyCorrect |
| TicketOrder.InsertSorted | jira/jira-find-pretty.py:24 | Inserting into a sorted list keeps it sorted |
| TicketOrder.SortedCons | jira/jira-find-pretty.py:24 | A key not after any key of a sorted list can go in front |
| TicketOrder.SortByTicketKeyCorrect | jira/jira-find-pretty.py:24 | For any split, the sort's output is sorted by split key and a permutation of its input |
| TicketOrder.LastByKey | jira/jira-find-pretty.py:21-23 | The ticket map after reading the tickets in order, a later ticket replacing an earlier one with its key; characterised by LastByKeyKeys and LastByKeyLast |
| TicketOrder.SortBySameSplit | jira/jira-find-pretty.py:24 | Two splits that agree on every key give the same sort |
| TicketOrder.InsertBySameSplit | jira/jira-find-pretty.py:24 | Two splits that agree on the keys insert alike |
| TicketOrder.SortAsWrittenAgrees | jira/jira-find-pretty.py:24 | On keys without a final newline, as the tracker's keys are, the script's sort equals the sort by the corrected split |
| TicketOrder.NewlineKeySplits | jira/jira-find-pretty.py:11-14 | `ABC-12` and `ABC-3` with a final newline split as `("ABC-1", 12)` and `("ABC-3", 3)` as written, `("ABC-", 12)` and `("ABC-", 3)` corrected |
| TicketOrder.PrefixOrder | jira/jira-find-pretty.py:24 | `("ABC-3", 3)` does not sort before `("ABC-1", 12)` |
| TicketOrder.SortsDifferOnFinalNewline | jira/jira-find-pretty.py:24 | The script sorts `ABC-12` before `ABC-3` when both end in a newline; the corrected split sorts them the other way |
| TicketOrder.LastByKeyKeys | jira/jira-find-pretty.py:21-23 | A key is in the map iff some ticket read has it |
| TicketOrder.LastByKeyLast | jira/jira-find-pretty.py:21-23 | Each key holds the last ticket read with that key |
| TicketOrder.TicketsMap | jira/jira-find-pretty.py:21-23 | The loop builds the last-wins map |
| TicketOrder.OrderedTickets | jira/jira-find-pretty.py:21-24 | One ticket per distinct key read, each the last read with its key, in the order of `sorted` with `splitTicketKey` as written |
| TicketOrder.DistinctKeys | jira/jira-find-pretty.py:24 | A dict's enumeration of keys has no repeat |
| TicketOrder.EnumerationWithRepeat | jira/jira-find-pretty.py:24 | A list with a repeat is longer than the set it covers |
| Text.LineEnd | jira/jira-record-build.py:67 | The first newline at or after a position, or the end |
| Text.Join | jira/jira-record-build.py:78 | `sep.join(parts)`; `split(", ")` undoes it for parts free of `", "` (SplitJoinCommaSpace), and a separator-free join is free of a character (BuildRecord.JoinWithout) |
| Text.Split | jira/jira-record-build.py:74 | `str.split` for a non-empty separator: a text without the separator is its own only part (SplitFree), the first cut falls after the first occurrence (SplitAfterPrefix), and it undoes `", ".join` (SplitJoinCommaSpace) |
| Text.SplitFree | jira/jira-record-build.py:74 | A text without the separator splits into itself |
| Text.SplitAfterPrefix | jira/jira-record-build.py:74 | The first cut falls after the first occurrence |
| Text.SplitJoinCommaSpace | jira/jira-record-build.py:74-78 | `split(", ")` undoes `", ".join` of a non-empty list of parts free of `", "` |

## Left out

- Running git and reaching the tracker. This covers `execCommand` (including its output stripping), the HTTP client modules `git/jira.py` and `jira/jira.py`, and their JSON. Each git query and tracker request is a function parameter, and its output is taken as already stripped.
- Command-line parsing, credentials, reading stdin and writing stdout, the JSON dumps, `logDebug` and the `DEBUG` switch. These are the script main blocks around the modelled calls, for example jira/jira-record-build.py:110-117 and jira/jira-find-pretty.py:26-27. The unittest runner is also left out, but the three record-build tests are stated as lemmas.
- Endpoint normalisation with `urlparse` (git/jira-find.py:233-237). It is a thin wrapper over a library.
- The order in which Python 2 iterates a dict. Every statement is made for any enumeration of the keys.
- Tracker.GetAllIssues: the unbounded `while True` is cut off after `fuel` requests, and `None` reports that the bound was hit. The source loops forever on a tracker that never returns an empty page.
- ModuleDiscovery.GetGitModules: recursion is bounded by `fuel`. The script does not terminate on a cyclic submodule graph. The script's shared mutable default accumulator becomes an explicit `out` parameter.
- Extraction.FindRevisionsSpecified: requires that every requested field of an issue is null, a text, or, for `comment`, a thread. The script would fail on any other JSON shape.
- BuildRecord.Client.GetComments: the mock client's comments do not change when comments are added or updated, as in the script's tests.
- SwiftUpgrade.Open2Public: the worked example of open2public.py:25-74 is not evaluated as one literal. It is too long for the solver. CommentLineUnchanged and the per-rule lemmas cover its shapes.
- Output formatting of `jira-find-pretty` (the `{endpoint}/browse/{key}` line) and its UTF-8 encoding.

## Findings

| source | as written | input that shows it | evidently intended | confidence | as-written member | corrected member |
|---|---|---|---|---|---|---|
| jira/jira-find-pretty.py:11-14 | `prefix = key[0:len(key) - len(m.group(0))]`, while `\d+$` can match before a final newline | a key `ABC-12` followed by a newline gives `("ABC-1", 12)` | the prefix up to where the match starts, `("ABC-", 12)` | low: keys from the tracker carry no newline, and on such keys the two sorts agree (SortAsWrittenAgrees); the script's order follows the as-written split, as `OrderedTickets` does, and differs on keys with a final newline (SortsDifferOnFinalNewline); not executed | TicketOrder.AsWrittenFinalNewline | TicketOrder.SplitTicketKeyMeaning |
