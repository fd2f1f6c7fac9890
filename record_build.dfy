/**
 * `jira-record-build`'s `recordBuildInTicket`: keep one comment per ticket
 * that lists the builds containing the ticket's fix.
 *
 * The tracker client is the object the script's tests mock: it answers the
 * comment query from fixed data and records every write call it receives.
 */
module BuildRecord {
  import opened Wrappers
  import opened Text
  import opened Tracker

  const Prefix: string := "[Available in builds: "
  const Suffix: string := " ]"
  const Separator: string := ", "

  /** `"[Available in builds: {0} ]".format(", ".join(builds))` */
  function Format(builds: seq<string>): string {
    Prefix + Join(builds, Separator) + Suffix
  }

  // ------------------------------------------------------------ the marker regex

  /** The last `" ]"` that starts in `[s, j]`. */
  function LastClose(body: string, s: nat, j: int): (r: Option<nat>)
    ensures r.Some? ==> s <= r.value <= j && OccursAt(body, r.value, Suffix)
    ensures r.Some? ==> forall t :: r.value < t <= j ==> !OccursAt(body, t, Suffix)
    ensures r.None? ==> forall t :: s <= t <= j ==> !OccursAt(body, t, Suffix)
    decreases j - s + 1
  {
    if j < s then None
    else if OccursAt(body, j, Suffix) then Some(j)
    else LastClose(body, s, j - 1)
  }

  /**
   * `\[Available in builds: (?P<builds>.*) \]` tried at `i`: the prefix,
   * then, `.*` being greedy and stopping at a newline, everything up to the
   * last `" ]"` on the same line.
   */
  function MarkerAt(body: string, i: nat): Option<string> {
    if !OccursAt(body, i, Prefix) then None
    else
      var s := i + |Prefix|;
      match LastClose(body, s, LineEnd(body, s) - |Suffix|)
      case None => None
      case Some(j) => Some(body[s..j])
  }

  /** The regex matches at `i` with `builds` as its group: what the pattern and greediness demand. */
  predicate MatchesAt(body: string, i: nat, builds: string) {
    var s := i + |Prefix|;
    OccursAt(body, i, Prefix) && s + |builds| <= |body| && body[s..s + |builds|] == builds
    && '\n' !in builds && OccursAt(body, s + |builds|, Suffix)
    && forall t :: s + |builds| < t <= |body| && '\n' !in body[s..t] ==> !OccursAt(body, t, Suffix)
  }

  /** `MarkerAt` finds exactly the greedy match, and finds one whenever the pattern can match at `i`. */
  lemma MarkerAtMeaning(body: string, i: nat)
    ensures MarkerAt(body, i).Some? ==> MatchesAt(body, i, MarkerAt(body, i).value)
    ensures (exists b :: MatchesAt(body, i, b)) ==> MarkerAt(body, i).Some?
  {
    var s := i + |Prefix|;
    if OccursAt(body, i, Prefix) {
      var k := LineEnd(body, s);
      match LastClose(body, s, k - |Suffix|)
      case None => NoCloseNoMatch(body, i);
      case Some(j) => LastCloseMatches(body, i, j);
    }
  }

  /** Without a `" ]"` on the rest of the line the pattern cannot match. */
  lemma NoCloseNoMatch(body: string, i: nat)
    requires OccursAt(body, i, Prefix)
    requires var s := i + |Prefix|; LastClose(body, s, LineEnd(body, s) - |Suffix|).None?
    ensures forall b :: !MatchesAt(body, i, b)
  {
    var s := i + |Prefix|;
    var k := LineEnd(body, s);
    forall b | MatchesAt(body, i, b)
      ensures false
    {
    }
  }

  /** The last `" ]"` on the line closes the greedy match. */
  lemma LastCloseMatches(body: string, i: nat, j: nat)
    requires OccursAt(body, i, Prefix)
    requires var s := i + |Prefix|; LastClose(body, s, LineEnd(body, s) - |Suffix|) == Some(j)
    ensures MatchesAt(body, i, body[i + |Prefix|..j])
  {
    var s := i + |Prefix|;
    var k := LineEnd(body, s);
    var b := body[s..j];
    forall x | 0 <= x < |b|
      ensures b[x] != '\n'
    {
      assert b[x] == body[s..k][x];
    }
    assert body[s..s + |b|] == b;
    forall t | k < t <= |body|
      ensures '\n' in body[s..t]
    {
      assert body[s..t][k - s] == '\n';
    }
    forall t | k - |Suffix| < t <= k
      ensures !OccursAt(body, t, Suffix)
    {
      if t + |Suffix| <= |body| {
        assert body[t..t + |Suffix|][k - t] == '\n';
      }
    }
  }

  /** `re.search`'s scan from `i`: the match at the leftmost start at or after `i`. */
  function SearchFrom(body: string, i: nat): Option<string>
    requires i <= |body|
    decreases |body| - i
  {
    if MarkerAt(body, i).Some? then MarkerAt(body, i)
    else if i == |body| then None
    else SearchFrom(body, i + 1)
  }

  /** The scan finds the match at the leftmost start where there is one, and nothing when there is none. */
  lemma {:induction false} SearchFromMeaning(body: string, i: nat)
    requires i <= |body|
    ensures SearchFrom(body, i).Some? ==> exists j :: (i <= j <= |body| && MarkerAt(body, j) == SearchFrom(body, i)
      && forall t :: i <= t < j ==> MarkerAt(body, t).None?)
    ensures SearchFrom(body, i).None? ==> forall j :: i <= j <= |body| ==> MarkerAt(body, j).None?
    decreases |body| - i
  {
    if MarkerAt(body, i).None? && i < |body| {
      SearchFromMeaning(body, i + 1);
      if SearchFrom(body, i + 1).Some? {
        var j :| i + 1 <= j <= |body| && MarkerAt(body, j) == SearchFrom(body, i + 1)
          && forall t :: i + 1 <= t < j ==> MarkerAt(body, t).None?;
        assert forall t :: i <= t < j ==> MarkerAt(body, t).None?;
      }
    }
  }

  /** The `builds` group of `re.search` on a comment body. */
  function SearchMarker(body: string): Option<string> {
    SearchFrom(body, 0)
  }

  /** A body too short to hold the prefix has no marker, such as `test`. */
  lemma ShortBodyHasNoMarker(body: string)
    requires |body| < |Prefix|
    ensures SearchMarker(body).None?
  {
    SearchFromMeaning(body, 0);
    assert forall j :: 0 <= j <= |body| ==> MarkerAt(body, j).None?;
  }

  // ------------------------------------------------------------ round trip

  lemma {:induction false} JoinWithout(parts: seq<string>, sep: string, c: char)
    requires c !in sep
    requires forall k :: 0 <= k < |parts| ==> c !in parts[k]
    ensures c !in Join(parts, sep)
    decreases |parts|
  {
    if |parts| > 1 {
      JoinWithout(parts[1..], sep, c);
    }
  }

  /** A marker alone on its line is matched at its start, and its group is the text inside. */
  lemma MarkerAtStart(x: string)
    requires '\n' !in x
    ensures MarkerAt(Prefix + x + Suffix, 0) == Some(x)
  {
    var f := Prefix + x + Suffix;
    var s := |Prefix|;
    assert f[..s] == Prefix;
    assert f[s..] == x + Suffix;
    var k := LineEnd(f, s);
    assert f[|f| - |Suffix|..] == Suffix;
    assert OccursAt(f, |f| - |Suffix|, Suffix);
    assert f[s..|f| - |Suffix|] == x;
  }

  /** A formatted marker is found at its start, and its group is the joined list. */
  lemma FormatSearched(builds: seq<string>)
    requires forall k :: 0 <= k < |builds| ==> '\n' !in builds[k]
    ensures SearchMarker(Format(builds)) == Some(Join(builds, Separator))
  {
    JoinWithout(builds, Separator, '\n');
    MarkerAtStart(Join(builds, Separator));
  }

  /**
   * Formatting a non-empty list and reading it back with the marker regex and
   * `split(", ")` gives the list again, when no build id holds `", "` or a
   * newline.
   */
  lemma FormatParses(builds: seq<string>)
    requires |builds| > 0
    requires forall k :: 0 <= k < |builds| ==> Free(builds[k], Separator) && '\n' !in builds[k]
    ensures SearchMarker(Format(builds)).Some?
    ensures Split(SearchMarker(Format(builds)).value, Separator) == builds
  {
    FormatSearched(builds);
    SplitJoinCommaSpace(builds);
  }

  /** A part of `split` never holds the separator. */
  lemma {:induction false} SplitPartsFree(s: string, sep: string)
    requires |sep| > 0
    ensures var parts := Split(s, sep);
      (forall k :: 0 <= k < |parts| ==> Free(parts[k], sep))
      && |parts[0]| <= |s| && s[..|parts[0]|] == parts[0]
    decreases |s|
  {
    var parts := Split(s, sep);
    if |s| < |sep| {
      forall i | 0 <= i < |s| ensures !OccursAt(s, i, sep) {}
    } else if s[..|sep|] == sep {
      SplitPartsFree(s[|sep|..], sep);
      assert parts == [""] + Split(s[|sep|..], sep);
      forall k | 0 <= k < |parts| ensures Free(parts[k], sep) {
        if k > 0 {
          assert parts[k] == Split(s[|sep|..], sep)[k - 1];
        }
      }
    } else {
      var rest := Split(s[1..], sep);
      SplitPartsFree(s[1..], sep);
      ExtendFirstPart(s, sep, rest[0]);
      assert parts == [[s[0]] + rest[0]] + rest[1..];
      forall k | 0 <= k < |parts| ensures Free(parts[k], sep) {
        if k > 0 {
          assert parts[k] == rest[k];
        }
      }
    }
  }

  /** When no separator starts `s`, putting `s[0]` back in front of the next part keeps it free and a prefix of `s`. */
  lemma ExtendFirstPart(s: string, sep: string, part: string)
    requires |sep| > 0 && |s| >= |sep| && s[..|sep|] != sep
    requires Free(part, sep) && |part| <= |s[1..]| && s[1..][..|part|] == part
    ensures var first := [s[0]] + part;
      Free(first, sep) && |first| <= |s| && s[..|first|] == first
  {
    var first := [s[0]] + part;
    assert s[..|first|] == first;
    forall i | 0 <= i < |first|
      ensures !OccursAt(first, i, sep)
    {
      if i == 0 {
        if |sep| <= |first| {
          assert first[..|sep|] == s[..|sep|];
        }
      } else if i + |sep| <= |first| {
        assert first[i..i + |sep|] == part[i - 1..i - 1 + |sep|];
        assert !OccursAt(part, i - 1, sep);
      }
    }
  }

  /** A marker's group has no newline, so neither has any of its parts. */
  lemma {:induction false} SplitPartsWithout(s: string, sep: string, c: char)
    requires |sep| > 0 && c !in s
    ensures forall k :: 0 <= k < |Split(s, sep)| ==> c !in Split(s, sep)[k]
    decreases |s|
  {
    if |s| < |sep| {
    } else if s[..|sep|] == sep {
      SplitPartsWithout(s[|sep|..], sep, c);
      assert c !in s[|sep|..];
    } else {
      SplitPartsWithout(s[1..], sep, c);
      assert c !in s[1..];
    }
  }

  // ------------------------------------------------------------ the decision

  /** A write the script makes through the tracker client. */
  datatype Call =
    | AddComment(ticketKey: string, body: string)
    | UpdateComment(ticketKey: string, commentId: string, body: string)

  /** The first comment, in list order, whose body holds a marker, with the marker's group. */
  function FirstMarker(comments: seq<Comment>): (r: Option<(Comment, string)>)
    ensures r.None? <==> forall i :: 0 <= i < |comments| ==> SearchMarker(comments[i].body).None?
    ensures r.Some? ==> exists i :: (0 <= i < |comments| && comments[i] == r.value.0
      && SearchMarker(comments[i].body) == Some(r.value.1)
      && forall j :: 0 <= j < i ==> SearchMarker(comments[j].body).None?)
  {
    if |comments| == 0 then None
    else match SearchMarker(comments[0].body)
      case Some(builds) => Some((comments[0], builds))
      case None =>
        var r := FirstMarker(comments[1..]);
        assert forall i :: 1 <= i < |comments| ==> comments[i] == comments[1..][i - 1];
        r
  }

  /** The writes `recordBuildInTicket(client, ticketKey, buildId)` makes, given the ticket's comments. */
  function ExpectedCalls(comments: seq<Comment>, ticketKey: string, buildId: string): seq<Call> {
    match FirstMarker(comments)
    case None => [AddComment(ticketKey, Format([buildId]))]
    case Some((comment, builds)) =>
      var existingBuilds := Split(builds, Separator);
      if buildId in existingBuilds then []
      else [UpdateComment(ticketKey, comment.id, Format(existingBuilds + [buildId]))]
  }

  /**
   * At most one write: an added marker naming only the build when no comment
   * has one; nothing when the first marker already lists the build; else an
   * update of that comment listing its builds in order, then the new one.
   */
  lemma ExpectedCallsCases(comments: seq<Comment>, ticketKey: string, buildId: string)
    ensures |ExpectedCalls(comments, ticketKey, buildId)| <= 1
    ensures (forall i :: 0 <= i < |comments| ==> SearchMarker(comments[i].body).None?) ==>
      ExpectedCalls(comments, ticketKey, buildId) == [AddComment(ticketKey, Prefix + buildId + Suffix)]
    ensures forall c :: c in ExpectedCalls(comments, ticketKey, buildId) && c.UpdateComment? ==>
      exists i :: (0 <= i < |comments| && c.commentId == comments[i].id && SearchMarker(comments[i].body).Some?
        && c.body == Format(Split(SearchMarker(comments[i].body).value, Separator) + [buildId])
        && buildId !in Split(SearchMarker(comments[i].body).value, Separator)
        && forall j :: 0 <= j < i ==> SearchMarker(comments[j].body).None?)
    ensures ExpectedCalls(comments, ticketKey, buildId) == [] <==>
      exists i :: (0 <= i < |comments| && SearchMarker(comments[i].body).Some?
        && buildId in Split(SearchMarker(comments[i].body).value, Separator)
        && forall j :: 0 <= j < i ==> SearchMarker(comments[j].body).None?)
  {
    forall i | 0 <= i < |comments| && SearchMarker(comments[i].body).Some?
      && (forall j :: 0 <= j < i ==> SearchMarker(comments[j].body).None?)
      ensures FirstMarker(comments) == Some((comments[i], SearchMarker(comments[i].body).value))
    {
      FirstMarkerAt(comments, i);
    }
  }

  /**
   * Recording the same build again after the comment was added writes
   * nothing, provided the build id holds neither `", "` nor a newline.
   */
  lemma RecordAfterAddWritesNothing(comments: seq<Comment>, ticketKey: string, buildId: string, newId: string)
    requires Free(buildId, Separator) && '\n' !in buildId
    requires FirstMarker(comments).None?
    ensures ExpectedCalls(comments, ticketKey, buildId) == [AddComment(ticketKey, Format([buildId]))]
    ensures ExpectedCalls(comments + [Comment(newId, Format([buildId]))], ticketKey, buildId) == []
  {
    var added := comments + [Comment(newId, Format([buildId]))];
    assert forall i :: 0 <= i < |comments| ==> added[i] == comments[i];
    FormatParses([buildId]);
    FirstMarkerAt(added, |comments|);
  }

  /**
   * Recording the same build again after the update writes nothing: the
   * updated comment is still the first marker and now lists the build.
   */
  lemma RecordAfterUpdateWritesNothing(comments: seq<Comment>, ticketKey: string, buildId: string, i: nat)
    requires Free(buildId, Separator) && '\n' !in buildId
    requires i < |comments| && SearchMarker(comments[i].body).Some?
    requires forall j :: 0 <= j < i ==> SearchMarker(comments[j].body).None?
    requires buildId !in Split(SearchMarker(comments[i].body).value, Separator)
    ensures var listed := Split(SearchMarker(comments[i].body).value, Separator) + [buildId];
      ExpectedCalls(comments, ticketKey, buildId) == [UpdateComment(ticketKey, comments[i].id, Format(listed))]
      && ExpectedCalls(comments[i := Comment(comments[i].id, Format(listed))], ticketKey, buildId) == []
  {
    var builds := SearchMarker(comments[i].body).value;
    var listed := Split(builds, Separator) + [buildId];
    FirstMarkerAt(comments, i);
    var updated := comments[i := Comment(comments[i].id, Format(listed))];
    MarkerGroupWithoutNewline(comments[i].body);
    UpdatedListHasBuild(builds, buildId);
    assert forall j :: 0 <= j < i ==> updated[j] == comments[j];
    FirstMarkerAt(updated, i);
  }

  /** The updated marker reads back as the old list followed by the build. */
  lemma UpdatedListHasBuild(builds: string, buildId: string)
    requires '\n' !in builds
    requires Free(buildId, Separator) && '\n' !in buildId
    ensures var listed := Split(builds, Separator) + [buildId];
      SearchMarker(Format(listed)).Some? && Split(SearchMarker(Format(listed)).value, Separator) == listed
      && buildId in listed
  {
    var listed := Split(builds, Separator) + [buildId];
    SplitPartsFree(builds, Separator);
    SplitPartsWithout(builds, Separator, '\n');
    FormatParses(listed);
    assert buildId == listed[|listed| - 1];
  }

  /** The group of a found marker has no newline. */
  lemma MarkerGroupWithoutNewline(body: string)
    ensures SearchMarker(body).Some? ==> '\n' !in SearchMarker(body).value
  {
    SearchFromMeaning(body, 0);
    if SearchMarker(body).Some? {
      var j :| 0 <= j <= |body| && MarkerAt(body, j) == SearchMarker(body);
      MarkerAtMeaning(body, j);
    }
  }

  /** The first marker is the one at `i` when none comes before it. */
  lemma {:induction false} FirstMarkerAt(comments: seq<Comment>, i: nat)
    requires i < |comments| && SearchMarker(comments[i].body).Some?
    requires forall j :: 0 <= j < i ==> SearchMarker(comments[j].body).None?
    ensures FirstMarker(comments) == Some((comments[i], SearchMarker(comments[i].body).value))
    decreases i
  {
    if i > 0 {
      var tail := comments[1..];
      assert SearchMarker(comments[0].body).None?;
      assert FirstMarker(comments) == FirstMarker(tail);
      assert tail[i - 1] == comments[i];
      forall j | 0 <= j < i - 1
        ensures SearchMarker(tail[j].body).None?
      {
        assert tail[j] == comments[j + 1];
      }
      FirstMarkerAt(tail, i - 1);
    }
  }

  /** A text without a comma holds no separator. */
  lemma FreeWithoutComma(x: string)
    requires ',' !in x
    ensures Free(x, Separator)
  {
    forall i | 0 <= i < |x|
      ensures !OccursAt(x, i, Separator)
    {
      if i + |Separator| <= |x| {
        assert x[i..i + |Separator|][0] == x[i];
      }
    }
  }

  /** A ticket whose one comment records one build: the same build writes nothing, another is appended. */
  lemma OneRecordedBuild(ticketKey: string, commentId: string, recorded: string, buildId: string)
    requires ',' !in recorded && '\n' !in recorded
    ensures ExpectedCalls([Comment(commentId, Format([recorded]))], ticketKey, buildId) ==
      if buildId == recorded then [] else [UpdateComment(ticketKey, commentId, Format([recorded, buildId]))]
  {
    var c := Comment(commentId, Format([recorded]));
    FreeWithoutComma(recorded);
    FormatParses([recorded]);
    FirstMarkerAt([c], 0);
    assert [recorded] + [buildId] == [recorded, buildId];
  }

  /** No previous record: one comment naming the build is added. */
  lemma NoPreviousRecordAddsRecord()
    ensures ExpectedCalls([Comment("1234", "test")], "KEY-123", "abcd123")
            == [AddComment("KEY-123", "[Available in builds: abcd123 ]")]
  {
    ShortBodyHasNoMarker("test");
    assert FirstMarker([Comment("1234", "test")]).None?;
    assert Format(["abcd123"]) == "[Available in builds: abcd123 ]";
  }

  // ------------------------------------------------------------ the client and the script

  /** The tracker client as the tests mock it: fixed comments, recorded writes. */
  class Client {
    const commentsOf: string -> seq<Comment>
    var calls: seq<Call>

    constructor (commentsOf: string -> seq<Comment>)
      ensures this.commentsOf == commentsOf && calls == []
    {
      this.commentsOf := commentsOf;
      calls := [];
    }

    method GetComments(ticketKey: string) returns (comments: seq<Comment>)
      ensures comments == commentsOf(ticketKey)
    {
      comments := commentsOf(ticketKey);
    }

    method AddComment(ticketKey: string, body: string)
      modifies this
      ensures calls == old(calls) + [Call.AddComment(ticketKey, body)]
    {
      calls := calls + [Call.AddComment(ticketKey, body)];
    }

    method UpdateComment(ticketKey: string, commentId: string, body: string)
      modifies this
      ensures calls == old(calls) + [Call.UpdateComment(ticketKey, commentId, body)]
    {
      calls := calls + [Call.UpdateComment(ticketKey, commentId, body)];
    }
  }

  /** The loop with `break`: the first comment whose body the marker regex matches, and its group. */
  method FindMarkerComment(comments: seq<Comment>) returns (existingComment: Option<Comment>, existingBuilds: Option<string>)
    ensures existingComment.Some? <==> FirstMarker(comments).Some?
    ensures existingComment.Some? ==>
      existingBuilds.Some? && FirstMarker(comments) == Some((existingComment.value, existingBuilds.value))
  {
    existingComment := None;
    existingBuilds := None;
    for i := 0 to |comments|
      invariant forall j :: 0 <= j < i ==> SearchMarker(comments[j].body).None?
    {
      existingBuilds := SearchMarker(comments[i].body);
      if existingBuilds.Some? {
        existingComment := Some(comments[i]);
        FirstMarkerAt(comments, i);
        return;
      }
    }
  }

  /** `recordBuildInTicket(jiraClient, ticketKey, buildId)` */
  method RecordBuildInTicket(client: Client, ticketKey: string, buildId: string)
    modifies client
    ensures client.calls == old(client.calls) + ExpectedCalls(client.commentsOf(ticketKey), ticketKey, buildId)
  {
    var comments := client.GetComments(ticketKey);
    var existingComment, existingBuildsMatch := FindMarkerComment(comments);
    if existingComment.Some? {
      var existingBuilds := Split(existingBuildsMatch.value, Separator);
      if buildId !in existingBuilds {
        existingBuilds := existingBuilds + [buildId];
        var updatedText := Prefix + Join(existingBuilds, Separator) + Suffix;
        client.UpdateComment(ticketKey, existingComment.value.id, updatedText);
      }
    } else {
      client.AddComment(ticketKey, Prefix + buildId + Suffix);
    }
  }
}
