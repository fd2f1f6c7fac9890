/**
 * `open2public`: the Swift source rewrite that turns the `open` access level
 * into `public` and `fileprivate` into `private`, as a chain of ten
 * `re.sub` calls applied one after the other.
 */
module SwiftUpgrade {
  import opened Wrappers
  import opened Text

  /**
   * One `re.sub` of the chain.
   * - `Literal(pat, rep)`: a pattern without metacharacters.
   * - `AtLineStart(pat, rep)`: `^pat` under `re.MULTILINE`.
   * - `ObjcAttribute(lead, tail, newTail, anchored)`: the pattern
   *   `lead(@objc(\([^)]+\))?)tail` with replacement `lead\1newTail`; with
   *   `anchored`, a leading `^` under `re.MULTILINE`.
   */
  datatype Rule =
    | Literal(pat: string, rep: string)
    | AtLineStart(pat: string, rep: string)
    | ObjcAttribute(lead: string, tail: string, newTail: string, anchored: bool)

  /** A match: how many characters it covers and the text that replaces them. */
  datatype Match = Match(len: nat, replacement: string)

  const Objc: string := "@objc"
  const LeftParen: char := '('
  const RightParen: char := ')'

  /** `^` under `re.MULTILINE` holds at `i`: the start of the text or just after a newline. */
  predicate LineStart(s: string, i: nat) {
    i == 0 || (i <= |s| && s[i - 1] == '\n')
  }

  /** The first `)` at or after index `j`. */
  function CloseParen(s: string, j: nat): (r: Option<nat>)
    ensures r.Some? ==> j <= r.value < |s| && s[r.value] == RightParen
    ensures r.Some? ==> forall k :: j <= k < r.value ==> s[k] != RightParen
    ensures r.None? ==> forall k :: j <= k < |s| ==> s[k] != RightParen
    decreases |s| - j
  {
    if j >= |s| then None
    else if s[j] == RightParen then Some(j)
    else CloseParen(s, j + 1)
  }

  /**
   * Where the group `(@objc(\([^)]+\))?)` that starts at `j` ends when `tail`
   * must follow it. The optional argument is tried first; `[^)]+` cannot
   * pass a `)`, so the argument can only end at the first `)`, and it must
   * not be empty. Only when that fails is the bare `@objc` tried.
   */
  function ObjcEnd(s: string, j: nat, tail: string): (e: Option<nat>)
    ensures e.Some? ==> j + |Objc| <= e.value && OccursAt(s, e.value, tail)
  {
    if !OccursAt(s, j, Objc) then None
    else
      var a := j + |Objc|;
      var withArgument :=
        if a < |s| && s[a] == LeftParen then
          match CloseParen(s, a + 1)
          case Some(k) => if k > a + 1 && OccursAt(s, k + 1, tail) then Some(k + 1) else None
          case None => None
        else None;
      if withArgument.Some? then withArgument
      else if OccursAt(s, a, tail) then Some(a)
      else None
  }

  /** A group is only found where `@objc` starts. */
  lemma ObjcEndNeedsObjc(s: string, j: nat, tail: string)
    ensures ObjcEnd(s, j, tail).Some? ==> OccursAt(s, j, Objc)
  {
  }

  /** The attribute group `@objc` or `@objc(x)`, with `x` not empty and free of `)`, spans `s[j..e]`. */
  predicate ObjcGroup(s: string, j: nat, e: nat) {
    j + |Objc| <= e <= |s| && OccursAt(s, j, Objc)
    && (e == j + |Objc|
        || (e >= j + |Objc| + 3 && s[j + |Objc|] == LeftParen && s[e - 1] == RightParen
            && forall k :: j + |Objc| < k < e - 1 ==> s[k] != RightParen))
  }

  /**
   * `ObjcEnd` finds a group followed by `tail`, and finds one whenever
   * there is one (which is then unique, `tail` not starting with `(`).
   */
  lemma ObjcEndMeaning(s: string, j: nat, tail: string, e: nat)
    requires |tail| > 0 && tail[0] != LeftParen
    ensures ObjcEnd(s, j, tail) == Some(e) <==> ObjcGroup(s, j, e) && OccursAt(s, e, tail)
  {
    var a := j + |Objc|;
    if ObjcGroup(s, j, e) && OccursAt(s, e, tail) {
      if e == a {
        assert s[a] == tail[0];
      } else {
        var k := e - 1;
        assert s[k] == RightParen;
        assert forall t :: a + 1 <= t < k ==> s[t] != RightParen;
      }
    }
  }

  /** The match rule `rule` makes at index `i` of `s`, if any. */
  function MatchOf(rule: Rule, s: string, i: nat): (m: Option<Match>)
    ensures m.Some? ==> 0 < m.value.len && i + m.value.len <= |s|
  {
    match rule
    case Literal(pat, rep) =>
      if |pat| > 0 && OccursAt(s, i, pat) then Some(Match(|pat|, rep)) else None
    case AtLineStart(pat, rep) =>
      if |pat| > 0 && LineStart(s, i) && OccursAt(s, i, pat) then Some(Match(|pat|, rep)) else None
    case ObjcAttribute(lead, tail, newTail, anchored) =>
      if (anchored ==> LineStart(s, i)) && OccursAt(s, i, lead) then
        match ObjcEnd(s, i + |lead|, tail)
        case Some(e) => Some(Match(e + |tail| - i, lead + s[i + |lead|..e] + newTail))
        case None => None
      else None
  }

  /**
   * `re.sub` from index `i` on: scanning left to right, a match is replaced
   * and the scan resumes after it; elsewhere the character is copied.
   */
  function SubFrom(rule: Rule, s: string, i: nat): string
    requires i <= |s|
    decreases |s| - i
  {
    if i == |s| then ""
    else
      match MatchOf(rule, s, i)
      case Some(m) => m.replacement + SubFrom(rule, s, i + m.len)
      case None => [s[i]] + SubFrom(rule, s, i + 1)
  }

  /** Where no match starts, `re.sub` copies one character. */
  lemma SubFromCopy(rule: Rule, s: string, i: nat)
    requires i < |s| && MatchOf(rule, s, i).None?
    ensures SubFrom(rule, s, i) == [s[i]] + SubFrom(rule, s, i + 1)
  {
  }

  /** Where a match starts, `re.sub` emits its replacement and resumes after it. */
  lemma SubFromReplace(rule: Rule, s: string, i: nat, m: Match)
    requires i < |s| && MatchOf(rule, s, i) == Some(m)
    ensures i + m.len <= |s|
    ensures SubFrom(rule, s, i) == m.replacement + SubFrom(rule, s, i + m.len)
  {
  }

  /** `re.sub` of one rule over the whole text. */
  function Sub(rule: Rule, s: string): string {
    SubFrom(rule, s, 0)
  }

  /** The rules of `open2public`, in the order they are applied. */
  const Rules: seq<Rule> := [
    AtLineStart("open class", "public class"),
    ObjcAttribute("", " open class", " public class", true),
    Literal("    open", "    public"),
    Literal("    static open", "    static public"),
    Literal("    override open", "    override public"),
    ObjcAttribute("    ", " open", " public", false),
    AtLineStart("fileprivate class", "private class"),
    Literal("    fileprivate", "    private"),
    Literal(" fileprivate(set) ", " private(set) "),
    Literal("    static fileprivate", "    static private")
  ]

  /** Each rule applied to the result of the previous one. */
  function ApplyInOrder(rules: seq<Rule>, s: string): string
    decreases |rules|
  {
    if |rules| == 0 then s else ApplyInOrder(rules[1..], Sub(rules[0], s))
  }

  /** `open2public` */
  function Open2Public(source: string): string {
    ApplyInOrder(Rules, source)
  }

  // ------------------------------------------------------------ the `@objc` rules

  /**
   * An `@objc` rule meeting its lead at `i`, then an attribute group ending
   * at `e`, then its tail (at a line start when anchored) emits the lead,
   * the group unchanged and the new tail, then goes on after the tail.
   */
  lemma ObjcRuleRewrites(rule: Rule, s: string, i: nat, e: nat)
    requires rule.ObjcAttribute? && |rule.tail| > 0 && rule.tail[0] != LeftParen
    requires rule.anchored ==> LineStart(s, i)
    requires OccursAt(s, i, rule.lead) && ObjcGroup(s, i + |rule.lead|, e) && OccursAt(s, e, rule.tail)
    ensures SubFrom(rule, s, i) == rule.lead + s[i + |rule.lead|..e] + rule.newTail + SubFrom(rule, s, e + |rule.tail|)
  {
    ObjcEndMeaning(s, i + |rule.lead|, rule.tail, e);
    assert MatchOf(rule, s, i) == Some(Match(e + |rule.tail| - i, rule.lead + s[i + |rule.lead|..e] + rule.newTail));
  }

  /** `@objc(arg)`, with `arg` not empty and free of `)`, is an attribute group. */
  lemma ArgumentGroup(s: string, j: nat, arg: string)
    requires |arg| > 0 && RightParen !in arg
    requires OccursAt(s, j, Objc + [LeftParen] + arg + [RightParen])
    ensures ObjcGroup(s, j, j + |Objc| + |arg| + 2)
  {
    var group := Objc + [LeftParen] + arg + [RightParen];
    var e := j + |group|;
    assert s[j..e] == group;
    assert s[j..j + |Objc|] == Objc by {
      assert s[j..j + |Objc|] == s[j..e][..|Objc|];
      assert group[..|Objc|] == Objc;
    }
    assert s[j + |Objc|] == group[|Objc|];
    assert s[e - 1] == group[|group| - 1];
    forall k | j + |Objc| < k < e - 1
      ensures s[k] != RightParen
    {
      assert s[k] == group[k - j] == arg[k - j - |Objc| - 1];
    }
  }

  /** The class rule turns a line `@objc(arg) open class …` into `@objc(arg) public class …`. */
  lemma ObjcClassLine(arg: string, rest: string)
    requires |arg| > 0 && RightParen !in arg
    ensures var group := Objc + [LeftParen] + arg + [RightParen];
      var s := group + " open class" + rest;
      Sub(Rules[1], s) == group + " public class" + SubFrom(Rules[1], s, |group| + |" open class"|)
  {
    var group := Objc + [LeftParen] + arg + [RightParen];
    var s := group + " open class" + rest;
    var rule := Rules[1];
    assert rule == ObjcAttribute("", " open class", " public class", true);
    assert s[..|group|] == group;
    assert s[|group|..|group| + |" open class"|] == " open class";
    assert s[0..0] == "";
    ArgumentGroup(s, 0, arg);
    ObjcRuleRewrites(rule, s, 0, |group|);
    assert s[0..|group|] == group;
  }

  /** The member rule turns a line `    @objc(arg) open …` into `    @objc(arg) public …`. */
  lemma ObjcMemberLine(arg: string, rest: string)
    requires |arg| > 0 && RightParen !in arg
    ensures var group := Objc + [LeftParen] + arg + [RightParen];
      var s := "    " + group + " open" + rest;
      Sub(Rules[5], s) == "    " + group + " public" + SubFrom(Rules[5], s, |s| - |rest|)
  {
    var group := Objc + [LeftParen] + arg + [RightParen];
    var s := "    " + group + " open" + rest;
    var rule := Rules[5];
    assert rule == ObjcAttribute("    ", " open", " public", false);
    var e := 4 + |group|;
    assert s[..4] == "    ";
    assert s[4..e] == group;
    assert s[e..e + 5] == " open";
    ArgumentGroup(s, 4, arg);
    ObjcRuleRewrites(rule, s, 0, e);
  }

  // ------------------------------------------------------------ reference definitions

  /** `Join` of a list whose first part gains a leading text. */
  lemma JoinPrepend(c: string, parts: seq<string>, sep: string)
    requires |parts| >= 1
    ensures Join([c + parts[0]] + parts[1..], sep) == c + Join(parts, sep)
  {
    var q := [c + parts[0]] + parts[1..];
    if |parts| > 1 {
      assert q[1..] == parts[1..];
    }
  }

  lemma {:induction false} LiteralSubFrom(pat: string, rep: string, s: string, i: nat)
    requires |pat| > 0 && i <= |s|
    ensures SubFrom(Literal(pat, rep), s, i) == Join(Split(s[i..], pat), rep)
    decreases |s| - i
  {
    if i < |s| {
      if OccursAt(s, i, pat) {
        LiteralSubFrom(pat, rep, s, i + |pat|);
        LiteralStepReplace(pat, rep, s, i);
      } else {
        LiteralSubFrom(pat, rep, s, i + 1);
        LiteralStepCopy(pat, rep, s, i);
      }
    }
  }

  /** Where `pat` occurs, both sides emit `rep` and go on after the occurrence. */
  lemma LiteralStepReplace(pat: string, rep: string, s: string, i: nat)
    requires |pat| > 0 && OccursAt(s, i, pat)
    requires SubFrom(Literal(pat, rep), s, i + |pat|) == Join(Split(s[i + |pat|..], pat), rep)
    ensures SubFrom(Literal(pat, rep), s, i) == Join(Split(s[i..], pat), rep)
  {
    var t := s[i..];
    assert t[..|pat|] == s[i..i + |pat|];
    assert t[|pat|..] == s[i + |pat|..];
    SubFromReplace(Literal(pat, rep), s, i, Match(|pat|, rep));
  }

  /** Elsewhere both sides copy one character. */
  lemma LiteralStepCopy(pat: string, rep: string, s: string, i: nat)
    requires |pat| > 0 && i < |s| && !OccursAt(s, i, pat)
    requires SubFrom(Literal(pat, rep), s, i + 1) == Join(Split(s[i + 1..], pat), rep)
    ensures SubFrom(Literal(pat, rep), s, i) == Join(Split(s[i..], pat), rep)
  {
    var t := s[i..];
    assert t[1..] == s[i + 1..];
    SubFromCopy(Literal(pat, rep), s, i);
    if |t| < |pat| {
      assert [s[i]] + t[1..] == t;
    } else {
      assert t[..|pat|] == s[i..i + |pat|];
      JoinPrepend([s[i]], Split(t[1..], pat), rep);
    }
  }

  /**
   * A rule without metacharacters is `rep.join(s.split(pat))`: `re.sub` and
   * `str.split` cut at the same occurrences, leftmost first, not overlapping.
   */
  lemma LiteralIsSplitJoin(pat: string, rep: string, s: string)
    requires |pat| > 0
    ensures Sub(Literal(pat, rep), s) == Join(Split(s, pat), rep)
  {
    LiteralSubFrom(pat, rep, s, 0);
    assert s[0..] == s;
  }

  /** What `^pat` under `re.MULTILINE` does to one line: a leading `pat` becomes `rep`. */
  function ReplaceLeading(line: string, pat: string, rep: string): string {
    if OccursAt(line, 0, pat) then rep + line[|pat|..] else line
  }

  function ReplaceLeadingAll(lines: seq<string>, pat: string, rep: string): (r: seq<string>)
    ensures |r| == |lines|
    ensures forall k :: 0 <= k < |lines| ==> r[k] == ReplaceLeading(lines[k], pat, rep)
  {
    if |lines| == 0 then [] else [ReplaceLeading(lines[0], pat, rep)] + ReplaceLeadingAll(lines[1..], pat, rep)
  }

  lemma FreeOfChar(x: string, c: char)
    requires c !in x
    ensures Free(x, [c])
  {
    forall t | 0 <= t < |x|
      ensures !OccursAt(x, t, [c])
    {
      if t + 1 <= |x| {
        assert x[t..t + 1][0] == x[t];
      }
    }
  }

  /** Inside a line, away from its start, a line-anchored rule only copies. */
  lemma {:induction false} CopyInsideLine(pat: string, rep: string, s: string, j: nat, k: nat)
    requires 0 < j <= k <= |s| && s[j - 1] != '\n'
    requires forall t :: j <= t < k ==> s[t] != '\n'
    ensures SubFrom(AtLineStart(pat, rep), s, j) == s[j..k] + SubFrom(AtLineStart(pat, rep), s, k)
    decreases k - j
  {
    if j < k {
      assert !LineStart(s, j);
      SubFromCopy(AtLineStart(pat, rep), s, j);
      CopyInsideLine(pat, rep, s, j + 1, k);
      assert s[j..k] == [s[j]] + s[j + 1..k];
    }
  }

  /** An occurrence of a pattern without newlines ends inside its line. */
  lemma PatternInsideLine(pat: string, s: string, i: nat, k: nat)
    requires '\n' !in pat && OccursAt(s, i, pat)
    requires i <= k <= |s| && (k == |s| || s[k] == '\n')
    ensures i + |pat| <= k
  {
    forall t | i <= t < i + |pat|
      ensures s[t] != '\n'
    {
      assert s[t] == s[i..i + |pat|][t - i];
    }
  }

  /** A line `s[i..k]` that starts with `pat`: the rule replaces it and copies the rest of the line. */
  lemma LineHeadReplaced(pat: string, rep: string, s: string, i: nat, k: nat)
    requires |pat| > 0 && '\n' !in pat
    requires i <= k <= |s| && LineStart(s, i) && OccursAt(s, i, pat)
    requires forall t :: i <= t < k ==> s[t] != '\n'
    requires k == |s| || s[k] == '\n'
    ensures i + |pat| <= k
    ensures SubFrom(AtLineStart(pat, rep), s, i) == rep + s[i + |pat|..k] + SubFrom(AtLineStart(pat, rep), s, k)
  {
    PatternInsideLine(pat, s, i, k);
    SubFromReplace(AtLineStart(pat, rep), s, i, Match(|pat|, rep));
    CopyInsideLine(pat, rep, s, i + |pat|, k);
  }

  /** A line `s[i..k]` that does not start with `pat`: the rule copies it. */
  lemma LineHeadCopied(pat: string, rep: string, s: string, i: nat, k: nat)
    requires i <= k <= |s| && !OccursAt(s, i, pat)
    requires forall t :: i <= t < k ==> s[t] != '\n'
    ensures SubFrom(AtLineStart(pat, rep), s, i) == s[i..k] + SubFrom(AtLineStart(pat, rep), s, k)
  {
    if i < k {
      SubFromCopy(AtLineStart(pat, rep), s, i);
      CopyInsideLine(pat, rep, s, i + 1, k);
      assert s[i..k] == [s[i]] + s[i + 1..k];
    }
  }

  /** A line-anchored rule on the line `s[i..k]`, which starts at `i` and ends at a newline or the end of `s`. */
  lemma LineHead(pat: string, rep: string, s: string, i: nat, k: nat)
    requires |pat| > 0 && '\n' !in pat
    requires i <= k <= |s| && LineStart(s, i)
    requires forall t :: i <= t < k ==> s[t] != '\n'
    requires k == |s| || s[k] == '\n'
    ensures SubFrom(AtLineStart(pat, rep), s, i)
      == ReplaceLeading(s[i..k], pat, rep) + SubFrom(AtLineStart(pat, rep), s, k)
  {
    var line := s[i..k];
    if OccursAt(s, i, pat) {
      LineHeadReplaced(pat, rep, s, i, k);
      SliceOfSlice(s, i, k, 0, |pat|);
      SliceOfSlice(s, i, k, |pat|, k - i);
      assert ReplaceLeading(line, pat, rep) == rep + s[i + |pat|..k];
    } else {
      assert !OccursAt(line, 0, pat) by {
        if |pat| <= |line| {
          SliceOfSlice(s, i, k, 0, |pat|);
        }
      }
      LineHeadCopied(pat, rep, s, i, k);
    }
  }

  /** `Join` of a list with a first part: that part, the separator, the rest joined. */
  lemma JoinCons(a: string, rest: seq<string>, sep: string)
    requires |rest| >= 1
    ensures Join([a] + rest, sep) == a + sep + Join(rest, sep)
  {
    assert ([a] + rest)[1..] == rest;
  }

  /** `split("\n")` from `i` when the first newline is at `k`: the line, then the split of what follows. */
  lemma SplitAtNewline(s: string, i: nat, k: nat)
    requires i <= k < |s| && s[k] == '\n'
    requires forall t :: i <= t < k ==> s[t] != '\n'
    ensures Split(s[i..], "\n") == [s[i..k]] + Split(s[k + 1..], "\n")
  {
    var line := s[i..k];
    var x := line + "\n" + s[k + 1..];
    assert s[i..] == x;
    forall t | 0 <= t < |line|
      ensures !OccursAt(x, t, "\n")
    {
      assert x[t..t + 1][0] == s[i + t];
    }
    SplitAfterPrefix(line, "\n", s[k + 1..]);
  }

  /** The last line of `s` starts at `i`: the rule rewrites it alone. */
  lemma LastLine(pat: string, rep: string, s: string, i: nat)
    requires |pat| > 0 && '\n' !in pat
    requires i <= |s| && LineStart(s, i) && '\n' !in s[i..]
    ensures SubFrom(AtLineStart(pat, rep), s, i) == Join(ReplaceLeadingAll(Split(s[i..], "\n"), pat, rep), "\n")
  {
    var line := s[i..];
    forall t | i <= t < |s|
      ensures s[t] != '\n'
    {
      assert s[t] == line[t - i];
    }
    LineHead(pat, rep, s, i, |s|);
    assert s[i..|s|] == line;
    FreeOfChar(line, '\n');
    SplitFree(line, "\n");
    var head := ReplaceLeading(line, pat, rep);
    assert ReplaceLeadingAll([line], pat, rep) == [head];
    assert SubFrom(AtLineStart(pat, rep), s, |s|) == "";
    assert SubFrom(AtLineStart(pat, rep), s, i) == head + "";
  }

  /** The line `s[i..k]` ends at a newline: the rule rewrites it, then the lines after the newline. */
  lemma NextLine(pat: string, rep: string, s: string, i: nat, k: nat)
    requires |pat| > 0 && '\n' !in pat
    requires i <= k < |s| && LineStart(s, i) && s[k] == '\n'
    requires forall t :: i <= t < k ==> s[t] != '\n'
    requires SubFrom(AtLineStart(pat, rep), s, k + 1) == Join(ReplaceLeadingAll(Split(s[k + 1..], "\n"), pat, rep), "\n")
    ensures SubFrom(AtLineStart(pat, rep), s, i) == Join(ReplaceLeadingAll(Split(s[i..], "\n"), pat, rep), "\n")
  {
    var rule := AtLineStart(pat, rep);
    var line := s[i..k];
    LineHead(pat, rep, s, i, k);
    var head := ReplaceLeading(line, pat, rep);
    assert pat[0] in pat;
    SubFromCopy(rule, s, k);
    var rest := Split(s[k + 1..], "\n");
    SplitAtNewline(s, i, k);
    var r := ReplaceLeadingAll(rest, pat, rep);
    assert ReplaceLeadingAll([line] + rest, pat, rep) == [head] + r;
    JoinCons(head, r, "\n");
    assert SubFrom(rule, s, i) == head + ("\n" + Join(r, "\n"));
  }

  lemma {:induction false} AtLineStartFrom(pat: string, rep: string, s: string, i: nat)
    requires |pat| > 0 && '\n' !in pat
    requires i <= |s| && LineStart(s, i)
    ensures SubFrom(AtLineStart(pat, rep), s, i) == Join(ReplaceLeadingAll(Split(s[i..], "\n"), pat, rep), "\n")
    decreases |s| - i
  {
    var k := LineEnd(s, i);
    forall t | i <= t < k
      ensures s[t] != '\n'
    {
      assert s[t] == s[i..k][t - i];
    }
    if k == |s| {
      LastLine(pat, rep, s, i);
    } else {
      AtLineStartFrom(pat, rep, s, k + 1);
      NextLine(pat, rep, s, i, k);
    }
  }

  /** A line-anchored rule rewrites each line on its own: a line that starts with `pat` starts with `rep` instead. */
  lemma AtLineStartPerLine(pat: string, rep: string, s: string)
    requires |pat| > 0 && '\n' !in pat
    ensures Sub(AtLineStart(pat, rep), s) == Join(ReplaceLeadingAll(Split(s, "\n"), pat, rep), "\n")
  {
    AtLineStartFrom(pat, rep, s, 0);
    assert s[0..] == s;
  }

  // ------------------------------------------------------------ text without a match

  /** `rule` matches nowhere in `s`. */
  predicate NoMatch(rule: Rule, s: string) {
    forall i :: 0 <= i < |s| ==> MatchOf(rule, s, i).None?
  }

  lemma {:induction false} SubFromWithoutMatch(rule: Rule, s: string, i: nat)
    requires i <= |s| && NoMatch(rule, s)
    ensures SubFrom(rule, s, i) == s[i..]
    decreases |s| - i
  {
    if i < |s| {
      SubFromWithoutMatch(rule, s, i + 1);
      assert [s[i]] + s[i + 1..] == s[i..];
    }
  }

  /** A rule that matches nowhere copies the text unchanged. */
  lemma SubWithoutMatch(rule: Rule, s: string)
    requires NoMatch(rule, s)
    ensures Sub(rule, s) == s
  {
    SubFromWithoutMatch(rule, s, 0);
  }

  /** A chain none of whose rules matches copies the text unchanged. */
  lemma {:induction false} ApplyWithoutMatch(rules: seq<Rule>, s: string)
    requires forall k :: 0 <= k < |rules| ==> NoMatch(rules[k], s)
    ensures ApplyInOrder(rules, s) == s
    decreases |rules|
  {
    if |rules| > 0 {
      SubWithoutMatch(rules[0], s);
      ApplyWithoutMatch(rules[1..], s);
    }
  }

  /** An occurrence of `pat` brings along the occurrences of `w` inside `pat`. */
  lemma OccursInside(s: string, i: int, pat: string, o: int, w: string)
    requires OccursAt(s, i, pat) && OccursAt(pat, o, w)
    ensures OccursAt(s, i + o, w)
  {
    forall t | 0 <= t < |w|
      ensures s[i + o + t] == w[t]
    {
      assert s[i + o + t] == s[i..i + |pat|][o + t];
      assert w[t] == pat[o..o + |w|][t];
    }
    assert s[i + o..i + o + |w|] == w;
  }

  /** A match of rule `rule` puts `w` into the text. */
  predicate Needs(rule: Rule, w: string) {
    match rule
    case Literal(pat, _) => exists o :: 0 <= o < |pat| && OccursAt(pat, o, w)
    case AtLineStart(pat, _) => exists o :: 0 <= o < |pat| && OccursAt(pat, o, w)
    case ObjcAttribute(_, tail, _, _) => exists o :: 0 <= o < |tail| && OccursAt(tail, o, w)
  }

  /** A rule whose match needs `w` does not match a text free of `w`. */
  lemma NoMatchWithout(rule: Rule, s: string, w: string)
    requires Needs(rule, w) && Free(s, w)
    ensures NoMatch(rule, s)
  {
    forall i | 0 <= i < |s|
      ensures MatchOf(rule, s, i).None?
    {
      match rule
      case Literal(pat, _) =>
        if OccursAt(s, i, pat) {
          var o :| 0 <= o < |pat| && OccursAt(pat, o, w);
          OccursInside(s, i, pat, o, w);
        }
      case AtLineStart(pat, _) =>
        if OccursAt(s, i, pat) {
          var o :| 0 <= o < |pat| && OccursAt(pat, o, w);
          OccursInside(s, i, pat, o, w);
        }
      case ObjcAttribute(lead, tail, _, _) =>
        var e := ObjcEnd(s, i + |lead|, tail);
        if e.Some? {
          var o :| 0 <= o < |tail| && OccursAt(tail, o, w);
          OccursInside(s, e.value, tail, o, w);
        }
    }
  }

  /** The first six rules of the chain need `open`. */
  lemma OpenRulesNeedOpen(k: nat)
    requires k < 6
    ensures Needs(Rules[k], "open")
  {
    var r := Rules[k];
    if k == 0 { assert OccursAt(r.pat, 0, "open"); }
    else if k == 1 { assert OccursAt(r.tail, 1, "open"); }
    else if k == 2 { assert OccursAt(r.pat, 4, "open"); }
    else if k == 3 { assert OccursAt(r.pat, 11, "open"); }
    else if k == 4 { assert OccursAt(r.pat, 13, "open"); }
    else { assert OccursAt(r.tail, 1, "open"); }
  }

  /** The last four rules of the chain need `fileprivate`. */
  lemma FileprivateRulesNeedFileprivate(k: nat)
    requires 6 <= k < |Rules|
    ensures Needs(Rules[k], "fileprivate")
  {
    var r := Rules[k];
    if k == 6 { assert OccursAt(r.pat, 0, "fileprivate"); }
    else if k == 7 { assert OccursAt(r.pat, 4, "fileprivate"); }
    else if k == 8 { assert OccursAt(r.pat, 1, "fileprivate"); }
    else { assert OccursAt(r.pat, 11, "fileprivate"); }
  }

  /** Source that mentions neither `open` nor `fileprivate` is copied unchanged. */
  lemma WithoutKeywordsUnchanged(source: string)
    requires Free(source, "open") && Free(source, "fileprivate")
    ensures Open2Public(source) == source
  {
    forall k | 0 <= k < |Rules|
      ensures NoMatch(Rules[k], source)
    {
      if k < 6 {
        OpenRulesNeedOpen(k);
        NoMatchWithout(Rules[k], source, "open");
      } else {
        FileprivateRulesNeedFileprivate(k);
        NoMatchWithout(Rules[k], source, "fileprivate");
      }
    }
    ApplyWithoutMatch(Rules, source);
  }

  // ------------------------------------------------------------ comment lines

  /** `indent` is made of spaces only. */
  predicate Blank(indent: string) {
    forall k :: 0 <= k < |indent| ==> indent[k] == ' '
  }

  /** A line's comment: indentation, `//`, then the comment text. */
  function CommentLine(indent: string, text: string): string {
    indent + "//" + text
  }

  /** No four-space run in a comment line starts at or after the last three spaces of its indentation. */
  lemma NoIndentPastIndentation(indent: string, text: string, i: nat)
    requires Blank(indent) && Free(text, "    ")
    requires i + 3 >= |indent|
    ensures !OccursAt(CommentLine(indent, text), i, "    ")
  {
    var line := CommentLine(indent, text);
    var n := |indent|;
    if i + 4 <= |line| {
      if i <= n + 1 {
        var p := if i <= n then n else n + 1;
        assert line[p] == '/';
        assert line[i..i + 4][p - i] == line[p];
      } else {
        SliceOfSecond(indent + "//", text, i, i + 4);
        assert !OccursAt(text, i - n - 2, "    ");
      }
    }
  }

  /** In a comment line, four spaces are followed by a space or the `/` of `//`, never by `c`. */
  lemma IndentFree(indent: string, text: string, c: char)
    requires Blank(indent) && Free(text, "    ")
    requires c != ' ' && c != '/'
    ensures Free(CommentLine(indent, text), "    " + [c])
  {
    var line := CommentLine(indent, text);
    var n := |indent|;
    forall i | 0 <= i < |line|
      ensures !OccursAt(line, i, "    " + [c])
    {
      if i + 5 <= |line| {
        if i + 3 >= n {
          NoIndentPastIndentation(indent, text, i);
          assert line[i..i + 5][..4] == line[i..i + 4];
        } else {
          assert line[i + 4] == ' ' || line[i + 4] == '/';
          assert line[i..i + 5][4] == line[i + 4];
        }
      }
    }
  }

  /** A slice that lies in the second part of a concatenation is a slice of that part. */
  lemma SliceOfSecond(a: string, b: string, i: nat, j: nat)
    requires |a| <= i <= j <= |a| + |b|
    ensures (a + b)[i..j] == b[i - |a|..j - |a|]
  {
  }

  /** A comment line mentions `fileprivate` only where its text does. */
  lemma CommentFileprivateFree(indent: string, text: string)
    requires Blank(indent) && Free(text, "fileprivate")
    ensures Free(CommentLine(indent, text), "fileprivate")
  {
    var line := CommentLine(indent, text);
    var n := |indent|;
    forall i | 0 <= i < |line|
      ensures !OccursAt(line, i, "fileprivate")
    {
      if i + 11 <= |line| {
        if i < n + 2 {
          assert line[i] == ' ' || line[i] == '/';
          assert line[i..i + 11][0] == line[i];
        } else {
          SliceOfSecond(indent + "//", text, i, i + 11);
          assert !OccursAt(text, i - n - 2, "fileprivate");
        }
      }
    }
  }

  /** A line-anchored rule whose pattern starts with neither a space nor `/` leaves a comment line alone. */
  lemma AnchoredRuleSkipsComment(rule: Rule, indent: string, text: string)
    requires Blank(indent) && '\n' !in text
    requires rule.AtLineStart? ==> |rule.pat| > 0 && rule.pat[0] != ' ' && rule.pat[0] != '/'
    requires rule.ObjcAttribute? ==> rule.anchored && rule.lead == ""
    requires !rule.Literal?
    ensures NoMatch(rule, CommentLine(indent, text))
  {
    var line := CommentLine(indent, text);
    assert line[0] == ' ' || line[0] == '/';
    forall i | 0 < i <= |line|
      ensures !LineStart(line, i)
    {
      assert line[i - 1] == ' ' || line[i - 1] == '/' || line[i - 1] in text;
    }
    if rule.AtLineStart? {
      assert !OccursAt(line, 0, rule.pat) by {
        if |rule.pat| <= |line| {
          assert line[..|rule.pat|][0] == line[0];
        }
      }
    } else {
      assert !OccursAt(line, 0, Objc) by {
        if |Objc| <= |line| {
          assert line[..|Objc|][0] == line[0];
        }
      }
    }
  }

  /** The `@objc` rule for members leaves a comment line alone. */
  lemma MemberObjcRuleSkipsComment(indent: string, text: string)
    requires Blank(indent) && Free(text, "    ")
    ensures NoMatch(Rules[5], CommentLine(indent, text))
  {
    var line := CommentLine(indent, text);
    IndentFree(indent, text, '@');
    assert "    " + ['@'] == "    @";
    var r := ObjcAttribute("    ", " open", " public", false);
    assert Rules[5] == r;
    forall i | 0 <= i < |line|
      ensures MatchOf(r, line, i).None?
    {
      ObjcEndNeedsObjc(line, i + 4, " open");
      assert MatchOf(r, line, i).Some? ==> OccursAt(line, i, "    ") && OccursAt(line, i + 4, Objc);
      assert !OccursAt(line, i, "    @");
      if OccursAt(line, i, "    ") && i + 4 + |Objc| <= |line| {
        assert line[i..i + 5] == line[i..i + 4] + [line[i + 4]];
        assert line[i + 4..i + 4 + |Objc|][0] == line[i + 4];
      }
    }
  }

  /**
   * A comment line whose text holds no four-space run and no
   * `fileprivate`, such as `        // open class - should stay untouched`,
   * is left as it is.
   */
  lemma CommentLineUnchanged(indent: string, text: string)
    requires Blank(indent) && '\n' !in text
    requires Free(text, "    ") && Free(text, "fileprivate")
    ensures Open2Public(CommentLine(indent, text)) == CommentLine(indent, text)
  {
    var line := CommentLine(indent, text);
    IndentFree(indent, text, 'o');
    IndentFree(indent, text, 's');
    assert "    " + ['o'] == "    o" && "    " + ['s'] == "    s";
    CommentFileprivateFree(indent, text);
    forall k | 0 <= k < |Rules|
      ensures NoMatch(Rules[k], line)
    {
      if k == 0 || k == 1 || k == 6 {
        AnchoredRuleSkipsComment(Rules[k], indent, text);
      } else if k == 2 || k == 4 {
        assert OccursAt(Rules[k].pat, 0, "    o");
        NoMatchWithout(Rules[k], line, "    o");
      } else if k == 3 {
        assert OccursAt(Rules[k].pat, 0, "    s");
        NoMatchWithout(Rules[k], line, "    s");
      } else if k == 5 {
        MemberObjcRuleSkipsComment(indent, text);
      } else {
        FileprivateRulesNeedFileprivate(k);
        NoMatchWithout(Rules[k], line, "fileprivate");
      }
    }
    ApplyWithoutMatch(Rules, line);
  }
}
