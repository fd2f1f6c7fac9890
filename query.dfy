/**
 * `git-jira-log`'s default status clause: a query that does not mention the
 * `status` field is restricted to resolved issues.
 */
module QueryRewrite {
  import opened Text

  const Status: string := "status"
  const Opening: string := "("
  const ResolvedClause: string := ") and status = Resolved"

  /** ASCII case folding, what `re.IGNORECASE` does for a byte string. */
  function Lower(c: char): char {
    if 'A' <= c <= 'Z' then (c as int + 32) as char else c
  }

  /** `status`, in any letter case, starts at `i` in `q`. */
  predicate StatusWordAt(q: string, i: int) {
    0 <= i && i + |Status| <= |q| && forall j :: 0 <= j < |Status| ==> Lower(q[i + j]) == Status[j]
  }

  /**
   * `(^|\W)status(\W|$)` matches with `status` at `i`: it starts the query or
   * follows a non-word character, and it ends the query or a non-word
   * character follows. (`$` before a final newline adds nothing: a newline
   * is itself `\W`.)
   */
  predicate StatusAt(q: string, i: int) {
    StatusWordAt(q, i)
    && (i == 0 || !IsWordChar(q[i - 1]))
    && (i + |Status| == |q| || !IsWordChar(q[i + |Status|]))
  }

  /** The query mentions the status field. */
  predicate MentionsStatus(q: string) {
    exists i :: 0 <= i <= |q| && StatusAt(q, i)
  }

  /** `re.search`'s scan: is there a match starting at `i` or later? */
  function SearchFrom(q: string, i: nat): (found: bool)
    requires i <= |q|
    ensures found <==> exists j :: i <= j <= |q| && StatusAt(q, j)
    decreases |q| - i
  {
    if StatusAt(q, i) then true
    else if i == |q| then false
    else SearchFrom(q, i + 1)
  }

  /** `re.search(r"(^|\W)status(\W|$)", q, re.IGNORECASE)` succeeds. */
  function SearchStatus(q: string): (found: bool)
    ensures found <==> MentionsStatus(q)
  {
    SearchFrom(q, 0)
  }

  /** The query `git-jira-log` sends: unchanged if it mentions `status`, otherwise restricted to resolved issues. */
  function WithDefaultStatus(q: string): (r: string)
    ensures MentionsStatus(q) ==> r == q
    ensures !MentionsStatus(q) ==> r == Opening + q + ResolvedClause
  {
    if SearchStatus(q) then q else Opening + q + ResolvedClause
  }

  /** The added clause mentions `status`, bounded by spaces. */
  lemma ClauseMentionsStatus(q: string)
    ensures MentionsStatus(Opening + q + ResolvedClause)
  {
    var r := Opening + q + ResolvedClause;
    var i := |q| + 7;
    assert r[i - 1] == ' ' && r[i + |Status|] == ' ';
    forall j | 0 <= j < |Status|
      ensures Lower(r[i + j]) == Status[j]
    {
      assert r[i + j] == ResolvedClause[6 + j];
    }
    assert StatusAt(r, i);
  }

  /** Every query sent mentions `status`, so the rewrite never applies twice. */
  lemma WithDefaultStatusIdempotent(q: string)
    ensures MentionsStatus(WithDefaultStatus(q))
    ensures WithDefaultStatus(WithDefaultStatus(q)) == WithDefaultStatus(q)
  {
    if !MentionsStatus(q) {
      ClauseMentionsStatus(q);
    }
  }

  /** Letter case does not matter: `STATUS` is a mention. */
  lemma UpperCaseMentions()
    ensures WithDefaultStatus("STATUS = Open") == "STATUS = Open"
  {
    assert StatusAt("STATUS = Open", 0);
  }

  /** A longer word is not a mention: neither `statusX` nor `x_status` is. */
  lemma LongerWordsDoNotMention()
    ensures !MentionsStatus("statusX") && !MentionsStatus("x_status")
  {
    forall i | 0 <= i <= 7 && StatusAt("statusX", i)
      ensures false
    {
    }
    forall i | 0 <= i <= 8 && StatusAt("x_status", i)
      ensures false
    {
    }
  }

  /** A query without the letter `s` in either case, such as `project = X`, is restricted to resolved issues. */
  lemma WithoutLetterSRewritten(q: string)
    requires forall i :: 0 <= i < |q| ==> Lower(q[i]) != 's'
    ensures WithDefaultStatus(q) == "(" + q + ") and status = Resolved"
  {
    forall i | 0 <= i <= |q| && StatusAt(q, i)
      ensures false
    {
      StatusWordStart(q, i);
    }
  }

  lemma StatusWordStart(q: string, i: int)
    ensures StatusWordAt(q, i) ==> Lower(q[i]) == 's'
  {
    if StatusWordAt(q, i) {
      assert Lower(q[i + 0]) == Status[0];
    }
  }
}
