/**
 * Character classes of Python 2's `re` module (without the UNICODE flag, so
 * `\w` and `\d` are ASCII only) and the `str.join` / `str.split` pair.
 */
module Text {

  /** `\d` */
  predicate IsDigit(c: char) {
    '0' <= c <= '9'
  }

  /** `\w`: `[a-zA-Z0-9_]` */
  predicate IsWordChar(c: char) {
    'a' <= c <= 'z' || 'A' <= c <= 'Z' || IsDigit(c) || c == '_'
  }

  /** `[a-z0-9]` */
  predicate IsLowerAlnum(c: char) {
    'a' <= c <= 'z' || IsDigit(c)
  }

  /** `pat` occurs in `s` starting at index `i`. */
  predicate OccursAt(s: string, i: int, pat: string) {
    0 <= i && i + |pat| <= |s| && s[i..i + |pat|] == pat
  }

  /** A slice of a slice is a slice of the whole. */
  lemma SliceOfSlice(s: string, i: nat, k: nat, a: nat, b: nat)
    requires i <= k <= |s| && a <= b <= k - i
    ensures s[i..k][a..b] == s[i + a..i + b]
  {
    forall t | 0 <= t < b - a
      ensures s[i..k][a..b][t] == s[i + a..i + b][t]
    {
    }
  }

  /** Dropping the first character shifts every occurrence one place left. */
  lemma OccursAtTail(s: string, i: nat, pat: string)
    requires |s| > 0
    ensures OccursAt(s[1..], i, pat) <==> OccursAt(s, i + 1, pat)
  {
    if i + 1 + |pat| <= |s| {
      assert s[1..][i..i + |pat|] == s[i + 1..i + 1 + |pat|];
    }
  }

  /** No occurrence of `pat` starts anywhere in `s`. */
  predicate Free(s: string, pat: string) {
    forall i :: 0 <= i < |s| ==> !OccursAt(s, i, pat)
  }

  /** Where the line that holds index `s` ends: the first newline at or after `s`, or the end. */
  function LineEnd(body: string, s: nat): (k: nat)
    requires s <= |body|
    ensures s <= k <= |body| && '\n' !in body[s..k]
    ensures k < |body| ==> body[k] == '\n'
    decreases |body| - s
  {
    if s == |body| || body[s] == '\n' then s
    else
      var k := LineEnd(body, s + 1);
      assert body[s..k] == [body[s]] + body[s + 1..k];
      k
  }

  /** `sep.join(parts)` */
  function Join(parts: seq<string>, sep: string): (r: string)
    ensures |parts| == 1 ==> r == parts[0]
  {
    if |parts| == 0 then ""
    else if |parts| == 1 then parts[0]
    else parts[0] + sep + Join(parts[1..], sep)
  }

  /**
   * `s.split(sep)` for a non-empty separator: cut at every occurrence of
   * `sep`, leftmost first, occurrences not overlapping.
   */
  function Split(s: string, sep: string): (r: seq<string>)
    requires |sep| > 0
    ensures |r| >= 1
    decreases |s|
  {
    if |s| < |sep| then [s]
    else if s[..|sep|] == sep then [""] + Split(s[|sep|..], sep)
    else
      var rest := Split(s[1..], sep);
      [[s[0]] + rest[0]] + rest[1..]
  }

  /** A text without the separator is not cut. */
  lemma {:induction false} SplitFree(s: string, sep: string)
    requires |sep| > 0 && Free(s, sep)
    ensures Split(s, sep) == [s]
    decreases |s|
  {
    if |s| >= |sep| {
      assert !OccursAt(s, 0, sep);
      assert Free(s[1..], sep) by {
        forall i | 0 <= i < |s[1..]| ensures !OccursAt(s[1..], i, sep) {
          assert !OccursAt(s, i + 1, sep);
          OccursAtTail(s, i, sep);
        }
      }
      SplitFree(s[1..], sep);
      assert [s[0]] + s[1..] == s;
    }
  }

  /** The first cut of `p + sep + t` falls right after `p` when no earlier occurrence starts. */
  lemma {:induction false} SplitAfterPrefix(p: string, sep: string, t: string)
    requires |sep| > 0
    requires forall i :: 0 <= i < |p| ==> !OccursAt(p + sep + t, i, sep)
    ensures Split(p + sep + t, sep) == [p] + Split(t, sep)
    decreases |p|
  {
    var s := p + sep + t;
    if |p| == 0 {
      assert s == sep + t;
      assert s[..|sep|] == sep;
      assert s[|sep|..] == t;
    } else {
      assert !OccursAt(s, 0, sep);
      assert s[..|sep|] != sep;
      assert s[1..] == p[1..] + sep + t;
      forall i | 0 <= i < |p[1..]| ensures !OccursAt(p[1..] + sep + t, i, sep) {
        assert !OccursAt(s, i + 1, sep);
        OccursAtTail(s, i, sep);
      }
      SplitAfterPrefix(p[1..], sep, t);
      assert [s[0]] + p[1..] == p;
    }
  }

  /**
   * `", ".join` followed by `split(", ")` gives back a non-empty list whose
   * items do not contain `", "`.
   */
  lemma {:induction false} SplitJoinCommaSpace(parts: seq<string>)
    requires |parts| > 0
    requires forall k :: 0 <= k < |parts| ==> Free(parts[k], ", ")
    ensures Split(Join(parts, ", "), ", ") == parts
    decreases |parts|
  {
    if |parts| == 1 {
      SplitFree(parts[0], ", ");
    } else {
      var p, t := parts[0], Join(parts[1..], ", ");
      var s := p + ", " + t;
      forall i | 0 <= i < |p| ensures !OccursAt(s, i, ", ") {
        if i + 2 <= |p| {
          assert !OccursAt(p, i, ", ");
          assert s[i..i + 2] == p[i..i + 2];
        } else {
          assert s[i + 1] == ',';
        }
      }
      SplitAfterPrefix(p, ", ", t);
      SplitJoinCommaSpace(parts[1..]);
      assert [parts[0]] + parts[1..] == parts;
    }
  }
}
