/**
 * The commit-looking token of the revision finders: the pattern
 * `(?<!\w)[a-z0-9]{40}(?!\w)` searched with `re.finditer`.
 */
module RevisionTokens {
  import opened Text

  const TokenLength: nat := 40

  /** A match of the pattern starts at index `i` of `s`. */
  predicate IsTokenAt(s: string, i: int) {
    && 0 <= i && i + TokenLength <= |s|
    && (i == 0 || !IsWordChar(s[i - 1]))
    && (forall j :: i <= j < i + TokenLength ==> IsLowerAlnum(s[j]))
    && (i + TokenLength == |s| || !IsWordChar(s[i + TokenLength]))
  }

  /** The matches starting at index `i` or later, in order of appearance. */
  function TokensFrom(s: string, i: nat): seq<string>
    decreases |s| - i
  {
    if i + TokenLength > |s| then []
    else (if IsTokenAt(s, i) then [s[i..i + TokenLength]] else []) + TokensFrom(s, i + 1)
  }

  /** Every match in `s`, in order of appearance, duplicates kept. */
  function Tokens(s: string): seq<string> {
    TokensFrom(s, 0)
  }

  /** No match starts inside a match: its characters are word characters. */
  lemma {:induction false} NoTokenInsideToken(s: string, i: nat, k: nat)
    requires IsTokenAt(s, i) && i < k <= i + TokenLength
    ensures TokensFrom(s, k) == TokensFrom(s, i + TokenLength)
    decreases i + TokenLength - k
  {
    if k < i + TokenLength {
      assert IsLowerAlnum(s[k - 1]);
      assert !IsTokenAt(s, k);
      NoTokenInsideToken(s, i, k + 1);
    }
  }

  /**
   * `re.finditer`: scan left to right, and after a match resume the search
   * at its end.
   */
  method ScanText(s: string) returns (found: seq<string>)
    ensures found == Tokens(s)
  {
    found := [];
    var i := 0;
    while i + TokenLength <= |s|
      invariant i <= |s|
      invariant found + TokensFrom(s, i) == Tokens(s)
      decreases |s| - i
    {
      if IsTokenAt(s, i) {
        found := found + [s[i..i + TokenLength]];
        NoTokenInsideToken(s, i, i + 1);
        i := i + TokenLength;
      } else {
        i := i + 1;
      }
    }
  }

  /** A match is found exactly where the pattern holds. */
  lemma {:induction false} TokensFromExact(s: string, i: nat, t: string)
    ensures t in TokensFrom(s, i) <==> exists p :: i <= p && IsTokenAt(s, p) && s[p..p + TokenLength] == t
    decreases |s| - i
  {
    if i + TokenLength <= |s| {
      TokensFromExact(s, i + 1, t);
      var head := if IsTokenAt(s, i) then [s[i..i + TokenLength]] else [];
      assert TokensFrom(s, i) == head + TokensFrom(s, i + 1);
      if t in TokensFrom(s, i) && !(t in head) {
        var p :| i + 1 <= p && IsTokenAt(s, p) && s[p..p + TokenLength] == t;
        assert i <= p;
      }
      if exists p :: i <= p && IsTokenAt(s, p) && s[p..p + TokenLength] == t {
        var p :| i <= p && IsTokenAt(s, p) && s[p..p + TokenLength] == t;
        if p == i {
          assert t in head;
        } else {
          assert t in TokensFrom(s, i + 1);
        }
      }
    }
  }

  /**
   * The candidates of a text are exactly its 40-character runs of `[a-z0-9]`
   * with no word character right before or right after them.
   */
  lemma TokensExact(s: string, t: string)
    ensures t in Tokens(s) <==> exists p :: IsTokenAt(s, p) && s[p..p + TokenLength] == t
    ensures t in Tokens(s) ==> |t| == TokenLength && forall j :: 0 <= j < |t| ==> IsLowerAlnum(t[j])
  {
    TokensFromExact(s, 0, t);
    if t in Tokens(s) {
      var p :| IsTokenAt(s, p) && s[p..p + TokenLength] == t;
      assert IsTokenAt(s, p);
      assert 0 <= p;
      assert |t| == TokenLength;
      forall j | 0 <= j < |t| ensures IsLowerAlnum(t[j]) {
        assert t[j] == s[p + j];
      }
    }
  }

  /** The scan of a concatenation is the scan of each part when a non-word character separates them. */
  lemma {:induction false} TokensFromConcat(a: string, b: string, i: nat)
    requires |a| > 0 && !IsWordChar(a[|a| - 1]) && i <= |a|
    ensures TokensFrom(a + b, i) == TokensFrom(a, i) + Tokens(b)
    decreases |a| - i
  {
    var s := a + b;
    if i == |a| {
      assert TokensFrom(a, i) == [];
      TokensShift(a, b, 0);
    } else {
      TokensFromConcat(a, b, i + 1);
      if i + TokenLength <= |a| {
        assert IsTokenAt(s, i) == IsTokenAt(a, i) by {
          if i + TokenLength < |a| {
            assert s[i + TokenLength] == a[i + TokenLength];
          }
          assert forall j :: 0 <= j < i + TokenLength ==> s[j] == a[j];
        }
        assert s[i..i + TokenLength] == a[i..i + TokenLength];
      } else {
        assert TokensFrom(a, i) == [];
        assert TokensFrom(a, i + 1) == [];
        if i + TokenLength <= |s| {
          assert !IsLowerAlnum(s[|a| - 1]);
          assert !IsTokenAt(s, i);
        }
      }
    }
  }

  /** Scanning the suffix `b` of `a + b` right after a non-word character is scanning `b` alone. */
  lemma {:induction false} TokensShift(a: string, b: string, j: nat)
    requires |a| > 0 && !IsWordChar(a[|a| - 1]) && j <= |b|
    ensures TokensFrom(a + b, |a| + j) == TokensFrom(b, j)
    decreases |b| - j
  {
    var s := a + b;
    if j + TokenLength <= |b| {
      TokensShift(a, b, j + 1);
      assert IsTokenAt(s, |a| + j) == IsTokenAt(b, j) by {
        assert forall q :: 0 <= q < |b| ==> s[|a| + q] == b[q];
      }
      assert s[|a| + j..|a| + j + TokenLength] == b[j..j + TokenLength];
    }
  }

  /**
   * Texts joined by a non-word character yield the matches of the first text
   * followed by those of the second: matches come in order of appearance.
   */
  lemma TokensOfConcat(a: string, b: string)
    requires |a| > 0 && !IsWordChar(a[|a| - 1])
    ensures Tokens(a + b) == Tokens(a) + Tokens(b)
  {
    TokensFromConcat(a, b, 0);
  }
}
