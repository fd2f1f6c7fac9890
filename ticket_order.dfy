/**
 * `jira-find-pretty`: tickets printed one per key, the last ticket read for
 * a key winning, in the order of their keys split into a text prefix and a
 * numeric suffix, so that `ABC-9` comes before `ABC-10`.
 */
module TicketOrder {
  import opened Wrappers
  import opened Text
  import opened Dicts

  /** The fields of a ticket the script prints. */
  datatype Ticket = Ticket(key: string, endpoint: string)

  /** What `splitTicketKey` returns: the key's text prefix and its numeric suffix. */
  datatype TicketKey = TicketKey(prefix: string, index: nat)

  // ------------------------------------------------------------ digits

  predicate AllDigits(s: string) {
    forall i :: 0 <= i < |s| ==> IsDigit(s[i])
  }

  function DigitValue(c: char): nat
    requires IsDigit(c)
  {
    c as int - '0' as int
  }

  /** `int(ds)` for a run of decimal digits. */
  function Decimal(ds: string): nat
    requires AllDigits(ds)
    decreases |ds|
  {
    if |ds| == 0 then 0 else 10 * Decimal(ds[..|ds| - 1]) + DigitValue(ds[|ds| - 1])
  }

  // ------------------------------------------------------------ the regex `\d+$`

  /** `$` holds at `r`: the end of `key`, or just before a newline that ends it. */
  predicate DollarAt(key: string, r: int) {
    r == |key| || (0 <= r && r + 1 == |key| && key[r] == '\n')
  }

  /** `\d+$` can match `key[p..r]`. */
  predicate DigitsMatch(key: string, p: int, r: int) {
    0 <= p < r <= |key| && AllDigits(key[p..r]) && DollarAt(key, r)
  }

  /** The only place a match that ends in a digit can end. */
  function DollarEnd(key: string): (r: nat)
    ensures r <= |key| && DollarAt(key, r)
  {
    if |key| > 0 && key[|key| - 1] == '\n' then |key| - 1 else |key|
  }

  /** The start of the run of digits that ends at `r`. */
  function RunStart(key: string, r: nat): (p: nat)
    requires r <= |key|
    ensures p <= r && AllDigits(key[p..r])
    ensures p == 0 || !IsDigit(key[p - 1])
    decreases r
  {
    if r == 0 || !IsDigit(key[r - 1]) then r
    else
      var p := RunStart(key, r - 1);
      assert key[p..r] == key[p..r - 1] + [key[r - 1]];
      p
  }

  /** `re.search(r"\d+$", key)`: the span of the match, if there is one. */
  function TrailingDigits(key: string): Option<(nat, nat)> {
    var r := DollarEnd(key);
    var p := RunStart(key, r);
    if p < r then Some((p, r)) else None
  }

  lemma RunStartLeftmost(key: string, r: nat, q: nat)
    requires r <= |key| && q <= r && AllDigits(key[q..r])
    ensures RunStart(key, r) <= q
    decreases r
  {
    if r > 0 && IsDigit(key[r - 1]) && q < r {
      assert key[q..r - 1] == key[q..r][..r - 1 - q];
      RunStartLeftmost(key, r - 1, q);
    }
  }

  /** A run of digits that ends at `r` and is not preceded by a digit starts where `RunStart` says. */
  lemma {:induction false} RunStartExact(key: string, r: nat, p: nat)
    requires p <= r <= |key| && AllDigits(key[p..r])
    requires p == 0 || !IsDigit(key[p - 1])
    ensures RunStart(key, r) == p
    decreases r
  {
    if p < r {
      assert key[p..r][r - 1 - p] == key[r - 1];
      assert key[p..r - 1] == key[p..r][..r - 1 - p];
      RunStartExact(key, r - 1, p);
    }
  }

  /**
   * `TrailingDigits` is the search's match: the leftmost span `\d+$` can
   * match, and every span it can match ends where this one does; no match
   * when there is none.
   */
  lemma TrailingDigitsMeaning(key: string)
    ensures TrailingDigits(key).Some? ==> DigitsMatch(key, TrailingDigits(key).value.0, TrailingDigits(key).value.1)
    ensures TrailingDigits(key).Some? ==> forall p, r :: DigitsMatch(key, p, r) ==>
      TrailingDigits(key).value.0 <= p && r == TrailingDigits(key).value.1
    ensures TrailingDigits(key).None? ==> forall p, r :: !DigitsMatch(key, p, r)
  {
    var e := DollarEnd(key);
    forall p, r | DigitsMatch(key, p, r)
      ensures r == e && RunStart(key, e) <= p && RunStart(key, e) < e
    {
      assert IsDigit(key[p..r][r - 1 - p]);
      RunStartLeftmost(key, e, p);
    }
  }

  // ------------------------------------------------------------ splitTicketKey

  /**
   * `splitTicketKey` as written: the prefix is cut at `len(key)` minus the
   * match's length, which is the match's start only when the match ends
   * the key.
   */
  function SplitTicketKeyAsWritten(key: string): TicketKey {
    match TrailingDigits(key)
    case None => TicketKey(key, 0)
    case Some((p, r)) => TicketKey(key[..|key| - (r - p)], Decimal(key[p..r]))
  }

  /** `splitTicketKey` with the prefix cut where the match starts, `key[:m.start()]`. */
  function SplitTicketKey(key: string): TicketKey {
    match TrailingDigits(key)
    case None => TicketKey(key, 0)
    case Some((p, r)) => TicketKey(key[..p], Decimal(key[p..r]))
  }

  /** The key ends in a digit, or in a digit and a final newline. */
  predicate EndsInDigits(key: string) {
    DollarEnd(key) > 0 && IsDigit(key[DollarEnd(key) - 1])
  }

  /**
   * A key ending in digits splits into the key up to its maximal trailing
   * run of digits and that run's value: prefix, digits and the final
   * newline, if any, give back the key, and the prefix does not end in a
   * digit. Any other key is paired with 0.
   */
  lemma SplitTicketKeyMeaning(key: string)
    ensures var k := SplitTicketKey(key);
      EndsInDigits(key) ==>
        |k.prefix| < DollarEnd(key)
        && AllDigits(key[|k.prefix|..DollarEnd(key)])
        && k.prefix + key[|k.prefix|..DollarEnd(key)] + key[DollarEnd(key)..] == key
        && k.index == Decimal(key[|k.prefix|..DollarEnd(key)])
    ensures !EndsInDigits(key) ==> SplitTicketKey(key) == TicketKey(key, 0)
    ensures var k := SplitTicketKey(key); |k.prefix| == 0 || !IsDigit(k.prefix[|k.prefix| - 1])
  {
    var e := DollarEnd(key);
    var p := RunStart(key, e);
    if EndsInDigits(key) {
      assert key[..p] + key[p..e] + key[e..] == key;
    } else if |key| > 0 {
      assert key[|key| - 1] == '\n' || !IsDigit(key[|key| - 1]);
    }
  }

  /** On a key that does not end in a newline, as the tracker's keys do not, the code as written agrees. */
  lemma AsWrittenAgrees(key: string)
    requires |key| == 0 || key[|key| - 1] != '\n'
    ensures SplitTicketKeyAsWritten(key) == SplitTicketKey(key)
  {
  }

  /**
   * With a final newline, `$` matches before it, and the code as written
   * keeps the first digit in the prefix: `ABC-12` followed by a newline
   * gives `("ABC-1", 12)`, where `("ABC-", 12)` was meant.
   */
  lemma AsWrittenFinalNewline(prefix: string, digits: string)
    requires |digits| > 0 && AllDigits(digits)
    requires |prefix| == 0 || !IsDigit(prefix[|prefix| - 1])
    ensures SplitTicketKeyAsWritten(prefix + digits + "\n") == TicketKey(prefix + [digits[0]], Decimal(digits))
    ensures SplitTicketKey(prefix + digits + "\n") == TicketKey(prefix, Decimal(digits))
  {
    SplitsOfParts(prefix, digits, "\n");
    FirstOfSecond(prefix, digits, "\n");
  }

  /** A prefix not ending in a digit, then digits: the key splits into the two. */
  lemma SplitPrefixDigits(prefix: string, digits: string)
    requires |digits| > 0 && AllDigits(digits)
    requires |prefix| == 0 || !IsDigit(prefix[|prefix| - 1])
    ensures SplitTicketKey(prefix + digits) == TicketKey(prefix, Decimal(digits))
  {
    SplitsOfParts(prefix, digits, "");
    assert prefix + digits + "" == prefix + digits;
  }

  /** A prefix not ending in a digit, digits, then nothing or a newline: both splits of the key. */
  lemma SplitsOfParts(prefix: string, digits: string, nl: string)
    requires |digits| > 0 && AllDigits(digits)
    requires |prefix| == 0 || !IsDigit(prefix[|prefix| - 1])
    requires nl == "" || nl == "\n"
    ensures SplitTicketKey(prefix + digits + nl) == TicketKey(prefix, Decimal(digits))
    ensures SplitTicketKeyAsWritten(prefix + digits + nl)
      == TicketKey((prefix + digits + nl)[..|prefix| + |nl|], Decimal(digits))
  {
    var key := prefix + digits + nl;
    var n, e := |prefix|, |prefix| + |digits|;
    ThreeParts(prefix, digits, nl);
    assert DollarEnd(key) == e by {
      if nl == "" {
        assert key[|key| - 1] == digits[|digits| - 1];
      } else {
        assert key[|key| - 1] == '\n';
      }
    }
    assert n > 0 ==> key[n - 1] == prefix[n - 1];
    SplitsAt(key, n, e);
  }

  lemma FirstOfSecond(a: string, b: string, c: string)
    requires |b| > 0 && |c| == 1
    ensures (a + b + c)[..|a| + |c|] == a + [b[0]]
  {
  }

  /** The parts of a concatenation of three, as slices and elements of it. */
  lemma ThreeParts(a: string, b: string, c: string)
    ensures |a + b + c| == |a| + |b| + |c|
    ensures (a + b + c)[..|a|] == a && (a + b + c)[|a|..|a| + |b|] == b
    ensures forall i :: 0 <= i < |a| ==> (a + b + c)[i] == a[i]
    ensures forall i :: 0 <= i < |c| ==> (a + b + c)[|a| + |b| + i] == c[i]
    ensures |b| > 0 ==> (a + b + c)[|a| + |b| - 1] == b[|b| - 1]
  {
  }

  /** Both splits of a key whose `\d+$` match is `key[n..e]`. */
  lemma SplitsAt(key: string, n: nat, e: nat)
    requires n < e == DollarEnd(key) && AllDigits(key[n..e])
    requires n == 0 || !IsDigit(key[n - 1])
    ensures SplitTicketKey(key) == TicketKey(key[..n], Decimal(key[n..e]))
    ensures SplitTicketKeyAsWritten(key) == TicketKey(key[..|key| - (e - n)], Decimal(key[n..e]))
  {
    RunStartExact(key, e, n);
  }

  // ------------------------------------------------------------ the sort order

  /** Python's order on strings: by character codes, a proper prefix first. */
  predicate StrLess(a: string, b: string)
    decreases |a|
  {
    if |a| == 0 then |b| > 0
    else if |b| == 0 then false
    else if a[0] != b[0] then a[0] < b[0]
    else StrLess(a[1..], b[1..])
  }

  /** Python's order on `(prefix, index)` tuples: by prefix, then by index. */
  predicate KeyLess(a: TicketKey, b: TicketKey) {
    StrLess(a.prefix, b.prefix) || (a.prefix == b.prefix && a.index < b.index)
  }

  /**
   * `key` may come before `other` in `sorted(..., key=split)`. The script
   * sorts with `SplitTicketKeyAsWritten`; the order lemmas hold for any split.
   */
  predicate KeyLeq(split: string -> TicketKey, key: string, other: string) {
    !KeyLess(split(other), split(key))
  }

  lemma {:induction false} StrLessIrreflexive(a: string)
    ensures !StrLess(a, a)
    decreases |a|
  {
    if |a| > 0 {
      StrLessIrreflexive(a[1..]);
    }
  }

  lemma {:induction false} StrLessTransitive(a: string, b: string, c: string)
    requires StrLess(a, b) && StrLess(b, c)
    ensures StrLess(a, c)
    decreases |a|
  {
    if |a| > 0 && a[0] == b[0] && b[0] == c[0] {
      StrLessTransitive(a[1..], b[1..], c[1..]);
    }
  }

  lemma {:induction false} StrLessTotal(a: string, b: string)
    ensures a == b || StrLess(a, b) || StrLess(b, a)
    decreases |a|
  {
    if |a| > 0 && |b| > 0 && a[0] == b[0] {
      StrLessTotal(a[1..], b[1..]);
      if a[1..] == b[1..] {
        assert a == [a[0]] + a[1..] && b == [b[0]] + b[1..];
      }
    }
  }

  /** The order on split keys is a strict total order. */
  lemma KeyLessOrder(a: TicketKey, b: TicketKey, c: TicketKey)
    ensures !KeyLess(a, a)
    ensures KeyLess(a, b) && KeyLess(b, c) ==> KeyLess(a, c)
    ensures a == b || KeyLess(a, b) || KeyLess(b, a)
  {
    StrLessIrreflexive(a.prefix);
    if KeyLess(a, b) && KeyLess(b, c) {
      if StrLess(a.prefix, b.prefix) && StrLess(b.prefix, c.prefix) {
        StrLessTransitive(a.prefix, b.prefix, c.prefix);
      }
    }
    StrLessTotal(a.prefix, b.prefix);
  }

  /**
   * Keys with the same prefix sort by the value of their digits, not by the
   * digits as text, under the split as written and the corrected one alike.
   */
  lemma NumericSuffixOrder(prefix: string, a: string, b: string)
    requires |prefix| == 0 || !IsDigit(prefix[|prefix| - 1])
    requires |a| > 0 && AllDigits(a) && |b| > 0 && AllDigits(b)
    ensures KeyLess(SplitTicketKeyAsWritten(prefix + a), SplitTicketKeyAsWritten(prefix + b)) <==> Decimal(a) < Decimal(b)
    ensures KeyLess(SplitTicketKey(prefix + a), SplitTicketKey(prefix + b)) <==> Decimal(a) < Decimal(b)
  {
    SplitPrefixDigits(prefix, a);
    SplitPrefixDigits(prefix, b);
    AsWrittenAgrees(prefix + a);
    AsWrittenAgrees(prefix + b);
    StrLessIrreflexive(prefix);
  }

  /** So `ABC-9` sorts before `ABC-10`, though `"ABC-10" < "ABC-9"` as strings. */
  lemma NineBeforeTen(prefix: string)
    ensures Decimal("9") < Decimal("10")
    ensures StrLess(prefix + "10", prefix + "9")
  {
    assert Decimal("10") == 10 by {
      assert "10"[..1] == "1";
    }
    assert StrLess("10", "9");
    StrLessAfterCommonPrefix(prefix, "10", "9");
  }

  lemma {:induction false} StrLessAfterCommonPrefix(prefix: string, a: string, b: string)
    requires StrLess(a, b)
    ensures StrLess(prefix + a, prefix + b)
    decreases |prefix|
  {
    if |prefix| > 0 {
      assert (prefix + a)[0] == prefix[0] == (prefix + b)[0];
      assert (prefix + a)[1..] == prefix[1..] + a;
      assert (prefix + b)[1..] == prefix[1..] + b;
      StrLessAfterCommonPrefix(prefix[1..], a, b);
    } else {
      assert prefix + a == a && prefix + b == b;
    }
  }

  // ------------------------------------------------------------ sorted

  /** `keys` in non-decreasing order of their split keys. */
  predicate SortedByTicketKey(split: string -> TicketKey, keys: seq<string>) {
    forall i, j :: 0 <= i < j < |keys| ==> KeyLeq(split, keys[i], keys[j])
  }

  /** Inserts `key` after every key not greater than it. */
  function Insert(split: string -> TicketKey, key: string, sorted: seq<string>): (r: seq<string>)
    ensures |r| == |sorted| + 1
    ensures multiset(r) == multiset(sorted) + multiset{key}
  {
    if |sorted| == 0 then [key]
    else if KeyLess(split(key), split(sorted[0])) then [key] + sorted
    else
      assert sorted == [sorted[0]] + sorted[1..];
      [sorted[0]] + Insert(split, key, sorted[1..])
  }

  /** `sorted(keys, key=split)`, a stable sort: each key in turn inserted into the sorted keys before it. */
  function SortByTicketKey(split: string -> TicketKey, keys: seq<string>): (r: seq<string>)
    ensures |r| == |keys|
    decreases |keys|
  {
    if |keys| == 0 then []
    else Insert(split, keys[|keys| - 1], SortByTicketKey(split, keys[..|keys| - 1]))
  }

  lemma {:induction false} InsertSorted(split: string -> TicketKey, key: string, sorted: seq<string>)
    requires SortedByTicketKey(split, sorted)
    ensures SortedByTicketKey(split, Insert(split, key, sorted))
    decreases |sorted|
  {
    if |sorted| > 0 {
      var a, b := split(key), split(sorted[0]);
      if KeyLess(a, b) {
        forall j | 0 <= j < |sorted|
          ensures KeyLeq(split, key, sorted[j])
        {
          var c := split(sorted[j]);
          KeyLessOrder(c, a, b);
          assert j == 0 || KeyLeq(split, sorted[0], sorted[j]);
        }
        SortedCons(split, key, sorted);
      } else {
        InsertSorted(split, key, sorted[1..]);
        var tail := Insert(split, key, sorted[1..]);
        forall j | 0 <= j < |tail|
          ensures KeyLeq(split, sorted[0], tail[j])
        {
          assert tail[j] in multiset(tail);
          if tail[j] != key {
            assert tail[j] in multiset(sorted[1..]);
            var k :| 0 <= k < |sorted[1..]| && sorted[1..][k] == tail[j];
            assert KeyLeq(split, sorted[0], sorted[k + 1]);
          }
        }
        SortedCons(split, sorted[0], tail);
      }
    }
  }

  /** A key not after any key of a sorted list, put in front of it, keeps it sorted. */
  lemma SortedCons(split: string -> TicketKey, key: string, sorted: seq<string>)
    requires SortedByTicketKey(split, sorted)
    requires forall j :: 0 <= j < |sorted| ==> KeyLeq(split, key, sorted[j])
    ensures SortedByTicketKey(split, [key] + sorted)
  {
    var r := [key] + sorted;
    forall i, j | 0 <= i < j < |r|
      ensures KeyLeq(split, r[i], r[j])
    {
      assert r[j] == sorted[j - 1];
      if i > 0 {
        assert r[i] == sorted[i - 1];
      }
    }
  }

  /** The keys come out sorted by their split keys, each key as often as it went in. */
  lemma {:induction false} SortByTicketKeyCorrect(split: string -> TicketKey, keys: seq<string>)
    ensures SortedByTicketKey(split, SortByTicketKey(split, keys))
    ensures multiset(SortByTicketKey(split, keys)) == multiset(keys)
    decreases |keys|
  {
    if |keys| > 0 {
      var init := keys[..|keys| - 1];
      SortByTicketKeyCorrect(split, init);
      InsertSorted(split, keys[|keys| - 1], SortByTicketKey(split, init));
      assert keys == init + [keys[|keys| - 1]];
    }
  }

  /** Two splits that agree on every key give the same sort. */
  lemma {:induction false} SortBySameSplit(split: string -> TicketKey, other: string -> TicketKey, keys: seq<string>)
    requires forall k :: k in keys ==> split(k) == other(k)
    ensures SortByTicketKey(split, keys) == SortByTicketKey(other, keys)
    decreases |keys|
  {
    if |keys| > 0 {
      var init := keys[..|keys| - 1];
      SortBySameSplit(split, other, init);
      SortByTicketKeyCorrect(split, init);
      forall k | k in SortByTicketKey(split, init)
        ensures split(k) == other(k)
      {
        assert k in multiset(init);
        var i :| 0 <= i < |init| && init[i] == k;
        assert keys[i] == k;
      }
      InsertBySameSplit(split, other, keys[|keys| - 1], SortByTicketKey(split, init));
    }
  }

  lemma {:induction false} InsertBySameSplit(split: string -> TicketKey, other: string -> TicketKey, key: string, sorted: seq<string>)
    requires split(key) == other(key)
    requires forall k :: k in sorted ==> split(k) == other(k)
    ensures Insert(split, key, sorted) == Insert(other, key, sorted)
    decreases |sorted|
  {
    if |sorted| > 0 {
      InsertBySameSplit(split, other, key, sorted[1..]);
    }
  }

  /**
   * Keys that do not end in a newline, as the tracker's keys do not, sort
   * the same under the split as written and the corrected one.
   */
  lemma SortAsWrittenAgrees(keys: seq<string>)
    requires forall k :: k in keys ==> |k| == 0 || k[|k| - 1] != '\n'
    ensures SortByTicketKey(SplitTicketKeyAsWritten, keys) == SortByTicketKey(SplitTicketKey, keys)
  {
    forall k | k in keys
      ensures SplitTicketKeyAsWritten(k) == SplitTicketKey(k)
    {
      AsWrittenAgrees(k);
    }
    SortBySameSplit(SplitTicketKeyAsWritten, SplitTicketKey, keys);
  }

  /**
   * With a final newline the two splits order keys differently: the script
   * puts `ABC-12` before `ABC-3`, the corrected split the other way round.
   */
  lemma SortsDifferOnFinalNewline()
    ensures SortByTicketKey(SplitTicketKeyAsWritten, ["ABC-12\n", "ABC-3\n"]) == ["ABC-12\n", "ABC-3\n"]
    ensures SortByTicketKey(SplitTicketKey, ["ABC-12\n", "ABC-3\n"]) == ["ABC-3\n", "ABC-12\n"]
  {
    var x, y := "ABC-12\n", "ABC-3\n";
    NewlineKeySplits();
    PrefixOrder();
    assert [x, y][..1] == [x];
    assert Insert(SplitTicketKeyAsWritten, y, [x]) == [x, y];
    assert Insert(SplitTicketKey, y, [x]) == [y, x];
  }

  /** The splits of `ABC-12` and `ABC-3`, each followed by a newline. */
  lemma NewlineKeySplits()
    ensures SplitTicketKeyAsWritten("ABC-12\n") == TicketKey("ABC-1", 12)
    ensures SplitTicketKeyAsWritten("ABC-3\n") == TicketKey("ABC-3", 3)
    ensures SplitTicketKey("ABC-12\n") == TicketKey("ABC-", 12)
    ensures SplitTicketKey("ABC-3\n") == TicketKey("ABC-", 3)
  {
    AsWrittenFinalNewline("ABC-", "12");
    AsWrittenFinalNewline("ABC-", "3");
    assert "ABC-" + "12" + "\n" == "ABC-12\n";
    assert "ABC-" + "3" + "\n" == "ABC-3\n";
    assert Decimal("12") == 12 by {
      assert "12"[..1] == "1";
    }
  }

  /** `ABC-3` does not sort before `ABC-1`. */
  lemma PrefixOrder()
    ensures !KeyLess(TicketKey("ABC-3", 3), TicketKey("ABC-1", 12))
  {
    assert StrLess("ABC-1", "ABC-3") by {
      StrLessAfterCommonPrefix("ABC-", "1", "3");
      assert "ABC-" + "1" == "ABC-1" && "ABC-" + "3" == "ABC-3";
    }
    StrLessIrreflexive("ABC-1");
    if StrLess("ABC-3", "ABC-1") {
      StrLessTransitive("ABC-1", "ABC-3", "ABC-1");
    }
  }

  // ------------------------------------------------------------ the script's main block

  /** The ticket map after reading `tickets` in order: a later ticket replaces an earlier one with its key. */
  function LastByKey(tickets: seq<Ticket>): map<string, Ticket>
    decreases |tickets|
  {
    if |tickets| == 0 then map[]
    else LastByKey(tickets[..|tickets| - 1])[tickets[|tickets| - 1].key := tickets[|tickets| - 1]]
  }

  /** The ticket `tickets[i]` is the last one with its key. */
  predicate IsLastWithKey(tickets: seq<Ticket>, i: int) {
    0 <= i < |tickets| && forall j :: i < j < |tickets| ==> tickets[j].key != tickets[i].key
  }

  /** A key is in the map exactly when some ticket read has it. */
  lemma {:induction false} LastByKeyKeys(tickets: seq<Ticket>)
    ensures forall k :: k in LastByKey(tickets) <==> exists i :: 0 <= i < |tickets| && tickets[i].key == k
    decreases |tickets|
  {
    if |tickets| > 0 {
      var n := |tickets| - 1;
      var init := tickets[..n];
      LastByKeyKeys(init);
      assert LastByKey(tickets) == LastByKey(init)[tickets[n].key := tickets[n]];
      forall k | k in LastByKey(tickets)
        ensures exists i :: 0 <= i < |tickets| && tickets[i].key == k
      {
        if k != tickets[n].key {
          var i :| 0 <= i < |init| && init[i].key == k;
          assert tickets[i].key == k;
        }
      }
      forall k | (exists i :: 0 <= i < |tickets| && tickets[i].key == k)
        ensures k in LastByKey(tickets)
      {
        var i :| 0 <= i < |tickets| && tickets[i].key == k;
        if i < n {
          assert init[i].key == k;
        }
      }
    }
  }

  /** The map holds, for each key, the last ticket read with that key. */
  lemma {:induction false} LastByKeyLast(tickets: seq<Ticket>)
    ensures forall k :: k in LastByKey(tickets) ==>
      exists i :: IsLastWithKey(tickets, i) && tickets[i].key == k && LastByKey(tickets)[k] == tickets[i]
    decreases |tickets|
  {
    if |tickets| > 0 {
      var n := |tickets| - 1;
      var init := tickets[..n];
      LastByKeyLast(init);
      assert LastByKey(tickets) == LastByKey(init)[tickets[n].key := tickets[n]];
      forall k | k in LastByKey(tickets)
        ensures exists i :: IsLastWithKey(tickets, i) && tickets[i].key == k && LastByKey(tickets)[k] == tickets[i]
      {
        if k == tickets[n].key {
          assert IsLastWithKey(tickets, n);
        } else {
          var i :| IsLastWithKey(init, i) && init[i].key == k && LastByKey(init)[k] == init[i];
          assert IsLastWithKey(tickets, i);
        }
      }
    }
  }

  /** The loop that fills `ticketsMap`. */
  method TicketsMap(tickets: seq<Ticket>) returns (ticketsMap: map<string, Ticket>)
    ensures ticketsMap == LastByKey(tickets)
  {
    ticketsMap := map[];
    for i := 0 to |tickets|
      invariant ticketsMap == LastByKey(tickets[..i])
    {
      assert tickets[..i + 1][..i] == tickets[..i];
      ticketsMap := ticketsMap[tickets[i].key := tickets[i]];
    }
    assert tickets[..|tickets|] == tickets;
  }

  /**
   * The tickets `jira-find-pretty` prints, in order: one per key, the last
   * read for that key, sorted by the split as written. `order` is the
   * dict's keys in its iteration order, which decides between keys whose
   * split keys are equal.
   */
  method OrderedTickets(tickets: seq<Ticket>) returns (orderedTickets: seq<Ticket>, ghost order: seq<string>)
    ensures forall k :: k in order <==> exists i :: 0 <= i < |tickets| && tickets[i].key == k
    ensures |orderedTickets| == |order|
    ensures forall i, j :: 0 <= i < j < |order| ==> order[i] != order[j]
    ensures forall i :: 0 <= i < |orderedTickets| ==> orderedTickets[i].key == SortByTicketKey(SplitTicketKeyAsWritten, order)[i]
    ensures forall i :: 0 <= i < |orderedTickets| ==> exists t :: IsLastWithKey(tickets, t) && orderedTickets[i] == tickets[t]
    ensures forall i, j :: 0 <= i < j < |orderedTickets| ==> KeyLeq(SplitTicketKeyAsWritten, orderedTickets[i].key, orderedTickets[j].key)
  {
    var ticketsMap := TicketsMap(tickets);
    LastByKeyKeys(tickets);
    LastByKeyLast(tickets);
    var keys := IterationOrder(ticketsMap);
    order := keys;
    DistinctKeys(keys, ticketsMap.Keys);
    var sortedKeys := SortByTicketKey(SplitTicketKeyAsWritten, keys);
    SortByTicketKeyCorrect(SplitTicketKeyAsWritten, keys);
    forall i | 0 <= i < |sortedKeys|
      ensures sortedKeys[i] in ticketsMap
    {
      assert sortedKeys[i] in multiset(keys);
    }
    orderedTickets := seq(|sortedKeys|, i requires 0 <= i < |sortedKeys| => ticketsMap[sortedKeys[i]]);
    forall i | 0 <= i < |orderedTickets|
      ensures orderedTickets[i].key == sortedKeys[i]
      ensures exists t :: IsLastWithKey(tickets, t) && orderedTickets[i] == tickets[t]
    {
      var k := sortedKeys[i];
      var t :| IsLastWithKey(tickets, t) && tickets[t].key == k && ticketsMap[k] == tickets[t];
    }
  }

  /** Keys enumerated once each: as many as the set holds, so none twice. */
  lemma DistinctKeys(keys: seq<string>, s: set<string>)
    requires forall k :: k in keys <==> k in s
    requires |keys| == |s|
    ensures forall i, j :: 0 <= i < j < |keys| ==> keys[i] != keys[j]
  {
    forall i, j | 0 <= i < j < |keys|
      ensures keys[i] != keys[j]
    {
      if keys[i] == keys[j] {
        EnumerationWithRepeat(keys, s, i, j);
      }
    }
  }

  lemma {:induction false} EnumerationWithRepeat(keys: seq<string>, s: set<string>, i: nat, j: nat)
    requires forall k :: k in s ==> k in keys
    requires i < j < |keys| && keys[i] == keys[j]
    ensures |s| < |keys|
    decreases |keys|
  {
    var rest := keys[..j] + keys[j + 1..];
    assert forall k :: k in s ==> k in rest by {
      forall k | k in s
        ensures k in rest
      {
        var t :| 0 <= t < |keys| && keys[t] == k;
        if t < j {
          assert rest[t] == k;
        } else if t == j {
          assert rest[i] == k;
        } else {
          assert rest[t - 1] == k;
        }
      }
    }
    SetOfSeqBound(rest, s);
  }

  /** A sequence that holds every element of `s` is at least as long as `s` is large. */
  lemma {:induction false} SetOfSeqBound(xs: seq<string>, s: set<string>)
    requires forall k :: k in s ==> k in xs
    ensures |s| <= |xs|
    decreases |xs|
  {
    if |xs| == 0 {
      assert s == {};
    } else {
      var s' := s - {xs[0]};
      forall k | k in s'
        ensures k in xs[1..]
      {
        var t :| 0 <= t < |xs| && xs[t] == k;
        assert t != 0;
        assert xs[1..][t - 1] == k;
      }
      SetOfSeqBound(xs[1..], s');
    }
  }
}
