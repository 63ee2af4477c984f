/** The counting fold both dashboards run over their students
    (`students.reduce((acc, s) => { if (!acc[k]) acc[k] = 0; acc[k]++; ... }, {})`)
    and the "top five" chain of the government dashboard
    (`Object.entries(counts).sort((a, b) => b[1] - a[1]).slice(0, 5)`).

    A `Record<string, number>` is a sequence of entries in insertion order,
    which is the order `Object.entries` lists string keys in. */
module Tally {
  import opened Seqs

  datatype Entry = Entry(key: string, count: int)

  /** The index of the entry for `k`, or -1. */
  function IndexOfKey(acc: seq<Entry>, k: string): int {
    FirstIndex(acc, (e: Entry) => e.key == k)
  }

  /** `acc[k]`, with an absent key read as 0. */
  function Get(acc: seq<Entry>, k: string): int {
    var j := IndexOfKey(acc, k);
    if j < 0 then 0 else acc[j].count
  }

  /** One step of the fold: an absent key is added at the end with count 1, a
      present one has its count raised by one in place. */
  function Bump(acc: seq<Entry>, k: string): seq<Entry> {
    var j := IndexOfKey(acc, k);
    if j < 0 then acc + [Entry(k, 1)] else acc[j := Entry(k, acc[j].count + 1)]
  }

  /** The dictionary the fold builds from `keys`, one step per key. */
  function Counts(keys: seq<string>): seq<Entry> {
    if keys == [] then [] else Bump(Counts(keys[..|keys| - 1]), keys[|keys| - 1])
  }

  predicate DistinctKeys(acc: seq<Entry>) {
    forall i, j :: 0 <= i < j < |acc| ==> acc[i].key != acc[j].key
  }

  predicate AllPositive(acc: seq<Entry>) {
    forall i :: 0 <= i < |acc| ==> acc[i].count >= 1
  }

  function Sum(acc: seq<Entry>): int {
    if acc == [] then 0 else Sum(acc[..|acc| - 1]) + acc[|acc| - 1].count
  }

  /** The reduce, as the loop it is: the accumulator is updated in place once
      per key. */
  method CountBy(keys: seq<string>) returns (acc: seq<Entry>)
    ensures acc == Counts(keys)
  {
    acc := [];
    var i := 0;
    while i < |keys|
      invariant 0 <= i <= |keys|
      invariant acc == Counts(keys[..i])
    {
      var k := keys[i];
      assert keys[..i + 1][..i] == keys[..i];
      var j := IndexOfKey(acc, k);
      if j < 0 {
        acc := acc + [Entry(k, 0)];
        j := |acc| - 1;
      }
      acc := acc[j := Entry(k, acc[j].count + 1)];
      i := i + 1;
    }
    assert keys[..|keys|] == keys;
  }

  // ------------------------------------------------------ facts about Counts

  /** The counts have one entry per distinct key. */
  lemma {:induction false} CountsDistinct(keys: seq<string>)
    ensures DistinctKeys(Counts(keys))
    decreases |keys|
  {
    if keys != [] {
      var acc := Counts(keys[..|keys| - 1]);
      CountsDistinct(keys[..|keys| - 1]);
      var k := keys[|keys| - 1];
      var j := IndexOfKey(acc, k);
      if j >= 0 {
        assert Counts(keys) == acc[j := Entry(k, acc[j].count + 1)];
      } else {
        assert Counts(keys) == acc + [Entry(k, 1)];
      }
    }
  }

  /** Every count is at least one. */
  lemma {:induction false} CountsPositive(keys: seq<string>)
    ensures AllPositive(Counts(keys))
    decreases |keys|
  {
    if keys != [] {
      CountsPositive(keys[..|keys| - 1]);
    }
  }

  /** The count stored for `k` is the number of times `k` occurs. */
  lemma {:induction false} CountsCount(keys: seq<string>, k: string)
    ensures Get(Counts(keys), k) == multiset(keys)[k]
    decreases |keys|
  {
    if keys != [] {
      var prefix, last := keys[..|keys| - 1], keys[|keys| - 1];
      assert keys == prefix + [last];
      assert multiset(keys) == multiset(prefix) + multiset{last};
      CountsCount(prefix, k);
      var acc := Counts(prefix);
      var j := IndexOfKey(acc, last);
      var t := Counts(keys);
      if j >= 0 {
        assert t == acc[j := Entry(last, acc[j].count + 1)];
        if k != last {
          SameIndexAfterUpdate(acc, j, Entry(last, acc[j].count + 1), k);
        } else {
          assert IndexOfKey(t, k) == j by {
            SameIndexAfterUpdate(acc, j, Entry(last, acc[j].count + 1), k);
          }
        }
      } else {
        assert t == acc + [Entry(last, 1)];
        IndexAfterAppend(acc, Entry(last, 1), k);
      }
    }
  }

  /** Replacing entry `j` by one with the same key moves no key's index. */
  lemma SameIndexAfterUpdate(acc: seq<Entry>, j: nat, e: Entry, k: string)
    requires j < |acc| && e.key == acc[j].key
    ensures IndexOfKey(acc[j := e], k) == IndexOfKey(acc, k)
  {
    var t := acc[j := e];
    var a, b := IndexOfKey(acc, k), IndexOfKey(t, k);
    assert forall i :: 0 <= i < |acc| ==> (t[i].key == k <==> acc[i].key == k);
    if a >= 0 && b >= 0 {
      assert !(a < b) && !(b < a);
    }
  }

  /** Appending an entry leaves the index of every key that was already there,
      and puts a new key at the end. */
  lemma IndexAfterAppend(acc: seq<Entry>, e: Entry, k: string)
    ensures var i := IndexOfKey(acc + [e], k);
      && (IndexOfKey(acc, k) >= 0 ==> i == IndexOfKey(acc, k))
      && (IndexOfKey(acc, k) < 0 ==> i == (if e.key == k then |acc| else -1))
  {
    var t := acc + [e];
    var a, b := IndexOfKey(acc, k), IndexOfKey(t, k);
    assert forall i :: 0 <= i < |acc| ==> t[i] == acc[i];
    if a >= 0 {
      assert !(a < b) && !(b < a);
    } else if e.key == k {
      assert t[|acc|].key == k;
    }
  }

  /** A key has an entry exactly when it occurs among the keys. */
  lemma CountsKeys(keys: seq<string>, k: string)
    ensures IndexOfKey(Counts(keys), k) >= 0 <==> k in keys
  {
    CountsCount(keys, k);
    CountsPositive(keys);
    assert k in keys <==> multiset(keys)[k] > 0;
  }

  /** The counts add up to the number of keys. */
  lemma {:induction false} CountsSum(keys: seq<string>)
    ensures Sum(Counts(keys)) == |keys|
    decreases |keys|
  {
    if keys != [] {
      CountsSum(keys[..|keys| - 1]);
      SumBump(Counts(keys[..|keys| - 1]), keys[|keys| - 1]);
    }
  }

  /** One step of the fold adds one to the sum. */
  lemma SumBump(acc: seq<Entry>, k: string)
    ensures Sum(Bump(acc, k)) == Sum(acc) + 1
  {
    var j := IndexOfKey(acc, k);
    if j >= 0 {
      SumUpdate(acc, j, Entry(k, acc[j].count + 1));
    } else {
      assert (acc + [Entry(k, 1)])[..|acc|] == acc;
    }
  }

  /** Replacing one entry changes the sum by the difference of the counts. */
  lemma {:induction false} SumUpdate(acc: seq<Entry>, j: nat, e: Entry)
    requires j < |acc|
    ensures Sum(acc[j := e]) == Sum(acc) - acc[j].count + e.count
    decreases |acc|
  {
    var n := |acc| - 1;
    if j < n {
      SumUpdate(acc[..n], j, e);
      assert acc[j := e][..n] == acc[..n][j := e];
    } else {
      assert acc[j := e][..n] == acc[..n];
    }
  }

  /** The number of entries is the number of distinct keys. */
  lemma {:induction false} CountsSize(keys: seq<string>)
    ensures |Counts(keys)| == |set k | k in keys|
    decreases |keys|
  {
    if keys != [] {
      var prefix, last := keys[..|keys| - 1], keys[|keys| - 1];
      CountsSize(prefix);
      CountsKeys(prefix, last);
      assert (set k | k in keys) == (set k | k in prefix) + {last} by {
        assert keys == prefix + [last];
      }
      if last !in prefix {
        assert (set k | k in prefix) !! {last};
      } else {
        assert (set k | k in keys) == (set k | k in prefix);
      }
    }
  }

  // ------------------------------------------------------------- top five

  predicate NonIncreasing(s: seq<Entry>) {
    forall i, j :: 0 <= i < j < |s| ==> s[i].count >= s[j].count
  }

  /** Inserts `e` after every entry whose count is at least its own. */
  function InsertDesc(sorted: seq<Entry>, e: Entry): seq<Entry> {
    if sorted == [] then [e]
    else if sorted[0].count >= e.count then [sorted[0]] + InsertDesc(sorted[1..], e)
    else [e] + sorted
  }

  /** Insertion adds `e` and nothing else. */
  lemma {:induction false} InsertDescMultiset(sorted: seq<Entry>, e: Entry)
    ensures multiset(InsertDesc(sorted, e)) == multiset(sorted) + multiset{e}
  {
    if sorted != [] {
      assert sorted == [sorted[0]] + sorted[1..];
      if sorted[0].count >= e.count {
        InsertDescMultiset(sorted[1..], e);
      }
    }
  }

  /** Insertion keeps a sorted list sorted; the first entry is the larger of
      the old first entry and `e`. */
  lemma {:induction false} InsertDescSorted(sorted: seq<Entry>, e: Entry)
    requires NonIncreasing(sorted)
    ensures NonIncreasing(InsertDesc(sorted, e))
    ensures |InsertDesc(sorted, e)| == |sorted| + 1
    ensures InsertDesc(sorted, e)[0].count ==
      if sorted == [] || sorted[0].count < e.count then e.count else sorted[0].count
  {
    if sorted != [] && sorted[0].count >= e.count {
      var rest := InsertDesc(sorted[1..], e);
      InsertDescSorted(sorted[1..], e);
      var r := [sorted[0]] + rest;
      assert r == InsertDesc(sorted, e);
      assert rest[0].count <= sorted[0].count;
      forall i, j | 0 <= i < j < |r| ensures r[i].count >= r[j].count {
        if i == 0 {
          assert r[j] == rest[j - 1];
        } else {
          assert r[i] == rest[i - 1] && r[j] == rest[j - 1];
        }
      }
    }
  }

  /** `sort((a, b) => b[1] - a[1])`: by count, largest first. The insertion
      places an entry after those of equal count, so equal counts keep their
      order (not proved). */
  function SortDesc(s: seq<Entry>): (r: seq<Entry>)
    ensures multiset(r) == multiset(s)
    ensures NonIncreasing(r)
  {
    if s == [] then []
    else
      var sortedInit := SortDesc(s[..|s| - 1]);
      InsertLast(s, sortedInit);
      InsertDesc(sortedInit, s[|s| - 1])
  }

  /** Inserting the last entry of `s` into a sorted arrangement of the others
      gives a sorted arrangement of all of `s`. */
  lemma InsertLast(s: seq<Entry>, sortedInit: seq<Entry>)
    requires s != []
    requires multiset(sortedInit) == multiset(s[..|s| - 1]) && NonIncreasing(sortedInit)
    ensures multiset(InsertDesc(sortedInit, s[|s| - 1])) == multiset(s)
    ensures NonIncreasing(InsertDesc(sortedInit, s[|s| - 1]))
  {
    InsertDescMultiset(sortedInit, s[|s| - 1]);
    InsertDescSorted(sortedInit, s[|s| - 1]);
    assert s == s[..|s| - 1] + [s[|s| - 1]];
  }

  /** `topCourses`: the first five of the sorted entries. */
  function Top(counts: seq<Entry>, n: nat): seq<Entry> {
    Slice(SortDesc(counts), 0, n)
  }

  /** The top list has exactly `n` entries, or all of them when there are
      fewer, taken from the counts with none repeated beyond its occurrences,
      with counts non-increasing, and every entry left out has a count no
      larger than any entry kept. */
  lemma TopSpec(counts: seq<Entry>, n: nat)
    ensures |Top(counts, n)| == Min(n, |counts|)
    ensures multiset(Top(counts, n)) <= multiset(counts)
    ensures forall e :: e in Top(counts, n) ==> e in counts
    ensures NonIncreasing(Top(counts, n))
    ensures forall e, t :: e in counts && e !in Top(counts, n) && t in Top(counts, n) ==> e.count <= t.count
  {
    var sorted := SortDesc(counts);
    assert |sorted| == |counts| by {
      assert |multiset(sorted)| == |multiset(counts)|;
    }
    SliceNonNegative(sorted, 0, n);
    var m := Min(n, |sorted|);
    assert Top(counts, n) == sorted[..m];
    assert sorted == sorted[..m] + sorted[m..];
    assert multiset(sorted) == multiset(sorted[..m]) + multiset(sorted[m..]);
    PrefixMembers(sorted, counts, m);
    PrefixOmitted(sorted, counts, m);
  }

  /** A prefix of a sorted arrangement of `counts` is sorted and holds only
      entries of `counts`. */
  lemma PrefixMembers(sorted: seq<Entry>, counts: seq<Entry>, m: nat)
    requires multiset(sorted) == multiset(counts) && NonIncreasing(sorted) && m <= |sorted|
    ensures NonIncreasing(sorted[..m])
    ensures forall e :: e in sorted[..m] ==> e in counts
  {
    forall e | e in sorted[..m] ensures e in counts {
      assert multiset(sorted)[e] > 0;
    }
  }

  /** An entry of `counts` outside a prefix of a sorted arrangement of it has
      a count no larger than any entry inside. */
  lemma PrefixOmitted(sorted: seq<Entry>, counts: seq<Entry>, m: nat)
    requires multiset(sorted) == multiset(counts) && NonIncreasing(sorted) && m <= |sorted|
    ensures forall e, t :: e in counts && e !in sorted[..m] && t in sorted[..m] ==> e.count <= t.count
  {
    var top := sorted[..m];
    forall e, t | e in counts && e !in top && t in top ensures e.count <= t.count {
      assert multiset(sorted)[e] > 0;
      var j :| 0 <= j < |sorted| && sorted[j] == e;
      var i :| 0 <= i < |top| && top[i] == t;
      assert j >= m;
      assert sorted[i] == t;
    }
  }

  /** With fewer than `n` distinct entries the top list is all of them. */
  lemma TopAll(counts: seq<Entry>, n: nat)
    requires |counts| <= n
    ensures multiset(Top(counts, n)) == multiset(counts)
  {
    var sorted := SortDesc(counts);
    assert |sorted| == |counts| by {
      assert |multiset(sorted)| == |multiset(counts)|;
    }
    SliceNonNegative(sorted, 0, n);
    assert Top(counts, n) == sorted;
  }
}
