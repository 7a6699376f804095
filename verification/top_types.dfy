/** The "top 3 call types" of every summary: tally the call types of a group, order
    the tallies by descending count and keep the first three. pandas leaves the order
    of equal counts to its sort; the model fixes one rule (among equal counts the
    tally listed first wins, and tallies are listed by ascending type name) and
    claims only what holds under any rule: counts never increase along the result,
    and nothing left out has a larger count than anything kept. */
module TopTypes {
  import Seqs
  import Ordering

  /** One row of a `groupby(...).size()` or `.sum()`: a call type and its count. */
  datatype Tally = Tally(key: string, count: nat)

  /** The number of top entries every summary keeps. */
  const TopCount: nat := 3

  function Keys(ts: seq<Tally>): (r: seq<string>)
    ensures |r| == |ts|
    ensures forall i :: 0 <= i < |ts| ==> r[i] == ts[i].key
  {
    seq(|ts|, i requires 0 <= i < |ts| => ts[i].key)
  }

  /** The first position holding a largest count. */
  function FirstMax(ts: seq<Tally>): (i: nat)
    requires |ts| > 0
    ensures i < |ts|
    ensures forall j :: 0 <= j < |ts| ==> ts[j].count <= ts[i].count
    ensures forall j :: 0 <= j < i ==> ts[j].count < ts[i].count
  {
    if |ts| == 1 then 0
    else
      var rest := 1 + FirstMax(ts[1..]);
      if ts[0].count >= ts[rest].count then 0 else rest
  }

  function RemoveAt(ts: seq<Tally>, i: nat): (r: seq<Tally>)
    requires i < |ts|
    ensures |r| == |ts| - 1
    ensures forall j :: 0 <= j < i ==> r[j] == ts[j]
    ensures forall j :: i <= j < |r| ==> r[j] == ts[j + 1]
  {
    ts[..i] + ts[i + 1..]
  }

  /** Every tally other than the removed one is still there; with distinct keys, the
      removed key is gone and the keys stay distinct. */
  lemma RemoveAtFacts(ts: seq<Tally>, i: nat)
    requires i < |ts| && Seqs.Distinct(Keys(ts))
    ensures Seqs.Distinct(Keys(RemoveAt(ts, i)))
    ensures forall t :: t in ts && t.key != ts[i].key ==> t in RemoveAt(ts, i)
    ensures forall t :: t in RemoveAt(ts, i) ==> t in ts && t.key != ts[i].key
  {
    var r := RemoveAt(ts, i);
    forall a, b | 0 <= a < b < |r| ensures Keys(r)[a] != Keys(r)[b] {
      var a' := if a < i then a else a + 1;
      var b' := if b < i then b else b + 1;
      assert Keys(ts)[a'] != Keys(ts)[b'];
    }
    forall t | t in ts && t.key != ts[i].key ensures t in r {
      var q :| 0 <= q < |ts| && ts[q] == t;
      if q < i {
        assert r[q] == t;
      } else {
        assert q != i;
        assert r[q - 1] == t;
      }
    }
    forall t | t in r ensures t in ts && t.key != ts[i].key {
      var q :| 0 <= q < |r| && r[q] == t;
      var q' := if q < i then q else q + 1;
      assert ts[q'] == t;
      assert Keys(ts)[q'] != Keys(ts)[i];
    }
  }

  /** `sort_values('count', ascending=False).head(k)` over group-by tallies (distinct
      keys): `k` tallies (or all, if there are fewer) drawn from `ts`, none twice,
      with non-increasing counts, and no tally left out has a larger count than any
      tally kept. */
  function Top(ts: seq<Tally>, k: nat): (r: seq<Tally>)
    requires Seqs.Distinct(Keys(ts))
    ensures |r| == if k < |ts| then k else |ts|
    ensures forall i :: 0 <= i < |r| ==> r[i] in ts
    ensures Seqs.Distinct(Keys(r))
    ensures forall i, j :: 0 <= i < j < |r| ==> r[i].count >= r[j].count
    ensures forall t, i :: t in ts && t.key !in Keys(r) && 0 <= i < |r| ==> t.count <= r[i].count
    decreases k
  {
    if k == 0 || |ts| == 0 then []
    else
      var m := FirstMax(ts);
      var rest := RemoveAt(ts, m);
      RemoveAtFacts(ts, m);
      var tail := Top(rest, k - 1);
      TopStep(ts, m, rest, tail);
      [ts[m]] + tail
  }

  lemma TopStep(ts: seq<Tally>, m: nat, rest: seq<Tally>, tail: seq<Tally>)
    requires m < |ts| && rest == RemoveAt(ts, m)
    requires forall j :: 0 <= j < |ts| ==> ts[j].count <= ts[m].count
    requires forall t :: t in ts && t.key != ts[m].key ==> t in rest
    requires forall t :: t in rest ==> t in ts && t.key != ts[m].key
    requires forall i :: 0 <= i < |tail| ==> tail[i] in rest
    requires Seqs.Distinct(Keys(tail))
    requires forall i, j :: 0 <= i < j < |tail| ==> tail[i].count >= tail[j].count
    requires forall t, i :: t in rest && t.key !in Keys(tail) && 0 <= i < |tail| ==> t.count <= tail[i].count
    ensures forall i :: 0 <= i < |[ts[m]] + tail| ==> ([ts[m]] + tail)[i] in ts
    ensures Seqs.Distinct(Keys([ts[m]] + tail))
    ensures forall i, j :: 0 <= i < j < |[ts[m]] + tail| ==> ([ts[m]] + tail)[i].count >= ([ts[m]] + tail)[j].count
    ensures forall t, i :: t in ts && t.key !in Keys([ts[m]] + tail) && 0 <= i < |[ts[m]] + tail| ==>
              t.count <= ([ts[m]] + tail)[i].count
  {
    var r := [ts[m]] + tail;
    assert Keys(r) == [ts[m].key] + Keys(tail);
    TailBelowHead(ts, m, rest, tail);
    forall t, i | t in ts && t.key !in Keys(r) && 0 <= i < |r| ensures t.count <= r[i].count {
      OmittedBelow(ts, m, rest, tail, t, i);
    }
  }

  /** `head(k)` stops short of `k` only once it has run out of tallies: a shorter
      result holds every key. */
  lemma TopComplete(ts: seq<Tally>, k: nat)
    requires Seqs.Distinct(Keys(ts))
    ensures |Top(ts, k)| < k ==> forall key :: key in Keys(ts) ==> key in Keys(Top(ts, k))
  {
    var r := Top(ts, k);
    if |r| < k {
      forall i | 0 <= i < |r| ensures Keys(r)[i] in Keys(ts) {
        var q :| 0 <= q < |ts| && ts[q] == r[i];
        assert Keys(ts)[q] == Keys(r)[i];
      }
      Seqs.SameSizeCovers(Keys(r), Keys(ts));
    }
  }

  lemma TailBelowHead(ts: seq<Tally>, m: nat, rest: seq<Tally>, tail: seq<Tally>)
    requires m < |ts|
    requires forall j :: 0 <= j < |ts| ==> ts[j].count <= ts[m].count
    requires forall t :: t in rest ==> t in ts && t.key != ts[m].key
    requires forall i :: 0 <= i < |tail| ==> tail[i] in rest
    ensures forall i :: 0 <= i < |tail| ==> tail[i] in ts && tail[i].key != ts[m].key && tail[i].count <= ts[m].count
  {
    forall i | 0 <= i < |tail| ensures tail[i] in ts && tail[i].key != ts[m].key && tail[i].count <= ts[m].count {
      assert tail[i] in rest;
      var q :| 0 <= q < |ts| && ts[q] == tail[i];
    }
  }

  lemma OmittedBelow(ts: seq<Tally>, m: nat, rest: seq<Tally>, tail: seq<Tally>, t: Tally, i: nat)
    requires m < |ts|
    requires forall j :: 0 <= j < |ts| ==> ts[j].count <= ts[m].count
    requires forall t :: t in ts && t.key != ts[m].key ==> t in rest
    requires forall t, i :: t in rest && t.key !in Keys(tail) && 0 <= i < |tail| ==> t.count <= tail[i].count
    requires t in ts && t.key !in Keys([ts[m]] + tail) && i < |[ts[m]] + tail|
    ensures t.count <= ([ts[m]] + tail)[i].count
  {
    var r := [ts[m]] + tail;
    assert Keys(r) == [ts[m].key] + Keys(tail);
    assert t in rest;
    if i > 0 {
      assert r[i] == tail[i - 1];
    } else {
      var q :| 0 <= q < |ts| && ts[q] == t;
    }
  }

  /** `value_counts()` of a text column: one tally per distinct value, values
      ascending, each with its number of occurrences. */
  function ValueCounts(kinds: seq<string>): (r: seq<Tally>)
    ensures forall i :: 0 <= i < |r| ==> r[i].count == Seqs.Occ(kinds, r[i].key) > 0
    ensures forall t :: Seqs.Occ(kinds, t) > 0 ==> t in Keys(r)
    ensures Seqs.Distinct(Keys(r))
  {
    var names := Ordering.DistinctNames(kinds);
    Ordering.NamesAscendingDistinct(names);
    var r := seq(|names|, i requires 0 <= i < |names| => Tally(names[i], Seqs.Occ(kinds, names[i])));
    assert Keys(r) == names;
    r
  }

  /** The top types of a call-type column, as the summaries list them: `TopCount` of
      them (fewer when the column has fewer distinct types), ranked as
      `TopTypesRanked` states. */
  function TopOf(kinds: seq<string>): (r: seq<string>)
    ensures |r| <= TopCount
    ensures |r| < TopCount ==> forall t :: t in kinds ==> t in r
    ensures |kinds| > 0 ==> |r| > 0
    ensures Seqs.Distinct(r)
    ensures forall i :: 0 <= i < |r| ==> r[i] in kinds
    ensures forall i, j :: 0 <= i < j < |r| ==> Seqs.Occ(kinds, r[i]) >= Seqs.Occ(kinds, r[j])
    ensures forall t, i :: t in kinds && t !in r && 0 <= i < |r| ==> Seqs.Occ(kinds, t) <= Seqs.Occ(kinds, r[i])
  {
    TopTypesRanked(kinds, TopCount);
    TopTypes(kinds, TopCount)
  }

  /** A column with fewer than `TopCount` distinct types has every one of them listed. */
  lemma TopOfFew(kinds: seq<string>)
    requires |set t | t in kinds| < TopCount
    ensures forall t :: t in kinds ==> t in TopOf(kinds)
  {
    var r := TopOf(kinds);
    Seqs.DistinctCardinality(r);
    Seqs.SubsetSize(set x | x in r, set t | t in kinds);
  }

  /** The `k` most frequent types of a call-type column: at most `k`, one at least
      whenever the column is non-empty and `k > 0`, each occurring in the column, none
      twice; fewer than `k` only when every type of the column is listed. */
  function TopTypes(kinds: seq<string>, k: nat): (r: seq<string>)
    ensures |r| <= k
    ensures |r| < k ==> forall t :: t in kinds ==> t in r
    ensures k > 0 && |kinds| > 0 ==> |r| > 0
    ensures Seqs.Distinct(r)
    ensures forall i :: 0 <= i < |r| ==> r[i] in kinds
  {
    var ts := ValueCounts(kinds);
    TopNonEmpty(kinds, ts, k);
    TopKeysOccur(kinds, ts, k);
    TopKeysComplete(kinds, ts, k);
    Keys(Top(ts, k))
  }

  lemma TopKeysComplete(kinds: seq<string>, ts: seq<Tally>, k: nat)
    requires forall t :: Seqs.Occ(kinds, t) > 0 ==> t in Keys(ts)
    requires Seqs.Distinct(Keys(ts))
    ensures |Top(ts, k)| < k ==> forall t :: t in kinds ==> t in Keys(Top(ts, k))
  {
    TopComplete(ts, k);
    forall t | t in kinds && |Top(ts, k)| < k ensures t in Keys(Top(ts, k)) {
      assert Seqs.Occ(kinds, t) > 0;
    }
  }

  /** The ranking of `TopTypes`: occurrence counts never increase along the list, and a
      type left out never occurs more often than a type listed. */
  lemma TopTypesRanked(kinds: seq<string>, k: nat)
    ensures var r := TopTypes(kinds, k);
      forall i, j :: 0 <= i < j < |r| ==> Seqs.Occ(kinds, r[i]) >= Seqs.Occ(kinds, r[j])
    ensures var r := TopTypes(kinds, k);
      forall t, i :: t in kinds && t !in r && 0 <= i < |r| ==> Seqs.Occ(kinds, t) <= Seqs.Occ(kinds, r[i])
  {
    var ts := ValueCounts(kinds);
    var top := Top(ts, k);
    var r := TopTypes(kinds, k);
    assert r == Keys(top);
    assert forall i :: 0 <= i < |r| ==> Seqs.Occ(kinds, r[i]) == top[i].count by {
      TopCountsMatch(kinds, ts, k);
    }
    TopOmittedBelow(kinds, ts, k);
  }

  lemma TopNonEmpty(kinds: seq<string>, ts: seq<Tally>, k: nat)
    requires forall t :: Seqs.Occ(kinds, t) > 0 ==> t in Keys(ts)
    requires Seqs.Distinct(Keys(ts))
    ensures k > 0 && |kinds| > 0 ==> |Top(ts, k)| > 0
  {
    if |kinds| > 0 {
      assert Seqs.Occ(kinds, kinds[0]) > 0;
    }
  }

  lemma TopCountsMatch(kinds: seq<string>, ts: seq<Tally>, k: nat)
    requires forall i :: 0 <= i < |ts| ==> ts[i].count == Seqs.Occ(kinds, ts[i].key) > 0
    requires Seqs.Distinct(Keys(ts))
    ensures forall i :: 0 <= i < |Top(ts, k)| ==>
              Top(ts, k)[i].count == Seqs.Occ(kinds, Top(ts, k)[i].key) > 0
  {
    var top := Top(ts, k);
    forall i | 0 <= i < |top| ensures top[i].count == Seqs.Occ(kinds, top[i].key) > 0 {
      var q :| 0 <= q < |ts| && ts[q] == top[i];
    }
  }

  lemma TopKeysOccur(kinds: seq<string>, ts: seq<Tally>, k: nat)
    requires forall i :: 0 <= i < |ts| ==> ts[i].count == Seqs.Occ(kinds, ts[i].key) > 0
    requires Seqs.Distinct(Keys(ts))
    ensures forall i :: 0 <= i < |Top(ts, k)| ==> Keys(Top(ts, k))[i] in kinds
  {
    var top := Top(ts, k);
    TopCountsMatch(kinds, ts, k);
    forall i | 0 <= i < |top| ensures Keys(top)[i] in kinds {
      assert Seqs.Occ(kinds, top[i].key) > 0;
    }
  }

  lemma TopOmittedBelow(kinds: seq<string>, ts: seq<Tally>, k: nat)
    requires forall i :: 0 <= i < |ts| ==> ts[i].count == Seqs.Occ(kinds, ts[i].key)
    requires forall t :: Seqs.Occ(kinds, t) > 0 ==> t in Keys(ts)
    requires Seqs.Distinct(Keys(ts))
    ensures forall t, i :: Seqs.Occ(kinds, t) > 0 && t !in Keys(Top(ts, k)) && 0 <= i < |Top(ts, k)| ==>
              Seqs.Occ(kinds, t) <= Top(ts, k)[i].count
  {
    var top := Top(ts, k);
    forall t, i | Seqs.Occ(kinds, t) > 0 && t !in Keys(top) && 0 <= i < |top|
      ensures Seqs.Occ(kinds, t) <= top[i].count
    {
      var q :| 0 <= q < |ts| && Keys(ts)[q] == t;
      assert ts[q] in ts;
    }
  }

  /** The count a tally list records for `key`, 0 when the key has no tally. */
  function CountOf(ts: seq<Tally>, key: string): (n: nat)
    ensures key !in Keys(ts) ==> n == 0
  {
    if |ts| == 0 then 0
    else if ts[0].key == key then ts[0].count
    else
      assert Keys(ts[1..]) == Keys(ts)[1..];
      CountOf(ts[1..], key)
  }

  lemma {:induction false} CountOfEntry(ts: seq<Tally>, i: nat)
    requires i < |ts| && Seqs.Distinct(Keys(ts))
    ensures CountOf(ts, ts[i].key) == ts[i].count
  {
    if i > 0 {
      assert Keys(ts)[0] != Keys(ts)[i];
      assert Keys(ts[1..]) == Keys(ts)[1..];
      CountOfEntry(ts[1..], i - 1);
    }
  }

  /** The tallies with a positive count, in order: a group-by only lists the groups
      that occur. */
  function Positive(ts: seq<Tally>): (r: seq<Tally>)
    ensures |r| <= |ts|
    ensures forall i :: 0 <= i < |r| ==> r[i] in ts && r[i].count > 0
    ensures forall i :: 0 <= i < |ts| && ts[i].count > 0 ==> ts[i] in r
  {
    if |ts| == 0 then []
    else if ts[0].count > 0 then [ts[0]] + Positive(ts[1..])
    else Positive(ts[1..])
  }

  lemma {:induction false} PositiveDistinct(ts: seq<Tally>)
    requires Seqs.Distinct(Keys(ts))
    ensures Seqs.Distinct(Keys(Positive(ts)))
  {
    if |ts| > 0 {
      var rest := Positive(ts[1..]);
      assert Keys(ts[1..]) == Keys(ts)[1..];
      PositiveDistinct(ts[1..]);
      if ts[0].count > 0 {
        forall i | 0 <= i < |rest| ensures Keys(rest)[i] != ts[0].key {
          var q :| 0 <= q < |ts[1..]| && ts[1..][q] == rest[i];
          assert Keys(ts)[q + 1] != Keys(ts)[0];
        }
        assert Keys([ts[0]] + rest) == [ts[0].key] + Keys(rest);
      }
    }
  }

  /** The `n` keys with the largest positive counts among tallies with distinct keys:
      the `sort_values(..., ascending=False).head(n)` over a summed group-by. Fewer
      than `n` only when every key with a positive count is listed. */
  function TopTallies(ts: seq<Tally>, n: nat): (r: seq<string>)
    requires Seqs.Distinct(Keys(ts))
    ensures |r| <= n
    ensures |r| < n ==> forall t :: CountOf(ts, t) > 0 ==> t in r
    ensures Seqs.Distinct(r)
    ensures forall i :: 0 <= i < |r| ==> CountOf(ts, r[i]) > 0
  {
    PositiveDistinct(ts);
    TopTalliesCounts(ts, n);
    TopComplete(Positive(ts), n);
    forall t | CountOf(ts, t) > 0 && |Top(Positive(ts), n)| < n ensures t in Keys(Top(Positive(ts), n)) {
      var q :| 0 <= q < |ts| && Keys(ts)[q] == t;
      CountOfEntry(ts, q);
      var p :| 0 <= p < |Positive(ts)| && Positive(ts)[p] == ts[q];
      assert Keys(Positive(ts))[p] == t;
    }
    Keys(Top(Positive(ts), n))
  }

  lemma TopTalliesCounts(ts: seq<Tally>, n: nat)
    requires Seqs.Distinct(Keys(ts))
    ensures Seqs.Distinct(Keys(Positive(ts)))
    ensures forall i :: 0 <= i < |Top(Positive(ts), n)| ==>
              CountOf(ts, Top(Positive(ts), n)[i].key) == Top(Positive(ts), n)[i].count > 0
  {
    PositiveDistinct(ts);
    var top := Top(Positive(ts), n);
    forall i | 0 <= i < |top| ensures CountOf(ts, top[i].key) == top[i].count > 0 {
      var q :| 0 <= q < |ts| && ts[q] == top[i];
      CountOfEntry(ts, q);
    }
  }

  /** The ranking of `TopTallies`, stated with the recorded counts: counts never
      increase along the list, and no key with a positive count left out beats a
      listed one. */
  lemma TopTalliesRanked(ts: seq<Tally>, n: nat)
    requires Seqs.Distinct(Keys(ts))
    ensures var r := TopTallies(ts, n);
      forall i, j :: 0 <= i < j < |r| ==> CountOf(ts, r[i]) >= CountOf(ts, r[j])
    ensures var r := TopTallies(ts, n);
      forall t, i :: CountOf(ts, t) > 0 && t !in r && 0 <= i < |r| ==> CountOf(ts, t) <= CountOf(ts, r[i])
  {
    TopTalliesCounts(ts, n);
    var top := Top(Positive(ts), n);
    var r := TopTallies(ts, n);
    assert r == Keys(top);
    forall t, i | CountOf(ts, t) > 0 && t !in r && 0 <= i < |r|
      ensures CountOf(ts, t) <= CountOf(ts, r[i])
    {
      var q := CountedKey(ts, t);
      CountOfEntry(ts, q);
      assert ts[q] in Positive(ts);
    }
  }

  /** Something is listed whenever some count is positive. */
  lemma TopTalliesNonEmpty(ts: seq<Tally>, n: nat, q: nat)
    requires Seqs.Distinct(Keys(ts))
    requires n > 0 && q < |ts| && ts[q].count > 0
    ensures |TopTallies(ts, n)| > 0
  {
    PositiveDistinct(ts);
    assert ts[q] in Positive(ts);
  }

  lemma CountedKey(ts: seq<Tally>, key: string) returns (q: nat)
    requires CountOf(ts, key) > 0
    ensures q < |ts| && ts[q].key == key
  {
    assert key in Keys(ts);
    q :| 0 <= q < |ts| && Keys(ts)[q] == key;
  }
}
