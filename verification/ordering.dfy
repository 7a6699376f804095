/** The distinct keys of a column in the order pandas lists them after a group-by:
    ascending, each key once. Names use Python's string order, labels the integer
    order. */
module Ordering {
  import Text
  import Seqs

  predicate NamesAscending(s: seq<string>) {
    forall i, j :: 0 <= i < j < |s| ==> Text.Less(s[i], s[j])
  }

  lemma NamesAscendingDistinct(s: seq<string>)
    requires NamesAscending(s)
    ensures Seqs.Distinct(s)
  {
    forall i, j | 0 <= i < j < |s| ensures s[i] != s[j] {
      if s[i] == s[j] {
        Text.LessIrreflexive(s[i]);
      }
    }
  }

  /** Places `x` into an ascending key list, unless it is already there. */
  function InsertName(x: string, s: seq<string>): (r: seq<string>)
    requires NamesAscending(s)
    ensures NamesAscending(r)
    ensures forall y :: y in r <==> y == x || y in s
  {
    if |s| == 0 then [x]
    else if x == s[0] then s
    else if Text.Less(x, s[0]) then
      assert forall j :: 0 < j < |s| ==> Text.Less(x, s[j]) by {
        forall j | 0 < j < |s| ensures Text.Less(x, s[j]) {
          Text.LessTransitive(x, s[0], s[j]);
        }
      }
      [x] + s
    else
      Text.LessTotal(x, s[0]);
      var t := InsertName(x, s[1..]);
      assert forall y :: y in t ==> Text.Less(s[0], y);
      [s[0]] + t
  }

  /** The distinct values of `xs`, ascending: the index of a pandas group-by. */
  function DistinctNames(xs: seq<string>): (r: seq<string>)
    ensures NamesAscending(r)
    ensures forall y :: y in r <==> y in xs
  {
    if |xs| == 0 then [] else InsertName(xs[|xs| - 1], DistinctNames(xs[..|xs| - 1]))
  }

  predicate LabelsAscending(s: seq<int>) {
    forall i, j :: 0 <= i < j < |s| ==> s[i] < s[j]
  }

  function InsertLabel(x: int, s: seq<int>): (r: seq<int>)
    requires LabelsAscending(s)
    ensures LabelsAscending(r)
    ensures forall y :: y in r <==> y == x || y in s
  {
    if |s| == 0 then [x]
    else if x == s[0] then s
    else if x < s[0] then [x] + s
    else
      var t := InsertLabel(x, s[1..]);
      var r := [s[0]] + t;
      assert LabelsAscending(r) by {
        forall i, j | 0 <= i < j < |r| ensures r[i] < r[j] {
          assert r[j] == t[j - 1] && r[j] in t;
          if i > 0 {
            assert r[i] == t[i - 1];
          }
        }
      }
      r
  }

  /** The distinct labels of `xs`, ascending: `sorted(unique(...))`. */
  function DistinctLabels(xs: seq<int>): (r: seq<int>)
    ensures LabelsAscending(r)
    ensures forall y :: y in r <==> y in xs
  {
    if |xs| == 0 then [] else InsertLabel(xs[|xs| - 1], DistinctLabels(xs[..|xs| - 1]))
  }
}
