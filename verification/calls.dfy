/** Call records and the clean-up at the top of every script: normalise the
    neighbourhood name (and in some scripts the call type), then drop the records
    whose neighbourhood is "-" or "unknown". */
module Calls {
  import opened Wrappers
  import Text
  import Seqs

  /** One call as the scripts see it: the dispatch neighbourhood as text (a missing
      value has already become the text "nan"), the initial call type, and the initial
      call priority as Python's `int()` parses it (`None` where `int()` raises). */
  datatype Call = Call(area: string, kind: string, priority: Option<int>)

  /** The two placeholder names that every filtering script excludes. */
  predicate IsValidArea(name: string) {
    name != "-" && name != "unknown"
  }

  predicate HasValidArea(c: Call) {
    IsValidArea(c.area)
  }

  function CleanArea(c: Call): Call {
    c.(area := Text.Normalize(c.area))
  }

  function CleanKind(c: Call): Call {
    c.(kind := Text.Normalize(c.kind))
  }

  /** `df['Neighborhood'] = df['Dispatch Neighborhood'].astype(str).str.lower().str.strip()` */
  function CleanAreas(cs: seq<Call>): (r: seq<Call>)
    ensures |r| == |cs|
    ensures forall i :: 0 <= i < |cs| ==> r[i] == CleanArea(cs[i])
  {
    seq(|cs|, i requires 0 <= i < |cs| => CleanArea(cs[i]))
  }

  /** Cleaning the names of a cleaned frame again changes nothing. */
  lemma CleanAreasIdempotent(raw: seq<Call>)
    ensures CleanAreas(CleanAreas(raw)) == CleanAreas(raw)
  {
    forall i | 0 <= i < |raw| ensures CleanArea(CleanArea(raw[i])) == CleanArea(raw[i]) {
      Text.NormalizeIdempotent(raw[i].area);
    }
  }

  /** `df['Initial Call Type'] = df['Initial Call Type'].astype(str).str.lower().str.strip()` */
  function CleanKinds(cs: seq<Call>): (r: seq<Call>)
    ensures |r| == |cs|
    ensures forall i :: 0 <= i < |cs| ==> r[i] == CleanKind(cs[i])
  {
    seq(|cs|, i requires 0 <= i < |cs| => CleanKind(cs[i]))
  }

  /** After type normalisation every call type is in normal form. */
  lemma CleanKindsNormal(cs: seq<Call>)
    ensures forall d :: d in CleanKinds(cs) ==> Text.IsNormal(d.kind)
  {
    forall d | d in CleanKinds(cs) ensures Text.IsNormal(d.kind) {
      var e :| 0 <= e < |cs| && CleanKinds(cs)[e] == d;
      Text.NormalizeShape(cs[e].kind);
    }
  }

  /** The cleaned and filtered frame every clustering script starts from. The pandas
      test `notna()` that accompanies the exclusion can never fail on text, so the
      exclusion is the whole filter. */
  function ValidCalls(raw: seq<Call>): seq<Call> {
    Seqs.Filter(HasValidArea, CleanAreas(raw))
  }

  /** A record is kept exactly when its normalised neighbourhood is a real name; it is
      kept with the normalised name and every other field untouched. */
  lemma ValidCallsMembers(raw: seq<Call>)
    ensures forall c :: c in ValidCalls(raw) ==> IsValidArea(c.area) && Text.IsNormal(c.area)
    ensures forall i :: 0 <= i < |raw| && IsValidArea(Text.Normalize(raw[i].area)) ==>
              CleanArea(raw[i]) in ValidCalls(raw)
    ensures forall c :: c in ValidCalls(raw) ==>
              exists i :: 0 <= i < |raw| && c == CleanArea(raw[i])
  {
    var cl := CleanAreas(raw);
    forall c | c in ValidCalls(raw) ensures Text.IsNormal(c.area) {
      var i :| 0 <= i < |cl| && cl[i] == c;
      Text.NormalizeShape(raw[i].area);
    }
  }

  /** Nothing else is dropped and nothing is reordered: the filter handles each record
      on its own, so it splits over any cut of the input, and on a single record it
      keeps the record iff the normalised name is not "-" or "unknown". */
  lemma {:induction false} ValidCallsSplit(a: seq<Call>, b: seq<Call>)
    ensures ValidCalls(a + b) == ValidCalls(a) + ValidCalls(b)
  {
    var l, r := CleanAreas(a), CleanAreas(b);
    assert CleanAreas(a + b) == l + r by {
      forall i | 0 <= i < |a + b| ensures CleanAreas(a + b)[i] == (l + r)[i] {
        if i < |a| {
          assert (a + b)[i] == a[i];
        } else {
          assert (a + b)[i] == b[i - |a|];
        }
      }
    }
    Seqs.FilterAppend(HasValidArea, CleanAreas(a), CleanAreas(b));
  }

  lemma ValidCallsSingle(c: Call)
    ensures IsValidArea(Text.Normalize(c.area)) ==> ValidCalls([c]) == [CleanArea(c)]
    ensures !IsValidArea(Text.Normalize(c.area)) ==> ValidCalls([c]) == []
  {
    assert CleanAreas([c]) == [CleanArea(c)];
  }

  /** The neighbourhood column of a frame. */
  function Areas(cs: seq<Call>): (r: seq<string>)
    ensures |r| == |cs|
    ensures forall i :: 0 <= i < |cs| ==> r[i] == cs[i].area
  {
    seq(|cs|, i requires 0 <= i < |cs| => cs[i].area)
  }

  /** The call-type column of a frame. */
  function Kinds(cs: seq<Call>): (r: seq<string>)
    ensures |r| == |cs|
    ensures forall i :: 0 <= i < |cs| ==> r[i] == cs[i].kind
  {
    seq(|cs|, i requires 0 <= i < |cs| => cs[i].kind)
  }

  /** The records of one neighbourhood. */
  function InArea(cs: seq<Call>, name: string): seq<Call> {
    Seqs.Filter((c: Call) => c.area == name, cs)
  }

  /** A neighbourhood's records, peeled one record at a time. */
  lemma InAreaCons(cs: seq<Call>, name: string)
    requires |cs| > 0
    ensures InArea(cs, name) == (if cs[0].area == name then [cs[0]] else []) + InArea(cs[1..], name)
  {
  }

  /** The call types of a record followed by more records. */
  lemma KindsCons(c: Call, rest: seq<Call>)
    ensures Kinds([c] + rest) == [c.kind] + Kinds(rest)
  {
  }

  /** The size of a neighbourhood's group is the number of times its name occurs in
      the neighbourhood column, which is what `value_counts()` reports. */
  lemma {:induction false} InAreaCount(cs: seq<Call>, name: string)
    ensures |InArea(cs, name)| == Seqs.Occ(Areas(cs), name)
  {
    if |cs| > 0 {
      assert Areas(cs) == [cs[0].area] + Areas(cs[1..]);
      InAreaCount(cs[1..], name);
    }
  }

  /** For a real name, dropping the placeholder names does not touch its records. */
  lemma {:induction false} InAreaOfValid(cs: seq<Call>, name: string)
    requires IsValidArea(name)
    ensures InArea(Seqs.Filter(HasValidArea, cs), name) == InArea(cs, name)
  {
    if |cs| > 0 {
      InAreaOfValid(cs[1..], name);
      if HasValidArea(cs[0]) {
        assert Seqs.Filter(HasValidArea, cs) == [cs[0]] + Seqs.Filter(HasValidArea, cs[1..]);
        assert ([cs[0]] + Seqs.Filter(HasValidArea, cs[1..]))[1..] == Seqs.Filter(HasValidArea, cs[1..]);
      }
    }
  }

  lemma CleanKindsCons(c: Call, rest: seq<Call>)
    ensures CleanKinds([c] + rest) == [CleanKind(c)] + CleanKinds(rest)
  {
    var all := [c] + rest;
    var l, r := CleanKinds(all), [CleanKind(c)] + CleanKinds(rest);
    forall i | 0 <= i < |l| ensures l[i] == r[i] {
      if i > 0 {
        assert all[i] == rest[i - 1];
      }
    }
  }

  /** Cleaning the call types commutes with the neighbourhood filter. */
  lemma {:induction false} CleanKindsFilter(cs: seq<Call>)
    ensures CleanKinds(Seqs.Filter(HasValidArea, cs)) == Seqs.Filter(HasValidArea, CleanKinds(cs))
  {
    if |cs| > 0 {
      var ck := CleanKinds(cs);
      CleanKindsFilter(cs[1..]);
      assert ck == [CleanKind(cs[0])] + CleanKinds(cs[1..]) by {
        assert cs == [cs[0]] + cs[1..];
        CleanKindsCons(cs[0], cs[1..]);
      }
      Seqs.FilterCons(HasValidArea, cs);
      Seqs.FilterCons(HasValidArea, ck);
      assert ck[1..] == CleanKinds(cs[1..]);
      if HasValidArea(cs[0]) {
        CleanKindsCons(cs[0], Seqs.Filter(HasValidArea, cs[1..]));
      }
    }
  }
}
