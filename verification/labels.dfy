/** Cluster labels and how the scripts attach them to call records. A clustering
    library returns one label per matrix row; the scripts pair them with the row
    names by position, then join the call records to that table by neighbourhood. */
module Labels {
  import opened Wrappers
  import Text
  import Seqs
  import Calls

  /** One row of a label table: a neighbourhood and its cluster label. */
  datatype Assignment = Assignment(area: string, cluster: int)

  /** A call record together with the label its neighbourhood received. */
  datatype Labelled = Labelled(call: Calls.Call, cluster: int)

  /** A label file read back with its names normalised, as the downstream scripts do
      with `.str.lower().str.strip()`. */
  function CleanTable(table: seq<Assignment>): (r: seq<Assignment>)
    ensures |r| == |table|
    ensures forall j :: 0 <= j < |table| ==>
              r[j].cluster == table[j].cluster && r[j].area == Text.Normalize(table[j].area)
  {
    seq(|table|, j requires 0 <= j < |table| => table[j].(area := Text.Normalize(table[j].area)))
  }

  /** A label file written from a matrix index already holds normalised names, and
      normalising them again changes nothing, so its join keys match the records'. */
  lemma CleanTableOfNormal(table: seq<Assignment>)
    requires forall j :: 0 <= j < |table| ==> Text.IsNormal(table[j].area)
    ensures CleanTable(table) == table
  {
    forall j | 0 <= j < |table| ensures CleanTable(table)[j] == table[j] {
      Text.NormalOfNormal(table[j].area);
    }
  }

  /** `pd.DataFrame({"Neighborhood": rows, "<cluster>": labels})`: the names and the
      labels paired by position. pandas refuses columns of different lengths, which
      the model reports as `None`. */
  function Table(rows: seq<string>, labels: seq<int>): (r: Option<seq<Assignment>>)
    ensures r.Some? <==> |rows| == |labels|
    ensures r.Some? ==> |r.value| == |rows|
  {
    if |rows| != |labels| then None
    else Some(seq(|rows|, i requires 0 <= i < |rows| => Assignment(rows[i], labels[i])))
  }

  /** The first position of `name` in the table, or the table's length when the name
      is absent. */
  function Find(table: seq<Assignment>, name: string): (i: nat)
    ensures i <= |table|
    ensures forall j :: 0 <= j < i ==> table[j].area != name
    ensures i < |table| ==> table[i].area == name
  {
    if |table| == 0 then 0
    else if table[0].area == name then 0
    else 1 + Find(table[1..], name)
  }

  /** The neighbourhood column of a label table. */
  function AreasOf(table: seq<Assignment>): (r: seq<string>)
    ensures |r| == |table|
    ensures forall j :: 0 <= j < |table| ==> r[j] == table[j].area
  {
    seq(|table|, j requires 0 <= j < |table| => table[j].area)
  }

  /** The label a join on the neighbourhood column gives `name`, `None` when no table
      row carries that name. */
  function LabelOf(table: seq<Assignment>, name: string): (r: Option<int>)
    ensures r.None? <==> forall j :: 0 <= j < |table| ==> table[j].area != name
    ensures r.Some? ==> exists j :: 0 <= j < |table| && table[j] == Assignment(name, r.value)
  {
    var i := Find(table, name);
    if i < |table| then Some(table[i].cluster) else None
  }

  /** In a table with one row per name, the join finds each row's own label. */
  lemma LabelOfDistinct(table: seq<Assignment>, j: nat)
    requires Seqs.Distinct(AreasOf(table)) && j < |table|
    ensures LabelOf(table, table[j].area) == Some(table[j].cluster)
  {
    var f := Find(table, table[j].area);
    assert AreasOf(table)[f] == AreasOf(table)[j] by {
      assert f <= j;
    }
  }

  /** The table built from distinct row names gives every row its own label and no
      label to any other name. */
  lemma TableLookup(rows: seq<string>, labels: seq<int>)
    requires Seqs.Distinct(rows) && |rows| == |labels|
    ensures forall i :: 0 <= i < |rows| ==> LabelOf(Table(rows, labels).value, rows[i]) == Some(labels[i])
    ensures forall name :: name !in rows ==> LabelOf(Table(rows, labels).value, name) == None
  {
    var t := Table(rows, labels).value;
    forall i | 0 <= i < |rows| ensures LabelOf(t, rows[i]) == Some(labels[i]) {
      var f := Find(t, rows[i]);
      assert t[i].area == rows[i];
      assert f == i;
    }
    forall name | name !in rows ensures LabelOf(t, name) == None {
      forall j | 0 <= j < |t| ensures t[j].area != name {
        assert t[j].area == rows[j];
      }
    }
  }

  /** Every row name of such a table has a label. */
  lemma TableCovers(rows: seq<string>, labels: seq<int>, name: string)
    requires Seqs.Distinct(rows) && |rows| == |labels| && name in rows
    ensures LabelOf(Table(rows, labels).value, name).Some?
  {
    var q :| 0 <= q < |rows| && rows[q] == name;
    TableLookup(rows, labels);
    assert LabelOf(Table(rows, labels).value, rows[q]) == Some(labels[q]);
  }

  /** The inner merge of call records with a label table on the neighbourhood column:
      each record whose neighbourhood has a label, tagged with that label, in record
      order. */
  function Join(cs: seq<Calls.Call>, table: seq<Assignment>): (r: seq<Labelled>)
    ensures |r| <= |cs|
    ensures forall i :: 0 <= i < |r| ==> LabelOf(table, r[i].call.area) == Some(r[i].cluster)
  {
    if |cs| == 0 then []
    else
      match LabelOf(table, cs[0].area)
      case None => Join(cs[1..], table)
      case Some(k) => [Labelled(cs[0], k)] + Join(cs[1..], table)
  }

  /** The call records of a labelled frame, without their labels. */
  function CallsOf(ls: seq<Labelled>): (r: seq<Calls.Call>)
    ensures |r| == |ls|
    ensures forall i :: 0 <= i < |ls| ==> r[i] == ls[i].call
  {
    seq(|ls|, i requires 0 <= i < |ls| => ls[i].call)
  }

  /** The labels of a labelled frame. */
  function LabelsOf(ls: seq<Labelled>): (r: seq<int>)
    ensures |r| == |ls|
    ensures forall i :: 0 <= i < |ls| ==> r[i] == ls[i].cluster
  {
    seq(|ls|, i requires 0 <= i < |ls| => ls[i].cluster)
  }

  predicate HasLabel(table: seq<Assignment>, c: Calls.Call) {
    LabelOf(table, c.area).Some?
  }

  /** Without its labels, the join is exactly the records whose neighbourhood occurs in
      the table, in their original order: nothing else is dropped, nothing duplicated. */
  lemma {:induction false} JoinCalls(cs: seq<Calls.Call>, table: seq<Assignment>)
    ensures CallsOf(Join(cs, table)) == Seqs.Filter((c: Calls.Call) => HasLabel(table, c), cs)
  {
    if |cs| > 0 {
      JoinCalls(cs[1..], table);
      var rest := Join(cs[1..], table);
      match LabelOf(table, cs[0].area)
      case None =>
      case Some(k) =>
        assert CallsOf([Labelled(cs[0], k)] + rest) == [cs[0]] + CallsOf(rest);
    }
  }

  /** When every record's neighbourhood has a label, the join keeps every record. */
  lemma {:induction false} JoinKeepsAll(cs: seq<Calls.Call>, table: seq<Assignment>)
    requires forall i :: 0 <= i < |cs| ==> LabelOf(table, cs[i].area).Some?
    ensures CallsOf(Join(cs, table)) == cs
  {
    if |cs| > 0 {
      JoinKeepsAll(cs[1..], table);
      var k := LabelOf(table, cs[0].area).value;
      var rest := Join(cs[1..], table);
      assert CallsOf([Labelled(cs[0], k)] + rest) == [cs[0]] + CallsOf(rest);
    }
  }
}
