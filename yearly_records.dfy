/** The yearly-summary records behind the stacked-bar chart (initSlide0 in
    slides_logic.js, initCharts in interactive_slide_part_1.js): the loop that
    turns every field but `year` into a number, and the upper bound of the
    chart's y-domain. */
module YearlyRecords {
  import opened Options
  import opened JsNumber

  /** One property of a parsed CSV record: text as d3.csv delivers it, a number
      once converted, or `undefined`, which is what reading a missing property
      yields (and what `d.year = d.year` stores when there is no year column). */
  datatype Field = Text(text: string) | Number(num: Num) | Undefined

  /** A CSV record: column name to field. */
  type Record = map<string, Field>

  /** Reading a property: a missing one is undefined. */
  function Read(d: Record, k: string): Field
  {
    if k in d then d[k] else Undefined
  }

  /** Unary plus on a field: text is parsed, a number stays as it is,
      undefined is NaN. */
  function Plus(f: Field): Num
  {
    match f
    case Text(s) => ToNumber(s)
    case Number(n) => n
    case Undefined => NonFinite
  }

  /** What the conversion loop leaves in a record: the same columns plus `year`,
      `year` as it was, and every other field replaced by its numeric value. */
  ghost predicate IsConversionOf(r: Record, d: Record)
  {
    && r.Keys == d.Keys + {"year"}
    && r["year"] == Read(d, "year")
    && forall k :: k in d && k != "year" ==> r[k] == Number(Plus(d[k]))
  }

  /** The body of `barCSV.map(d => { d.year = d.year; for (key in d) ... })`
      for one record: every property other than `year` is overwritten with
      its numeric value, one at a time. */
  method ConvertRecord(d: Record) returns (r: Record)
    ensures IsConversionOf(r, d)
  {
    r := d["year" := Read(d, "year")];
    var todo := r.Keys;
    while todo != {}
      invariant todo <= r.Keys == d.Keys + {"year"}
      invariant r["year"] == Read(d, "year")
      invariant forall k :: k in d && k != "year" && k !in todo ==> r[k] == Number(Plus(d[k]))
      invariant forall k :: k in todo && k != "year" ==> r[k] == d[k]
      decreases todo
    {
      var k :| k in todo;
      if k != "year" {
        r := r[k := Number(Plus(r[k]))];
      }
      todo := todo - {k};
    }
  }

  /** `stackedDataRaw = barCSV.map(...)`: every record converted, none added,
      dropped or reordered. */
  method ConvertRecords(csv: seq<Record>) returns (rows: seq<Record>)
    ensures |rows| == |csv|
    ensures forall i :: 0 <= i < |csv| ==> IsConversionOf(rows[i], csv[i])
  {
    rows := [];
    var i := 0;
    while i < |csv|
      invariant i <= |csv| && |rows| == i
      invariant forall j :: 0 <= j < i ==> IsConversionOf(rows[j], csv[j])
    {
      var r := ConvertRecord(csv[i]);
      rows := rows + [r];
      i := i + 1;
    }
  }

  /** Converting an already converted record changes nothing. */
  lemma ConversionIsIdempotent(d: Record, r: Record, r2: Record)
    requires IsConversionOf(r, d) && IsConversionOf(r2, r)
    ensures r2 == r
  {
    forall k | k in r
      ensures r2[k] == r[k]
    {
      if k != "year" {
        assert k in d;
      }
    }
  }

  /** `k => +d[k]` over a list of keys. */
  function Column(d: Record, keys: seq<string>): (c: seq<Num>)
    ensures |c| == |keys|
  {
    if keys == [] then [] else [Plus(Read(d, keys[0]))] + Column(d, keys[1..])
  }

  /** `d3.sum(keys, k => +d[k])`: the height of one year's stack. */
  function RowSum(d: Record, keys: seq<string>): real
  {
    Sum(Column(d, keys))
  }

  /** The finite value of a field, or 0 where d3.sum skips it. */
  function Contribution(d: Record, k: string): real
  {
    var n := Plus(Read(d, k));
    if n.Finite? then n.value else 0.0
  }

  lemma {:induction false} RowSumUnfold(d: Record, keys: seq<string>)
    requires keys != []
    ensures RowSum(d, keys) == Contribution(d, keys[0]) + RowSum(d, keys[1..])
  {
    assert Column(d, keys)[1..] == Column(d, keys[1..]);
  }

  /** Two records that agree on every listed key give stacks of the same height. */
  lemma {:induction false} RowSumAgree(d1: Record, d2: Record, keys: seq<string>)
    requires forall k :: k in keys ==> Contribution(d1, k) == Contribution(d2, k)
    ensures RowSum(d1, keys) == RowSum(d2, keys)
  {
    if keys != [] {
      RowSumUnfold(d1, keys);
      RowSumUnfold(d2, keys);
      RowSumAgree(d1, d2, keys[1..]);
    }
  }

  /** `d3.max(stackedDataRaw, d => d3.sum(keys, k => +d[k]))`: the tallest
      stack, undefined when there are no records. */
  function YMax(records: seq<Record>, keys: seq<string>): (m: Option<real>)
    ensures m.None? <==> records == []
    ensures m.Some? ==> forall i :: 0 <= i < |records| ==> RowSum(records[i], keys) <= m.value
    ensures m.Some? ==> exists i :: 0 <= i < |records| && RowSum(records[i], keys) == m.value
  {
    if records == [] then None
    else
      var s := RowSum(records[0], keys);
      match YMax(records[1..], keys)
      case None => Some(s)
      case Some(t) =>
        var m := if s >= t then s else t;
        assert forall i :: 1 <= i < |records| ==> RowSum(records[i], keys) == RowSum(records[1..][i - 1], keys);
        assert exists i :: 0 <= i < |records| && RowSum(records[i], keys) == m;
        Some(m)
  }

  /** The tallest stack depends only on the stacks' heights. */
  lemma {:induction false} YMaxPointwise(r1: seq<Record>, r2: seq<Record>, keys: seq<string>)
    requires |r1| == |r2|
    requires forall i :: 0 <= i < |r1| ==> RowSum(r1[i], keys) == RowSum(r2[i], keys)
    ensures YMax(r1, keys) == YMax(r2, keys)
  {
    if r1 != [] {
      assert forall i :: 0 <= i < |r1| - 1 ==> RowSum(r1[1..][i], keys) == RowSum(r2[1..][i], keys) by {
        forall i | 0 <= i < |r1| - 1 ensures RowSum(r1[1..][i], keys) == RowSum(r2[1..][i], keys) {
          assert r1[1..][i] == r1[i + 1] && r2[1..][i] == r2[i + 1];
        }
      }
      YMaxPointwise(r1[1..], r2[1..], keys);
    }
  }
}
