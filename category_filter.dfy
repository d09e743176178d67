/** The category filter of the donut and stacked-bar slide (initSlide0 in
    slides_logic.js; the same code is initCharts in interactive_slide_part_1.js).
    Legend clicks toggle workout types in a set of disabled types; every redraw
    derives from that set the pie segments, their percentages, the stack keys
    and the top of the bar chart's y-domain. */
module CategoryFilter {
  import opened Options
  import opened JsNumber
  import opened YearlyRecords
  import opened Filters

  /** One row of the breakdown table: a workout type and its count. */
  datatype PieRow = PieRow(category: string, value: Num)

  // ----- the disabled set -----

  /** A legend click: remove the type if it is disabled, add it otherwise. */
  function Toggled(disabled: set<string>, key: string): (r: set<string>)
    ensures key in r <==> key !in disabled
    ensures forall k :: k != key ==> (k in r <==> k in disabled)
  {
    if key in disabled then disabled - {key} else disabled + {key}
  }

  /** Two clicks on the same legend item restore the set. */
  lemma ToggleTwice(disabled: set<string>, key: string)
    ensures Toggled(Toggled(disabled, key), key) == disabled
  {
  }

  /** Clicks on different items commute. */
  lemma ToggleCommutes(disabled: set<string>, a: string, b: string)
    ensures Toggled(Toggled(disabled, a), b) == Toggled(Toggled(disabled, b), a)
  {
  }

  // ----- the order-preserving filter -----

  /** `x => !disabled.has(key(x))`. */
  function IsEnabled<T>(keyOf: T -> string, disabled: set<string>): T -> bool
  {
    x => keyOf(x) !in disabled
  }

  /** `s.filter(x => !disabled.has(key(x)))`. */
  function Enabled<T(!new)>(s: seq<T>, keyOf: T -> string, disabled: set<string>): (r: seq<T>)
    ensures |r| <= |s|
    ensures forall x :: x in r <==> x in s && keyOf(x) !in disabled
  {
    Filter(s, IsEnabled(keyOf, disabled))
  }

  function CategoryOf(row: PieRow): string { row.category }

  function KeyOf(key: string): string { key }

  /** `pieDataRaw.filter(d => !disabledTypes.has(d.label))`. */
  function FilteredPie(rows: seq<PieRow>, disabled: set<string>): seq<PieRow>
  {
    Enabled(rows, CategoryOf, disabled)
  }

  /** `keys.filter(k => !disabledTypes.has(k))`. */
  function FilteredKeys(keys: seq<string>, disabled: set<string>): seq<string>
  {
    Enabled(keys, KeyOf, disabled)
  }

  /** `barCSV.columns.slice(1)`: every column after the first. */
  function KeysOf(columns: seq<string>): (keys: seq<string>)
    ensures columns != [] ==> columns == [columns[0]] + keys
    ensures columns == [] ==> keys == []
  {
    if columns == [] then [] else columns[1..]
  }

  /** The drawn segments are exactly the enabled rows, each as often as in the
      table, and the table's order survives: filtering a table made of two
      parts filters each part in place. */
  lemma FilteredPieExact(rows: seq<PieRow>, more: seq<PieRow>, disabled: set<string>, x: PieRow)
    ensures x in FilteredPie(rows, disabled) <==> x in rows && x.category !in disabled
    ensures multiset(FilteredPie(rows, disabled))[x] == if x.category in disabled then 0 else multiset(rows)[x]
    ensures FilteredPie(rows + more, disabled) == FilteredPie(rows, disabled) + FilteredPie(more, disabled)
  {
    FilterCount(rows, IsEnabled(CategoryOf, disabled), x);
    FilterConcat(rows, more, IsEnabled(CategoryOf, disabled));
  }

  /** The stack keys are the columns after the first minus the disabled ones,
      in column order: filtering keys made of two parts filters each part in
      place. */
  lemma FilteredKeysExact(columns: seq<string>, more: seq<string>, disabled: set<string>, k: string)
    ensures k in FilteredKeys(KeysOf(columns), disabled) <==> |columns| > 1 && k in columns[1..] && k !in disabled
    ensures FilteredKeys(KeysOf(columns) + more, disabled) == FilteredKeys(KeysOf(columns), disabled) + FilteredKeys(more, disabled)
  {
    FilterConcat(KeysOf(columns), more, IsEnabled(KeyOf, disabled));
  }

  /** Re-enabling a key never reorders the others: the key list with more keys
      disabled is the key list with fewer disabled, with entries deleted. */
  lemma ReenableKeepsOrder(keys: seq<string>, fewer: set<string>, more: set<string>)
    requires fewer <= more
    ensures FilteredKeys(keys, more) == Enabled(FilteredKeys(keys, fewer), KeyOf, more)
  {
    FilterTwice(keys, IsEnabled(KeyOf, fewer), IsEnabled(KeyOf, more), IsEnabled(KeyOf, more));
  }

  // ----- percentages -----

  function Values(rows: seq<PieRow>): (v: seq<Num>)
    ensures |v| == |rows|
  {
    if rows == [] then [] else [rows[0].value] + Values(rows[1..])
  }

  /** `d3.sum(filteredPie, d => d.value)`: the denominator of every percentage. */
  function Total(rows: seq<PieRow>): real
  {
    Sum(Values(rows))
  }

  /** `d.data.value / total * 100` before formatting; not finite for a NaN
      count or a zero total. */
  function Percent(row: PieRow, total: real): (p: Num)
    ensures p.Finite? <==> row.value.Finite? && total != 0.0
    ensures p.Finite? ==> p.value * total == row.value.value * 100.0
  {
    if row.value.Finite? && total != 0.0 then Finite(row.value.value / total * 100.0) else NonFinite
  }

  function PercentsOver(rows: seq<PieRow>, total: real): (ps: seq<Num>)
    ensures |ps| == |rows|
  {
    if rows == [] then [] else [Percent(rows[0], total)] + PercentsOver(rows[1..], total)
  }

  /** The tooltip percentage of every drawn segment, in drawing order; the
      total is taken over the drawn segments only. */
  function SegmentPercents(segments: seq<PieRow>): seq<Num>
  {
    PercentsOver(segments, Total(segments))
  }

  lemma {:induction false} TotalUnfold(rows: seq<PieRow>)
    requires rows != []
    ensures Total(rows) == (if rows[0].value.Finite? then rows[0].value.value else 0.0) + Total(rows[1..])
  {
    assert Values(rows)[1..] == Values(rows[1..]);
  }

  lemma {:induction false} SumPercentsOver(rows: seq<PieRow>, total: real)
    requires total != 0.0
    ensures Sum(PercentsOver(rows, total)) == Total(rows) / total * 100.0
  {
    if rows != [] {
      var ps := PercentsOver(rows, total);
      assert ps[1..] == PercentsOver(rows[1..], total);
      SumPercentsOver(rows[1..], total);
      var v := if rows[0].value.Finite? then rows[0].value.value else 0.0;
      var t := Total(rows[1..]);
      assert (if ps[0].Finite? then ps[0].value else 0.0) == v / total * 100.0;
      assert Sum(ps) == v / total * 100.0 + t / total * 100.0;
      TotalUnfold(rows);
      ScaleAdd(v, t, total);
    }
  }

  lemma ScaleAdd(v: real, t: real, total: real)
    requires total != 0.0
    ensures v / total * 100.0 + t / total * 100.0 == (v + t) / total * 100.0
  {
  }

  /** With a non-zero total, the percentages of the drawn segments add up to 100. */
  lemma PercentsSumTo100(rows: seq<PieRow>, disabled: set<string>)
    requires Total(FilteredPie(rows, disabled)) != 0.0
    ensures Sum(SegmentPercents(FilteredPie(rows, disabled))) == 100.0
  {
    var f := FilteredPie(rows, disabled);
    SumPercentsOver(f, Total(f));
    WholeIsHundred(Total(f));
  }

  lemma WholeIsHundred(total: real)
    requires total != 0.0
    ensures total / total * 100.0 == 100.0
  {
  }

  /** The sum of the counts of the rows with one category. */
  function LabelTotal(rows: seq<PieRow>, key: string): real
  {
    if rows == [] then 0.0
    else (if rows[0].category == key && rows[0].value.Finite? then rows[0].value.value else 0.0) + LabelTotal(rows[1..], key)
  }

  /** Disabling a type takes exactly its own counts out of the denominator. */
  lemma {:induction false} DisablingLowersTotal(rows: seq<PieRow>, disabled: set<string>, key: string)
    requires key !in disabled
    ensures Total(FilteredPie(rows, disabled)) == Total(FilteredPie(rows, disabled + {key})) + LabelTotal(rows, key)
  {
    if rows != [] {
      var head := if rows[0].category in disabled then [] else [rows[0]];
      var head' := if rows[0].category in disabled + {key} then [] else [rows[0]];
      assert FilteredPie(rows, disabled) == head + FilteredPie(rows[1..], disabled);
      assert FilteredPie(rows, disabled + {key}) == head' + FilteredPie(rows[1..], disabled + {key});
      assert Values(head + FilteredPie(rows[1..], disabled)) == Values(head) + Values(FilteredPie(rows[1..], disabled)) by {
        ValuesConcat(head, FilteredPie(rows[1..], disabled));
      }
      assert Values(head' + FilteredPie(rows[1..], disabled + {key})) == Values(head') + Values(FilteredPie(rows[1..], disabled + {key})) by {
        ValuesConcat(head', FilteredPie(rows[1..], disabled + {key}));
      }
      SumConcat(Values(head), Values(FilteredPie(rows[1..], disabled)));
      SumConcat(Values(head'), Values(FilteredPie(rows[1..], disabled + {key})));
      DisablingLowersTotal(rows[1..], disabled, key);
    }
  }

  lemma {:induction false} ValuesConcat(a: seq<PieRow>, b: seq<PieRow>)
    ensures Values(a + b) == Values(a) + Values(b)
  {
    if a == [] {
      assert a + b == b;
    } else {
      assert (a + b)[0] == a[0] && (a + b)[1..] == a[1..] + b;
      ValuesConcat(a[1..], b);
    }
  }

  // ----- the y-domain of the stacked bars -----

  lemma FilteredKeysUnfold(keys: seq<string>, disabled: set<string>)
    requires keys != []
    ensures FilteredKeys(keys, disabled) == (if keys[0] in disabled then [] else [keys[0]]) + FilteredKeys(keys[1..], disabled)
  {
  }

  lemma RowSumCons(d: Record, key: string, rest: seq<string>)
    ensures RowSum(d, [key] + rest) == Contribution(d, key) + RowSum(d, rest)
  {
    RowSumUnfold(d, [key] + rest);
    assert ([key] + rest)[1..] == rest;
  }

  lemma CountCons(keys: seq<string>, key: string)
    requires keys != []
    ensures multiset(keys)[key] == (if keys[0] == key then 1 else 0) + multiset(keys[1..])[key]
  {
    assert keys == [keys[0]] + keys[1..];
  }

  /** `n` copies of `c` added up, i.e. n * c, kept linear for the solver. */
  function Times(n: nat, c: real): real
  {
    if n == 0 then 0.0 else c + Times(n - 1, c)
  }

  /** Disabling a key lowers every year's stack by that key's value, once for
      each time the key is listed. */
  lemma {:induction false} DisablingLowersRowSum(d: Record, keys: seq<string>, disabled: set<string>, key: string)
    requires key !in disabled
    ensures RowSum(d, FilteredKeys(keys, disabled))
         == RowSum(d, FilteredKeys(keys, disabled + {key})) + Times(multiset(keys)[key], Contribution(d, key))
  {
    if keys != [] {
      var rest := FilteredKeys(keys[1..], disabled);
      var rest' := FilteredKeys(keys[1..], disabled + {key});
      var c := Contribution(d, key);
      var m := multiset(keys[1..])[key];
      var mc := Times(m, c);
      CountCons(keys, key);
      FilteredKeysUnfold(keys, disabled);
      FilteredKeysUnfold(keys, disabled + {key});
      DisablingLowersRowSum(d, keys[1..], disabled, key);
      assert RowSum(d, rest) == RowSum(d, rest') + mc;
      if keys[0] in disabled {
        assert [] + rest == rest && [] + rest' == rest';
        assert multiset(keys)[key] == m;
      } else if keys[0] == key {
        assert [] + rest' == rest';
        RowSumCons(d, key, rest);
        assert multiset(keys)[key] == m + 1;
      } else {
        RowSumCons(d, keys[0], rest);
        RowSumCons(d, keys[0], rest');
        assert multiset(keys)[key] == m;
      }
    }
  }

  /** Disabled keys contribute nothing to the top of the y-domain: records
      that agree on every enabled key give the same maximum. */
  lemma YMaxIgnoresDisabled(r1: seq<Record>, r2: seq<Record>, keys: seq<string>, disabled: set<string>)
    requires |r1| == |r2|
    requires forall i, k :: 0 <= i < |r1| && k in keys && k !in disabled ==> Contribution(r1[i], k) == Contribution(r2[i], k)
    ensures YMax(r1, FilteredKeys(keys, disabled)) == YMax(r2, FilteredKeys(keys, disabled))
  {
    var ks := FilteredKeys(keys, disabled);
    forall i | 0 <= i < |r1|
      ensures RowSum(r1[i], ks) == RowSum(r2[i], ks)
    {
      RowSumAgree(r1[i], r2[i], ks);
    }
    YMaxPointwise(r1, r2, ks);
  }

  // ----- one redraw -----

  /** What `updateCharts` draws, without the geometry: the pie segments, the
      percentage each shows, the stack keys, and the top of the y-domain before
      d3 rounds it. */
  datatype Scene = Scene(segments: seq<PieRow>, percents: seq<Num>, stackKeys: seq<string>, yTop: Option<real>)

  function Render(pie: seq<PieRow>, records: seq<Record>, keys: seq<string>, disabled: set<string>): (s: Scene)
    ensures |s.percents| == |s.segments|
    ensures forall x :: x in s.segments <==> x in pie && x.category !in disabled
    ensures forall k :: k in s.stackKeys <==> k in keys && k !in disabled
    ensures s.yTop.None? <==> records == []
    ensures s.yTop.Some? ==> forall i :: 0 <= i < |records| ==> RowSum(records[i], s.stackKeys) <= s.yTop.value
  {
    var segments := FilteredPie(pie, disabled);
    var stackKeys := FilteredKeys(keys, disabled);
    Scene(segments, SegmentPercents(segments), stackKeys, YMax(records, stackKeys))
  }

  /** Two clicks on the same legend item redraw the same scene. */
  lemma ClickTwiceRedrawsSame(pie: seq<PieRow>, records: seq<Record>, keys: seq<string>, disabled: set<string>, key: string)
    ensures Render(pie, records, keys, Toggled(Toggled(disabled, key), key)) == Render(pie, records, keys, disabled)
  {
    ToggleTwice(disabled, key);
  }

  /** An empty breakdown table draws no segments. */
  lemma EmptyTableDrawsNothing(records: seq<Record>, keys: seq<string>, disabled: set<string>)
    ensures Render([], records, keys, disabled).segments == []
    ensures Render([], records, keys, disabled).percents == []
  {
  }

  /** Walking 120 and Running 80 show 60% and 40%; with Walking disabled,
      Running alone shows 100%. */
  lemma WalkingRunningExample()
    ensures SegmentPercents(FilteredPie([PieRow("Walking", Finite(120.0)), PieRow("Running", Finite(80.0))], {}))
         == [Finite(60.0), Finite(40.0)]
    ensures FilteredPie([PieRow("Walking", Finite(120.0)), PieRow("Running", Finite(80.0))], {"Walking"})
         == [PieRow("Running", Finite(80.0))]
    ensures SegmentPercents([PieRow("Running", Finite(80.0))]) == [Finite(100.0)]
  {
    var rows := [PieRow("Walking", Finite(120.0)), PieRow("Running", Finite(80.0))];
    assert FilteredPie(rows, {}) == rows;
    assert Total(rows) == 200.0 by {
      TotalUnfold(rows);
      TotalUnfold(rows[1..]);
    }
    assert "Walking" != "Running";
    assert Total([PieRow("Running", Finite(80.0))]) == 80.0 by {
      TotalUnfold([PieRow("Running", Finite(80.0))]);
    }
  }

  // ----- the slide's state -----

  /** The state behind the legend: the loaded tables, the stack keys, and the
      disabled set that the legend's click handlers change. */
  class Legend {
    const pie: seq<PieRow>
    const records: seq<Record>
    const keys: seq<string>
    var disabled: set<string>

    /** Only legend items can be clicked, and there is one per key. */
    ghost predicate Valid()
      reads this
    {
      forall k :: k in disabled ==> k in keys
    }

    /** Loading: convert the yearly records, take the keys from the header,
        start with nothing disabled. */
    constructor (pie: seq<PieRow>, csv: seq<Record>, columns: seq<string>)
      ensures Valid() && disabled == {}
      ensures this.pie == pie && keys == KeysOf(columns)
      ensures |records| == |csv| && forall i :: 0 <= i < |csv| ==> IsConversionOf(records[i], csv[i])
    {
      this.pie := pie;
      var converted := ConvertRecords(csv);
      records := converted;
      keys := KeysOf(columns);
      disabled := {};
    }

    /** The click handler of the legend item for `key`. */
    method Click(key: string)
      requires Valid() && key in keys
      modifies this
      ensures Valid()
      ensures disabled == Toggled(old(disabled), key)
    {
      if key in disabled {
        disabled := disabled - {key};
      } else {
        disabled := disabled + {key};
      }
    }

    /** What the next `updateCharts` draws. */
    function View(): Scene
      reads this
    {
      Render(pie, records, keys, disabled)
    }
  }
}
