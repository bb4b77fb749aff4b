/** The data each chart adapter hands to its plotting library: the part of
    the adapters that is not rendering. */
module Charts {
  import opened Seqs
  import opened Frequency
  import Ranking

  /** Bars in the ranked bar chart (`[:20]`) and rows in the table (`most_common(20)`). */
  const TopN: nat := 20

  /** Slices of the pie chart (`[:20]`). */
  const PieSlices: nat := 20

  /** Axes of the radar chart (`[:6]`). */
  const RadarAxes: nat := 6

  /** `list(c.keys())` and `list(c.values())`: the x and y series of the line and
      scatter charts, in insertion order, each value the count of the word above it. */
  function Series(c: Counter): (r: (seq<string>, seq<nat>))
    requires c.Valid()
    ensures r.0 == c.keys
    ensures |r.1| == |r.0|
    ensures forall i :: 0 <= i < |r.1| ==> r.1[i] == c.counts[r.0[i]]
  {
    (c.keys, seq(|c.keys|, i requires 0 <= i < |c.keys| => c.counts[c.keys[i]]))
  }

  /** `words, freqs = zip(*sorted_items) if sorted_items else ([], [])` on the
      twenty highest-ranked items: the bar labels and lengths, longest first,
      each length the count of its label, label `i` and length `i` together
      being the `i`-th entry of the ranking (so labels are distinct, no item
      left out outranks a bar, and ties keep insertion order). */
  function BarData(c: Counter): (r: (seq<string>, seq<nat>))
    requires c.Valid()
    ensures |r.0| == |r.1| == Min(TopN, |c.keys|)
    ensures forall i :: 0 <= i < |r.0| ==> r.0[i] in c.counts && r.1[i] == c.counts[r.0[i]]
    ensures forall i, j :: 0 <= i < j < |r.1| ==> r.1[i] >= r.1[j]
    ensures |r.0| == |Ranking.MostCommon(c, TopN)|
    ensures forall i :: 0 <= i < |r.0| ==> (r.0[i], r.1[i]) == Ranking.MostCommon(c, TopN)[i]
  {
    var top := Ranking.MostCommon(c, TopN);
    (seq(|top|, i requires 0 <= i < |top| => top[i].0), seq(|top|, i requires 0 <= i < |top| => top[i].1))
  }

  /** `list(c.items())[:20]`: the first twenty items by position. */
  function PieData(c: Counter): (r: seq<Entry>)
    requires c.Valid()
    ensures |r| == Min(PieSlices, |c.keys|)
    ensures r <= c.Items()
  {
    c.Items()[..Min(PieSlices, |c.keys|)]
  }

  /** The pie truncates by position, not by count: when the twenty-first item
      has the single largest count, it heads the ranking but is not in the pie. */
  lemma PieIgnoresRank(c: Counter)
    requires c.Valid() && |c.keys| > PieSlices
    requires forall w :: w in c.counts && w != c.keys[PieSlices] ==> c.counts[w] < c.counts[c.keys[PieSlices]]
    ensures (c.keys[PieSlices], c.counts[c.keys[PieSlices]]) !in PieData(c)
    ensures Ranking.MostCommon(c, PieSlices)[0] == (c.keys[PieSlices], c.counts[c.keys[PieSlices]])
  {}

  /** One radar axis: its label and the top of its scale. */
  datatype Indicator = Indicator(name: string, max: nat)

  /** The radar's schema and its single series of values. */
  datatype RadarData = RadarData(schema: seq<Indicator>, values: seq<nat>)

  /** The largest count among the words `ks`. */
  function MaxOf(ks: seq<string>, m: map<string, nat>): (r: nat)
    requires |ks| > 0
    requires forall i :: 0 <= i < |ks| ==> ks[i] in m
    ensures forall i :: 0 <= i < |ks| ==> m[ks[i]] <= r
    ensures exists i :: 0 <= i < |ks| && m[ks[i]] == r
  {
    if |ks| == 1 then m[ks[0]]
    else
      var rest := MaxOf(ks[1..], m);
      assert forall i :: 1 <= i < |ks| ==> ks[i] == ks[1..][i - 1];
      if m[ks[0]] >= rest then m[ks[0]] else rest
  }

  /** `max(c.values())`: a count of the counter that no count exceeds. */
  function MaxCount(c: Counter): (m: nat)
    requires c.Valid() && |c.keys| > 0
    ensures forall w :: w in c.counts ==> c.counts[w] <= m
    ensures exists w :: w in c.counts && c.counts[w] == m
  {
    var m := MaxOf(c.keys, c.counts);
    MaxOfKeys(c, m);
    m
  }

  lemma MaxOfKeys(c: Counter, m: nat)
    requires c.Valid() && |c.keys| > 0
    requires forall i :: 0 <= i < |c.keys| ==> c.counts[c.keys[i]] <= m
    requires exists i :: 0 <= i < |c.keys| && c.counts[c.keys[i]] == m
    ensures forall w :: w in c.counts ==> c.counts[w] <= m
    ensures exists w :: w in c.counts && c.counts[w] == m
  {
    forall w | w in c.counts ensures c.counts[w] <= m {
      var i := FirstIndex(c.keys, w);
    }
    var i :| 0 <= i < |c.keys| && c.counts[c.keys[i]] == m;
    assert c.keys[i] in c.counts;
  }

  /** `plot_radar_with_pyecharts` before rendering: no chart for an empty counter;
      otherwise one axis for each of the first six items in insertion order
      (`list(c.items())[:6]`), every
      axis scaled to the largest count of the WHOLE counter, so each plotted value
      lies within its axis. */
  function RadarChart(c: Counter): (r: Option<RadarData>)
    requires c.Valid()
    ensures r.None? <==> |c.keys| == 0
    ensures r.Some? ==>
      && |r.value.schema| == |r.value.values| == Min(RadarAxes, |c.keys|)
      && (forall i :: 0 <= i < |r.value.schema| ==>
            && r.value.schema[i].name == c.keys[i]
            && r.value.values[i] == c.counts[c.keys[i]]
            && r.value.values[i] <= r.value.schema[i].max
            && (forall w :: w in c.counts ==> c.counts[w] <= r.value.schema[i].max)
            && (exists w :: w in c.counts && c.counts[w] == r.value.schema[i].max))
  {
    var k := Min(RadarAxes, |c.keys|);
    if k == 0 then None
    else
      var m := MaxCount(c);
      var schema := seq(k, i requires 0 <= i < k => Indicator(c.keys[i], m));
      var values := seq(k, i requires 0 <= i < k => c.counts[c.keys[i]]);
      Some(RadarData(schema, values))
  }

  /** One heat-map cell: column, row and intensity. */
  datatype Cell = Cell(x: nat, y: nat, value: nat)

  /** The heat map's column labels and its cells. */
  datatype HeatMapData = HeatMapData(xAxis: seq<string>, cells: seq<Cell>)

  /** `[(i, 0, freq) for i, (word, freq) in enumerate(c.items())]` with the keys as
      x axis: one cell per word, all in row 0, the cell in column `i` carrying
      the count of the word labelling column `i`. */
  function HeatMap(c: Counter): (r: HeatMapData)
    requires c.Valid()
    ensures r.xAxis == c.keys
    ensures |r.cells| == |r.xAxis|
    ensures forall i :: 0 <= i < |r.cells| ==>
      r.cells[i].x == i && r.cells[i].y == 0 && r.cells[i].value == c.counts[r.xAxis[i]]
  {
    var items := c.Items();
    HeatMapData(c.keys, seq(|items|, i requires 0 <= i < |items| => Cell(i, 0, items[i].1)))
  }
}
