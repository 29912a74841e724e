/** The line chart of the purchasing page: `lineData` rows of category, time and
    value become one dataset per category, with one entry per time label. */
module Pivot {
  import opened Wrappers

  /** One element of `lineData`. Times are kept as the strings the array sort compares. */
  datatype LinePoint = LinePoint(category: string, time: string, value: real)

  /** One element of `lineChart.datasets`, without the constant `fill` and `tension`;
      `legend` is its `label`. */
  datatype Dataset = Dataset(legend: string, data: seq<real>, borderColor: string, backgroundColor: string)

  datatype LineChart = LineChart(labels: seq<string>, datasets: seq<Dataset>)

  const Palette: seq<string> := ["#FF6384", "#36A2EB", "#FFCE56", "#4BC0C0", "#9966FF", "#FF9F40"]

  /** The alpha suffix appended to a colour for the fill. */
  const FillAlpha := "33"

  predicate NoDuplicates(xs: seq<string>)
  {
    forall i, j :: 0 <= i < j < |xs| ==> xs[i] != xs[j]
  }

  /** The index of the first occurrence of `x` in `xs`. */
  function FirstIndex(xs: seq<string>, x: string): (i: nat)
    requires x in xs
    ensures i < |xs| && xs[i] == x
    ensures forall k :: 0 <= k < i ==> xs[k] != x
  {
    if xs[0] == x then 0 else 1 + FirstIndex(xs[1..], x)
  }

  // ---------------------------------------------------------------------------
  // `[...new Set(xs)]`
  // ---------------------------------------------------------------------------

  /** The distinct elements in the order a `Set` keeps them: an element already seen is not added again. */
  function Distinct(xs: seq<string>): (r: seq<string>)
    ensures NoDuplicates(r)
    ensures forall x :: x in r <==> x in xs
    decreases |xs|
  {
    if |xs| == 0 then []
    else
      var r := Distinct(xs[..|xs| - 1]);
      var x := xs[|xs| - 1];
      assert forall y :: y in xs <==> y in xs[..|xs| - 1] || y == x by {
        assert xs == xs[..|xs| - 1] + [x];
      }
      if x in r then r else r + [x]
  }

  /** The distinct elements come in the order of their first occurrences. */
  lemma {:induction false} DistinctInFirstOccurrenceOrder(xs: seq<string>, i: nat, j: nat)
    requires i < j < |Distinct(xs)|
    ensures FirstIndex(xs, Distinct(xs)[i]) < FirstIndex(xs, Distinct(xs)[j])
    decreases |xs|
  {
    var init := xs[..|xs| - 1];
    var x := xs[|xs| - 1];
    var r := Distinct(init);
    assert xs == init + [x];
    FirstIndexPrefix(init, x, Distinct(xs)[i]);
    FirstIndexPrefix(init, x, Distinct(xs)[j]);
    if j < |r| {
      DistinctInFirstOccurrenceOrder(init, i, j);
    } else {
      // The last element is new: it first occurs at the end, after everything in `init`.
      assert Distinct(xs)[j] == x && x !in init;
      assert Distinct(xs)[i] == r[i] && r[i] in init;
    }
  }

  /** Appending an element does not move the first occurrence of anything already present. */
  lemma FirstIndexPrefix(init: seq<string>, x: string, y: string)
    requires y in init + [x]
    ensures y in init ==> FirstIndex(init + [x], y) == FirstIndex(init, y)
    ensures y !in init ==> y == x && FirstIndex(init + [x], y) == |init|
  {
    var xs := init + [x];
    assert forall k :: 0 <= k < |init| ==> xs[k] == init[k];
    var a := FirstIndex(xs, y);
    if y in init {
      var b := FirstIndex(init, y);
      assert xs[b] == y;
    } else {
      assert xs[|init|] == x;
    }
  }

  // ---------------------------------------------------------------------------
  // `.sort()` with no comparator: ascending by UTF-16 code units.
  // ---------------------------------------------------------------------------

  /** `a` sorts strictly before `b`: at the first differing position `a` has the smaller
      character, or `a` is a proper prefix of `b`. */
  predicate Before(a: string, b: string)
  {
    if |a| == 0 then |b| > 0
    else if |b| == 0 then false
    else if a[0] != b[0] then a[0] < b[0]
    else Before(a[1..], b[1..])
  }

  lemma {:induction false} BeforeIrreflexive(a: string)
    ensures !Before(a, a)
    decreases |a|
  {
    if |a| > 0 {
      BeforeIrreflexive(a[1..]);
    }
  }

  lemma {:induction false} BeforeTransitive(a: string, b: string, c: string)
    requires Before(a, b) && Before(b, c)
    ensures Before(a, c)
    decreases |a|
  {
    if |a| > 0 && a[0] == b[0] && b[0] == c[0] {
      BeforeTransitive(a[1..], b[1..], c[1..]);
    }
  }

  lemma {:induction false} BeforeTotal(a: string, b: string)
    requires a != b
    ensures Before(a, b) || Before(b, a)
    decreases |a|
  {
    if |a| > 0 && |b| > 0 && a[0] == b[0] {
      assert a == [a[0]] + a[1..] && b == [b[0]] + b[1..];
      BeforeTotal(a[1..], b[1..]);
    }
  }

  predicate StrictlySorted(xs: seq<string>)
  {
    forall i, j :: 0 <= i < j < |xs| ==> Before(xs[i], xs[j])
  }

  /** `x` placed into a strictly sorted sequence that lacks it. */
  function Insert(x: string, s: seq<string>): (r: seq<string>)
    requires StrictlySorted(s) && x !in s
    ensures StrictlySorted(r)
    ensures |r| == |s| + 1
    ensures forall y :: y in r <==> y == x || y in s
  {
    if |s| == 0 then [x]
    else if Before(x, s[0]) then
      forall j | 0 < j < |s| ensures Before(x, s[j]) {
        BeforeTransitive(x, s[0], s[j]);
      }
      [x] + s
    else
      BeforeTotal(x, s[0]);
      var t := Insert(x, s[1..]);
      assert forall y :: y in s <==> y == s[0] || y in s[1..] by {
        assert s == [s[0]] + s[1..];
      }
      forall k | 0 <= k < |t| ensures Before(s[0], t[k]) {
        assert t[k] in t;
        if t[k] != x {
          var m :| 0 <= m < |s[1..]| && s[1..][m] == t[k];
          assert s[m + 1] == t[k];
        }
      }
      [s[0]] + t
  }

  /** The sorted order of distinct strings, by insertion. */
  function Sort(s: seq<string>): (r: seq<string>)
    requires NoDuplicates(s)
    ensures StrictlySorted(r)
    ensures |r| == |s|
    ensures forall y :: y in r <==> y in s
  {
    if |s| == 0 then []
    else
      assert forall y :: y in s <==> y == s[0] || y in s[1..] by {
        assert s == [s[0]] + s[1..];
      }
      Insert(s[0], Sort(s[1..]))
  }

  /** Two strictly sorted sequences with the same elements are the same sequence, so
      the labels are determined by the set of times alone. */
  lemma {:induction false} SortedUnique(a: seq<string>, b: seq<string>)
    requires StrictlySorted(a) && StrictlySorted(b)
    requires forall y :: y in a <==> y in b
    ensures a == b
    decreases |a|
  {
    assert forall k :: 0 <= k < |a| ==> a[k] in a;
    assert forall k :: 0 <= k < |b| ==> b[k] in b;
    if |a| > 0 && |b| > 0 {
      // The first element of each is the least of all, so they coincide.
      assert a[0] in a && b[0] in b;
      if a[0] != b[0] {
        var i :| 0 <= i < |a| && a[i] == b[0];
        var j :| 0 <= j < |b| && b[j] == a[0];
        assert i > 0 && j > 0;
        BeforeTransitive(a[0], a[i], a[0]);
        BeforeIrreflexive(a[0]);
      }
      forall y ensures y in a[1..] <==> y in b[1..] {
        if y in a[1..] {
          var i :| 1 <= i < |a| && a[i] == y;
          BeforeIrreflexive(a[0]);
          assert y != a[0];
          assert y in b;
        }
        if y in b[1..] {
          var j :| 1 <= j < |b| && b[j] == y;
          BeforeIrreflexive(b[0]);
          assert y != b[0];
          assert y in a;
        }
      }
      SortedUnique(a[1..], b[1..]);
      assert a == [a[0]] + a[1..] && b == [b[0]] + b[1..];
    }
  }

  // ---------------------------------------------------------------------------
  // The pivot.
  // ---------------------------------------------------------------------------

  function CategoriesOf(points: seq<LinePoint>): (r: seq<string>)
    ensures |r| == |points|
    ensures forall i :: 0 <= i < |points| ==> r[i] == points[i].category
  {
    seq(|points|, i requires 0 <= i < |points| => points[i].category)
  }

  function TimesOf(points: seq<LinePoint>): (r: seq<string>)
    ensures |r| == |points|
    ensures forall i :: 0 <= i < |points| ==> r[i] == points[i].time
  {
    seq(|points|, i requires 0 <= i < |points| => points[i].time)
  }

  /** `categories`: the distinct categories in first-occurrence order. */
  function Categories(points: seq<LinePoint>): seq<string>
  {
    Distinct(CategoriesOf(points))
  }

  /** `times`: the distinct times, sorted. */
  function Times(points: seq<LinePoint>): seq<string>
  {
    Sort(Distinct(TimesOf(points)))
  }

  predicate Matches(p: LinePoint, category: string, time: string)
  {
    p.category == category && p.time == time
  }

  /** `lineData.find(…)`: the index of the first row for the pair. */
  function FirstMatch(points: seq<LinePoint>, category: string, time: string): (r: Option<nat>)
    ensures r.Some? ==> && r.value < |points| && Matches(points[r.value], category, time)
                        && forall k :: 0 <= k < r.value ==> !Matches(points[k], category, time)
    ensures r.None? ==> forall k :: 0 <= k < |points| ==> !Matches(points[k], category, time)
  {
    if |points| == 0 then None
    else if Matches(points[0], category, time) then Some(0)
    else
      match FirstMatch(points[1..], category, time)
      case Some(i) => Some(i + 1)
      case None => None
  }

  /** `point ? point.value : 0`. */
  function Entry(points: seq<LinePoint>, category: string, time: string): real
  {
    match FirstMatch(points, category, time)
    case Some(i) => points[i].value
    case None => 0.0
  }

  /** The colour of the dataset at `index`. */
  function Colour(index: nat): string
  {
    Palette[index % |Palette|]
  }

  function DatasetOf(points: seq<LinePoint>, times: seq<string>, category: string, index: nat): Dataset
  {
    Dataset(category,
            seq(|times|, j requires 0 <= j < |times| => Entry(points, category, times[j])),
            Colour(index), Colour(index) + FillAlpha)
  }

  /** `lineChart`. */
  function Chart(points: seq<LinePoint>): (c: LineChart)
    ensures c.labels == Times(points)
    ensures |c.datasets| == |Categories(points)|
  {
    var categories := Categories(points);
    var times := Times(points);
    LineChart(times, seq(|categories|, i requires 0 <= i < |categories| => DatasetOf(points, times, categories[i], i)))
  }

  /** The labels are every time of the data, once each, in ascending order. */
  lemma LabelsAreSortedTimes(points: seq<LinePoint>)
    ensures StrictlySorted(Chart(points).labels)
    ensures forall t :: t in Chart(points).labels <==> exists i :: 0 <= i < |points| && points[i].time == t
  {
    var ts := TimesOf(points);
    forall t ensures t in ts <==> exists i :: 0 <= i < |points| && points[i].time == t {
      if t in ts {
        var i :| 0 <= i < |ts| && ts[i] == t;
        assert points[i].time == t;
      }
    }
  }

  /** Any ascending list of exactly the data's times is the label list. */
  lemma LabelsDetermined(points: seq<LinePoint>, ts: seq<string>)
    requires StrictlySorted(ts)
    requires forall t :: t in ts <==> exists i :: 0 <= i < |points| && points[i].time == t
    ensures Chart(points).labels == ts
  {
    LabelsAreSortedTimes(points);
    SortedUnique(Chart(points).labels, ts);
  }

  /** Datasets follow the first appearance of their categories in the data, and no
      category has two. */
  lemma DatasetsInFirstOccurrenceOrder(points: seq<LinePoint>, k: nat, l: nat)
    requires k < l < |Chart(points).datasets|
    ensures Chart(points).datasets[k].legend != Chart(points).datasets[l].legend
    ensures var cs := CategoriesOf(points);
            && Chart(points).datasets[k].legend in cs && Chart(points).datasets[l].legend in cs
            && FirstIndex(cs, Chart(points).datasets[k].legend) < FirstIndex(cs, Chart(points).datasets[l].legend)
  {
    DistinctInFirstOccurrenceOrder(CategoriesOf(points), k, l);
  }

  /** One dataset per category, labelled by it, each with one entry per label and
      the palette colour of its position, cycling every six datasets. */
  lemma DatasetShape(points: seq<LinePoint>, k: nat)
    requires k < |Chart(points).datasets|
    ensures var d := Chart(points).datasets[k];
            && d.legend == Categories(points)[k]
            && |d.data| == |Chart(points).labels|
            && d.borderColor == Palette[k % 6]
            && d.backgroundColor == Palette[k % 6] + "33"
  {
  }

  /** Every row is shown: its category has a dataset, its time a label, and the entry
      there is the value of the first row with that category and time. */
  lemma EveryPointCharted(points: seq<LinePoint>, n: nat)
    requires n < |points|
    ensures var c := Chart(points);
            exists k, j :: && 0 <= k < |c.datasets| && 0 <= j < |c.labels|
                           && c.datasets[k].legend == points[n].category && c.labels[j] == points[n].time
                           && c.datasets[k].data[j] == points[FirstIndexOfPair(points, n)].value
  {
    var c := Chart(points);
    var cs := CategoriesOf(points);
    assert cs[n] == points[n].category && cs[n] in cs;
    var k :| 0 <= k < |Categories(points)| && Categories(points)[k] == points[n].category;
    LabelsAreSortedTimes(points);
    assert exists i :: 0 <= i < |points| && points[i].time == points[n].time;
    assert points[n].time in Chart(points).labels;
    var j :| 0 <= j < |c.labels| && c.labels[j] == points[n].time;
    assert c.datasets[k] == DatasetOf(points, c.labels, points[n].category, k);
    assert c.datasets[k].data[j] == Entry(points, points[n].category, points[n].time);
  }

  /** The first row with the same category and time as row `n`. */
  function FirstIndexOfPair(points: seq<LinePoint>, n: nat): (i: nat)
    requires n < |points|
    ensures i <= n && Matches(points[i], points[n].category, points[n].time)
    ensures forall k :: 0 <= k < i ==> !Matches(points[k], points[n].category, points[n].time)
  {
    FirstMatch(points, points[n].category, points[n].time).value
  }

  /** An entry that is not zero comes from a row with that category and time. */
  lemma NonZeroFromRow(points: seq<LinePoint>, k: nat, j: nat)
    requires k < |Chart(points).datasets| && j < |Chart(points).labels|
    requires Chart(points).datasets[k].data[j] != 0.0
    ensures exists n :: && 0 <= n < |points|
                        && Matches(points[n], Chart(points).datasets[k].legend, Chart(points).labels[j])
                        && points[n].value == Chart(points).datasets[k].data[j]
  {
    var c := Chart(points);
    assert c.datasets[k].data[j] == Entry(points, c.datasets[k].legend, c.labels[j]);
  }
}
