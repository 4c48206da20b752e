/** The bar chart of components/visualizations/MineralOutputChart.tsx:
    fourteen minerals' share of world output in 1913, each bar coloured by
    its share and labelled inside or beside the bar. */
module MineralOutputChart {
  datatype Color = Red | Orange | Yellow | Green

  /** The CSS colour of each band. */
  function Hex(c: Color): (r: string)
    ensures |r| == 7 && r[0] == '#'
  {
    match c
    case Red => "#dc2626"
    case Orange => "#f97316"
    case Yellow => "#eab308"
    case Green => "#22c55e"
  }

  /** `getBarColor`: at least 60 is red, at least 40 orange, at least 30
      yellow, anything else green. */
  function BarColor(percentage: real): (c: Color)
    ensures c == Red <==> percentage >= 60.0
    ensures c == Orange <==> 40.0 <= percentage < 60.0
    ensures c == Yellow <==> 30.0 <= percentage < 40.0
    ensures c == Green <==> percentage < 30.0
  {
    if percentage >= 60.0 then Red
    else if percentage >= 40.0 then Orange
    else if percentage >= 30.0 then Yellow
    else Green
  }

  /** The bands in increasing order of share. */
  function Rank(c: Color): nat
  {
    match c
    case Green => 0
    case Yellow => 1
    case Orange => 2
    case Red => 3
  }

  /** A larger share never gets a lower band. */
  lemma BarColorMonotone(p: real, q: real)
    requires p <= q
    ensures Rank(BarColor(p)) <= Rank(BarColor(q))
  {
  }

  /** Distinct bands are drawn in distinct colours. */
  lemma HexInjective(c: Color, d: Color)
    requires c != d
    ensures Hex(c) != Hex(d)
  {
  }

  /** The label inside the bar. */
  predicate InsideLabel(animated: bool, percentage: real)
  {
    animated && percentage > 15.0
  }

  /** The coloured label beside a short bar. */
  predicate OutsideLabel(animated: bool, percentage: real)
  {
    animated && percentage <= 15.0
  }

  /** Once the bars have animated in, every bar carries exactly one label;
      before that, none does. */
  lemma ExactlyOneLabel(animated: bool, percentage: real)
    ensures animated ==> (InsideLabel(animated, percentage) != OutsideLabel(animated, percentage))
    ensures !animated ==> !InsideLabel(animated, percentage) && !OutsideLabel(animated, percentage)
  {
  }

  /** The shares, in display order. */
  const Data: seq<real> := [95.0, 65.0, 56.0, 43.0, 39.0, 38.0, 37.0, 37.0, 36.0, 34.0, 30.0, 20.0, 20.0, 17.0]

  /** The data is listed from the largest share down. */
  lemma DataDescending()
    ensures forall i, j :: 0 <= i <= j < |Data| ==> Data[j] <= Data[i]
  {
    assert forall i :: 0 <= i < |Data| - 1 ==> Data[i + 1] <= Data[i];
    forall i, j | 0 <= i <= j < |Data| ensures Data[j] <= Data[i] {
      DescendingStep(i, j);
    }
  }

  lemma {:induction false} DescendingStep(i: nat, j: nat)
    requires i <= j < |Data|
    requires forall k :: 0 <= k < |Data| - 1 ==> Data[k + 1] <= Data[k]
    ensures Data[j] <= Data[i]
    decreases j - i
  {
    if i < j {
      DescendingStep(i + 1, j);
    }
  }

  /** Down the chart the colours only cool: red bars come first, green last. */
  lemma ColorsCoolDownTheChart()
    ensures forall i, j :: 0 <= i <= j < |Data| ==> Rank(BarColor(Data[j])) <= Rank(BarColor(Data[i]))
  {
    DataDescending();
    forall i, j | 0 <= i <= j < |Data| ensures Rank(BarColor(Data[j])) <= Rank(BarColor(Data[i])) {
      BarColorMonotone(Data[j], Data[i]);
    }
  }

  /** Every share in the data exceeds 15, so every label is drawn inside its
      bar and the beside-the-bar label never appears. */
  lemma AllLabelsInside()
    ensures forall i :: 0 <= i < |Data| ==> InsideLabel(true, Data[i]) && !OutsideLabel(true, Data[i])
  {
    DataDescending();
    assert Data[|Data| - 1] == 17.0;
  }
}
