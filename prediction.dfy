/**
 * The confidence meter of the `Prediction` article component: a confidence
 * percentage is banded into a colour scheme and into a word label.
 * Confidence is an integer here.
 */
module Prediction {

  /** The three class lists of a colour scheme: progress bar, label text, percentage badge. */
  datatype Colors = Colors(bar: string, text: string, badge: string)

  const Emerald := Colors(
    "bg-emerald-500 dark:bg-emerald-400",
    "text-emerald-600 dark:text-emerald-400",
    "bg-emerald-500/15 text-emerald-700 dark:bg-emerald-400/15 dark:text-emerald-300")

  const Amber := Colors(
    "bg-amber-500 dark:bg-amber-400",
    "text-amber-600 dark:text-amber-400",
    "bg-amber-500/15 text-amber-700 dark:bg-amber-400/15 dark:text-amber-300")

  const Rose := Colors(
    "bg-rose-500 dark:bg-rose-400",
    "text-rose-600 dark:text-rose-400",
    "bg-rose-500/15 text-rose-700 dark:bg-rose-400/15 dark:text-rose-300")

  /** The word shown next to the percentage. */
  datatype Label = Low | Medium | Moderate | High | VeryHigh {
    function Text(): string {
      match this
      case Low => "Low"
      case Medium => "Medium"
      case Moderate => "Moderate"
      case High => "High"
      case VeryHigh => "Very High"
    }

    /** Position of the label in the order Low < Medium < Moderate < High < Very High. */
    function Rank(): nat {
      match this
      case Low => 0
      case Medium => 1
      case Moderate => 2
      case High => 3
      case VeryHigh => 4
    }
  }

  /** Position of a colour scheme in the order rose < amber < emerald. */
  function ColorRank(c: Colors): nat {
    if c == Emerald then 2 else if c == Amber then 1 else 0
  }

  /** How many of the ascending `thresholds` the confidence reaches. */
  function Reached(confidence: int, thresholds: seq<int>): (n: nat)
    ensures n <= |thresholds|
  {
    if thresholds == [] then 0
    else (if thresholds[0] <= confidence then 1 else 0) + Reached(confidence, thresholds[1..])
  }

  /** The lower bounds of the Medium, Moderate, High and Very High labels. */
  const LabelThresholds: seq<int> := [50, 65, 75, 85]

  /** The lower bounds of the amber and emerald colour schemes. */
  const ColorThresholds: seq<int> := [65, 80]

  /** `getConfidenceColor`: the scheme's rank is the number of colour thresholds reached. */
  function ConfidenceColor(confidence: int): (c: Colors)
    ensures c == Emerald || c == Amber || c == Rose
    ensures ColorRank(c) == Reached(confidence, ColorThresholds)
  {
    if confidence >= 80 then Emerald
    else if confidence >= 65 then Amber
    else Rose
  }

  /** `getConfidenceLabel`: the label's rank is the number of label thresholds reached. */
  function ConfidenceLabel(confidence: int): (l: Label)
    ensures l.Rank() == Reached(confidence, LabelThresholds)
  {
    assert Reached(confidence, [85]) == if 85 <= confidence then 1 else 0;
    assert Reached(confidence, [75, 85]) == (if 75 <= confidence then 1 else 0) + Reached(confidence, [85]);
    assert Reached(confidence, [65, 75, 85]) == (if 65 <= confidence then 1 else 0) + Reached(confidence, [75, 85]);
    if confidence >= 85 then VeryHigh
    else if confidence >= 75 then High
    else if confidence >= 65 then Moderate
    else if confidence >= 50 then Medium
    else Low
  }

  lemma {:induction false} ReachedMonotone(c1: int, c2: int, thresholds: seq<int>)
    requires c1 <= c2
    ensures Reached(c1, thresholds) <= Reached(c2, thresholds)
  {
    if thresholds != [] {
      ReachedMonotone(c1, c2, thresholds[1..]);
    }
  }

  /** A higher confidence never gets a lower-ranked label or colour scheme. */
  lemma ConfidenceMonotone(c1: int, c2: int)
    requires c1 <= c2
    ensures ConfidenceLabel(c1).Rank() <= ConfidenceLabel(c2).Rank()
    ensures ColorRank(ConfidenceColor(c1)) <= ColorRank(ConfidenceColor(c2))
  {
    ReachedMonotone(c1, c2, LabelThresholds);
    ReachedMonotone(c1, c2, ColorThresholds);
  }

  /** Label and colour agree: Low and Medium are rose, Moderate amber, Very High emerald, High never rose. */
  lemma BandsAgree(confidence: int)
    ensures ConfidenceLabel(confidence) in {Low, Medium} <==> ConfidenceColor(confidence) == Rose
    ensures ConfidenceLabel(confidence) == Moderate ==> ConfidenceColor(confidence) == Amber
    ensures ConfidenceLabel(confidence) == High ==> ConfidenceColor(confidence) in {Amber, Emerald}
    ensures ConfidenceLabel(confidence) == VeryHigh ==> ConfidenceColor(confidence) == Emerald
  {
  }

  /** The five labels are shown as five different words. */
  lemma LabelTextsDistinct(a: Label, b: Label)
    requires a != b
    ensures a.Text() != b.Text()
  {
  }
}
