/**
 * A three-line, position-aligned comparison of a target string and a
 * predicted one (`visualize_mismatch` in new_scripts_5_10/utils.py): the
 * target, the prediction, and a line of carets under every position where
 * the two differ. Past the end of the shorter string the target reads as
 * '-' and the prediction as '+'.
 */
module Mismatch {

  import opened Arith
  import opened Text

  /** The three labels, each eleven characters wide so the columns line up. */
  const TargetLabel: string := "TARGET:    "
  const PredictedLabel: string := "PREDICTED: "
  const PointerIndent: string := "           "

  const TargetFiller: char := '-'
  const PredictedFiller: char := '+'

  /** Character i of `s`, or `filler` past its end. */
  function CharOr(s: string, i: nat, filler: char): char
  {
    if i < |s| then s[i] else filler
  }

  /** The caret column for position i: '^' where the padded characters differ, ' ' where they agree. */
  function Marker(target: string, predicted: string, i: nat): char
  {
    if CharOr(target, i, TargetFiller) != CharOr(predicted, i, PredictedFiller) then '^' else ' '
  }

  /** The first n characters of the prediction padded with '+'. */
  function PredictedRow(predicted: string, n: nat): string
  {
    if n == 0 then "" else PredictedRow(predicted, n - 1) + [CharOr(predicted, n - 1, PredictedFiller)]
  }

  /** The first n caret columns. */
  function PointerRow(target: string, predicted: string, n: nat): string
  {
    if n == 0 then "" else PointerRow(target, predicted, n - 1) + [Marker(target, predicted, n - 1)]
  }

  /** The number of columns compared: the longer of the two lengths. */
  function Width(target: string, predicted: string): nat
  {
    Max(|target|, |predicted|)
  }

  /** The three lines the display is made of. */
  function Lines(target: string, predicted: string): seq<string>
  {
    [TargetLabel + target,
     PredictedLabel + PredictedRow(predicted, Width(target, predicted)),
     PointerIndent + PointerRow(target, predicted, Width(target, predicted))]
  }

  /** `visualize_mismatch`: grows the prediction and caret lines one column at a time, then joins the three lines. */
  method VisualizeMismatch(target: string, predicted: string) returns (r: string)
    ensures r == JoinLines(Lines(target, predicted))
  {
    var outputLines := [TargetLabel + target];
    var mismatchLine := PredictedLabel;
    var pointerLine := PointerIndent;
    var maxLen := Max(|target|, |predicted|);
    for i := 0 to maxLen
      invariant mismatchLine == PredictedLabel + PredictedRow(predicted, i)
      invariant pointerLine == PointerIndent + PointerRow(target, predicted, i)
    {
      var tChar := if i < |target| then target[i] else TargetFiller;
      var pChar := if i < |predicted| then predicted[i] else PredictedFiller;
      mismatchLine := mismatchLine + [pChar];
      if tChar != pChar {
        pointerLine := pointerLine + "^";
      } else {
        pointerLine := pointerLine + " ";
      }
    }
    outputLines := outputLines + [mismatchLine];
    outputLines := outputLines + [pointerLine];
    assert outputLines == Lines(target, predicted);
    r := JoinLines(outputLines);
  }

  /** The prediction row has n columns, column i holding the prediction's character or the filler. */
  lemma {:induction false} PredictedRowAt(predicted: string, n: nat)
    ensures |PredictedRow(predicted, n)| == n
    ensures forall i :: 0 <= i < n ==> PredictedRow(predicted, n)[i] == CharOr(predicted, i, PredictedFiller)
  {
    if n > 0 {
      PredictedRowAt(predicted, n - 1);
    }
  }

  /** The caret row has n columns, column i holding the marker for position i. */
  lemma {:induction false} PointerRowAt(target: string, predicted: string, n: nat)
    ensures |PointerRow(target, predicted, n)| == n
    ensures forall i :: 0 <= i < n ==> PointerRow(target, predicted, n)[i] == Marker(target, predicted, i)
  {
    if n > 0 {
      PointerRowAt(target, predicted, n - 1);
    }
  }

  /**
   * The display: exactly three lines; the first is the labelled target; the
   * other two are 11 + Width characters long, with the prediction (or '+')
   * and the caret column for position i at column 11 + i.
   */
  lemma DisplayShape(target: string, predicted: string)
    ensures |Lines(target, predicted)| == 3 && Lines(target, predicted)[0] == TargetLabel + target
    ensures |Lines(target, predicted)[1]| == |Lines(target, predicted)[2]| == 11 + Width(target, predicted)
    ensures forall i :: 0 <= i < Width(target, predicted) ==>
              Lines(target, predicted)[1][11 + i] == CharOr(predicted, i, PredictedFiller) &&
              (Lines(target, predicted)[2][11 + i] == '^' <==>
                 CharOr(target, i, TargetFiller) != CharOr(predicted, i, PredictedFiller)) &&
              (Lines(target, predicted)[2][11 + i] == ' ' <==>
                 CharOr(target, i, TargetFiller) == CharOr(predicted, i, PredictedFiller))
  {
    PredictedRowAt(predicted, Width(target, predicted));
    PointerRowAt(target, predicted, Width(target, predicted));
  }

  /** When neither string holds a newline, the joined display splits back into its three lines. */
  lemma DisplaySplitsBack(target: string, predicted: string)
    requires '\n' !in target && '\n' !in predicted
    ensures SplitLines(JoinLines(Lines(target, predicted))) == Lines(target, predicted)
  {
    var w := Width(target, predicted);
    var lines := Lines(target, predicted);
    PredictedRowAt(predicted, w);
    PointerRowAt(target, predicted, w);
    forall j | 0 <= j < 3
      ensures '\n' !in lines[j]
    {
      if j == 1 {
        forall c | c in lines[1] ensures c != '\n' {
          var k :| 0 <= k < |lines[1]| && lines[1][k] == c;
          if k >= 11 {
            assert c == CharOr(predicted, k - 11, PredictedFiller);
          }
        }
      } else if j == 2 {
        forall c | c in lines[2] ensures c != '\n' {
          var k :| 0 <= k < |lines[2]| && lines[2][k] == c;
          if k >= 11 {
            assert c == Marker(target, predicted, k - 11);
          }
        }
      } else {
        assert lines[0] == TargetLabel + target;
      }
    }
    SplitJoin(lines);
  }

  /**
   * When the target has no '+' and the prediction no '-' (so a filler never
   * matches a real character), the caret row is blank exactly when the two
   * strings are equal.
   */
  lemma NoCaretIffEqual(target: string, predicted: string)
    requires PredictedFiller !in target && TargetFiller !in predicted
    ensures '^' !in PointerRow(target, predicted, Width(target, predicted)) <==> target == predicted
  {
    var w := Width(target, predicted);
    var row := PointerRow(target, predicted, w);
    PointerRowAt(target, predicted, w);
    if target == predicted {
      forall i | 0 <= i < w ensures row[i] == ' ' {
      }
    } else {
      var i := FirstDifference(target, predicted);
      assert row[i] == '^';
    }
  }

  /** A position below the larger length where the filler-padded strings disagree. */
  lemma FirstDifference(target: string, predicted: string) returns (i: nat)
    requires PredictedFiller !in target && TargetFiller !in predicted
    requires target != predicted
    ensures i < Width(target, predicted)
    ensures CharOr(target, i, TargetFiller) != CharOr(predicted, i, PredictedFiller)
  {
    if |target| == |predicted| {
      i :| 0 <= i < |target| && target[i] != predicted[i];
    } else if |target| < |predicted| {
      i := |target|;
      assert predicted[i] in predicted;
    } else {
      i := |predicted|;
      assert target[i] in target;
    }
  }

  /**
   * Without those conditions a filler can hide a difference: "A" against
   * "A-" shows no caret, because the target's filler '-' matches the real
   * '-' of the prediction.
   */
  lemma FillerHidesDifference()
    ensures PointerRow("A", "A-", Width("A", "A-")) == "  "
  {
    assert Marker("A", "A-", 1) == ' ';
  }
}
