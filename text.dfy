/**
 * String helpers that mirror the Python string operations the utilities rely
 * on: `''.join`, repetition `w * n`, `.replace('[PAD]', '')`, `"\n".join` and
 * `.split("\n")`.
 */
module Text {

  /** The padding marker, a five-character string. */
  const PadMarker: string := "[PAD]"

  /** `''.join(parts)`. */
  function Concat(parts: seq<string>): string
  {
    if parts == [] then "" else parts[0] + Concat(parts[1..])
  }

  /** `w * n` for a string `w` and a non-negative count `n`. */
  function Repeat(w: string, n: nat): string
  {
    if n == 0 then "" else w + Repeat(w, n - 1)
  }

  /**
   * A run of markers has five characters per copy, all of them marker
   * characters, and every 'A' in it is directly followed by a 'D'.
   */
  lemma {:induction false} PadRunShape(n: nat)
    ensures |Repeat(PadMarker, n)| == 5 * n
    ensures forall i :: 0 <= i < |Repeat(PadMarker, n)| ==> Repeat(PadMarker, n)[i] in PadMarker
    ensures forall i :: 0 <= i < |Repeat(PadMarker, n)| && Repeat(PadMarker, n)[i] == 'A' ==>
              i + 1 < |Repeat(PadMarker, n)| && Repeat(PadMarker, n)[i + 1] == 'D'
  {
    if n > 0 {
      PadRunShape(n - 1);
      var r := Repeat(PadMarker, n - 1);
      assert Repeat(PadMarker, n) == PadMarker + r;
    }
  }

  /** Character i of a run of markers is character i mod 5 of the marker: the run is the marker repeated. */
  lemma {:induction false} RepeatAt(n: nat)
    ensures |Repeat(PadMarker, n)| == 5 * n
    ensures forall i :: 0 <= i < |Repeat(PadMarker, n)| ==> Repeat(PadMarker, n)[i] == PadMarker[i % 5]
  {
    if n > 0 {
      RepeatAt(n - 1);
      var r := Repeat(PadMarker, n - 1);
      assert Repeat(PadMarker, n) == PadMarker + r;
      forall i | 5 <= i < 5 * n
        ensures Repeat(PadMarker, n)[i] == PadMarker[i % 5]
      {
        assert (i - 5) % 5 == i % 5;
      }
    }
  }

  /**
   * `s.replace('[PAD]', '')`: every occurrence of the marker found scanning
   * from the left, without overlap, is removed.
   */
  function RemovePad(s: string): string
    decreases |s|
  {
    if |s| >= |PadMarker| && s[..|PadMarker|] == PadMarker then RemovePad(s[|PadMarker|..])
    else if s == [] then ""
    else [s[0]] + RemovePad(s[1..])
  }

  /** Without an opening bracket there is no marker to remove. */
  lemma {:induction false} RemovePadWithoutBracket(s: string)
    requires '[' !in s
    ensures RemovePad(s) == s
  {
    if s != [] {
      assert s[0] != '[';
      assert !(|s| >= |PadMarker| && s[..|PadMarker|] == PadMarker);
      assert '[' !in s[1..] by {
        forall c | c in s[1..] ensures c != '[' { }
      }
      RemovePadWithoutBracket(s[1..]);
      assert [s[0]] + s[1..] == s;
    }
  }

  /** `"\n".join(lines)`. */
  function JoinLines(lines: seq<string>): string
  {
    if lines == [] then ""
    else if |lines| == 1 then lines[0]
    else lines[0] + "\n" + JoinLines(lines[1..])
  }

  /** `s.split("\n")`: there is always at least one piece. */
  function SplitLines(s: string): (pieces: seq<string>)
    ensures |pieces| >= 1
  {
    if s == [] then [""]
    else if s[0] == '\n' then [""] + SplitLines(s[1..])
    else
      var rest := SplitLines(s[1..]);
      [[s[0]] + rest[0]] + rest[1..]
  }

  /** Splitting a line that holds no newline, followed by a newline and more text. */
  lemma {:induction false} SplitLinesAfter(line: string, tail: string)
    requires '\n' !in line
    ensures SplitLines(line + "\n" + tail) == [line] + SplitLines(tail)
    ensures SplitLines(line) == [line]
  {
    if line != [] {
      assert '\n' !in line[1..] by {
        forall c | c in line[1..] ensures c != '\n' { }
      }
      SplitLinesAfter(line[1..], tail);
      assert (line + "\n" + tail)[1..] == line[1..] + "\n" + tail;
      assert [line[0]] + line[1..] == line;
    } else {
      assert line + "\n" + tail == "\n" + tail;
      assert ("\n" + tail)[1..] == tail;
    }
  }

  /** Splitting undoes joining, provided no line holds a newline. */
  lemma {:induction false} SplitJoin(lines: seq<string>)
    requires |lines| >= 1
    requires forall j :: 0 <= j < |lines| ==> '\n' !in lines[j]
    ensures SplitLines(JoinLines(lines)) == lines
  {
    if |lines| == 1 {
      SplitLinesAfter(lines[0], "");
    } else {
      SplitJoin(lines[1..]);
      SplitLinesAfter(lines[0], JoinLines(lines[1..]));
      assert [lines[0]] + lines[1..] == lines;
    }
  }
}
