/**
 * The k-mer part of the tokenizer's vocabulary: every string of length k over
 * an alphabet, in the order `itertools.product(alphabet, repeat=k)` yields
 * them (the first position varies slowest). Read as numerals in base
 * |alphabet|, the k-mers come out in increasing order, so the position of a
 * k-mer is its value as a numeral (`Rank`).
 */
module Vocabulary {

  import opened Arith

  function Pow(b: nat, e: nat): nat
  {
    if e == 0 then 1 else b * Pow(b, e - 1)
  }

  /** Every character of `w` belongs to the alphabet. */
  predicate OverAlphabet(w: string, alphabet: string)
  {
    forall c :: c in w ==> c in alphabet
  }

  lemma OverAlphabetCons(w: string, alphabet: string)
    requires w != []
    ensures OverAlphabet(w, alphabet) <==> w[0] in alphabet && OverAlphabet(w[1..], alphabet)
  {
    assert w == [w[0]] + w[1..];
    assert forall c :: c in w <==> c == w[0] || c in w[1..];
  }

  lemma OverAlphabetAppend(a: string, b: string, alphabet: string)
    ensures OverAlphabet(a + b, alphabet) <==> OverAlphabet(a, alphabet) && OverAlphabet(b, alphabet)
  {
    assert forall c :: c in a + b <==> c in a || c in b;
  }

  /** No character occurs twice in the alphabet. */
  predicate Distinct(alphabet: string)
  {
    forall i, j :: 0 <= i < j < |alphabet| ==> alphabet[i] != alphabet[j]
  }

  /** Each word of `ws` with `c` put in front. */
  function PrefixAll(c: char, ws: seq<string>): (r: seq<string>)
    ensures |r| == |ws|
    ensures forall i :: 0 <= i < |ws| ==> r[i] == [c] + ws[i]
  {
    seq(|ws|, i requires 0 <= i < |ws| => [c] + ws[i])
  }

  /** For each character of `cs` in turn, every word of `ws` prefixed by it. */
  function Prefixed(cs: string, ws: seq<string>): seq<string>
  {
    if cs == [] then [] else PrefixAll(cs[0], ws) + Prefixed(cs[1..], ws)
  }

  /** `[''.join(p) for p in itertools.product(alphabet, repeat=k)]`. */
  function Words(alphabet: string, k: nat): (r: seq<string>)
    ensures |r| == Pow(|alphabet|, k)
  {
    if k == 0 then [""]
    else
      var ws := Words(alphabet, k - 1);
      PrefixedLength(alphabet, ws);
      Prefixed(alphabet, ws)
  }

  /** Position of the first occurrence of `c` in the alphabet. */
  function IndexOf(alphabet: string, c: char): (i: nat)
    requires c in alphabet
    ensures i < |alphabet| && alphabet[i] == c
    ensures forall j :: 0 <= j < i ==> alphabet[j] != c
  {
    if alphabet[0] == c then 0 else 1 + IndexOf(alphabet[1..], c)
  }

  /** The value of `w` read as a numeral in base |alphabet|, most significant digit first. */
  function Rank(alphabet: string, w: string): nat
    requires OverAlphabet(w, alphabet)
  {
    if w == [] then 0
    else IndexOf(alphabet, w[0]) * Pow(|alphabet|, |w| - 1) + Rank(alphabet, w[1..])
  }

  /** Prefixed lays its blocks out one after the other, a block of |ws| words per character. */
  lemma {:induction false} PrefixedAt(cs: string, ws: seq<string>, j: nat, r: nat)
    requires j < |cs| && r < |ws|
    ensures |Prefixed(cs, ws)| == |cs| * |ws|
    ensures j * |ws| + r < |cs| * |ws|
    ensures Prefixed(cs, ws)[j * |ws| + r] == [cs[j]] + ws[r]
  {
    PrefixedLength(cs, ws);
    MulLeftMono(j, |cs|, |ws|);
    if j > 0 {
      PrefixedAt(cs[1..], ws, j - 1, r);
      assert j * |ws| + r == |ws| + ((j - 1) * |ws| + r);
      assert cs[1..][j - 1] == cs[j];
    }
  }

  lemma {:induction false} PrefixedLength(cs: string, ws: seq<string>)
    ensures |Prefixed(cs, ws)| == |cs| * |ws|
  {
    if cs != [] {
      PrefixedLength(cs[1..], ws);
      assert |Prefixed(cs, ws)| == |ws| + (|cs| - 1) * |ws|;
    }
  }

  /** Every generated word has length k and uses only alphabet characters. */
  lemma {:induction false} WordsShape(alphabet: string, k: nat, i: nat)
    requires i < |Words(alphabet, k)|
    ensures |Words(alphabet, k)[i]| == k
    ensures OverAlphabet(Words(alphabet, k)[i], alphabet)
  {
    if k > 0 {
      var ws := Words(alphabet, k - 1);
      PrefixedLength(alphabet, ws);
      var j, r := BlockOf(i, |alphabet|, |ws|);
      PrefixedAt(alphabet, ws, j, r);
      WordsShape(alphabet, k - 1, r);
    }
  }

  /**
   * The k-mer c_0 ... c_{k-1} sits at position sum idx(c_i) * n^(k-1-i):
   * its rank is in range and the word there is the k-mer itself.
   */
  lemma {:induction false} WordAtRank(alphabet: string, w: string)
    requires OverAlphabet(w, alphabet)
    ensures Rank(alphabet, w) < |Words(alphabet, |w|)|
    ensures Words(alphabet, |w|)[Rank(alphabet, w)] == w
  {
    if w != [] {
      var k := |w|;
      var ws := Words(alphabet, k - 1);
      assert OverAlphabet(w[1..], alphabet) by {
        forall c | c in w[1..] ensures c in alphabet { assert c in w; }
      }
      WordAtRank(alphabet, w[1..]);
      var j := IndexOf(alphabet, w[0]);
      var r := Rank(alphabet, w[1..]);
      assert Rank(alphabet, w) == j * |ws| + r;
      assert Words(alphabet, k) == Prefixed(alphabet, ws);
      PrefixedAt(alphabet, ws, j, r);
      assert Words(alphabet, k)[j * |ws| + r] == [alphabet[j]] + ws[r];
      assert [alphabet[j]] + ws[r] == [w[0]] + w[1..] == w;
    }
  }

  /** Over a duplicate-free alphabet, the word at position i has rank i. */
  lemma {:induction false} RankOfWordAt(alphabet: string, k: nat, i: nat)
    requires Distinct(alphabet)
    requires i < |Words(alphabet, k)|
    ensures OverAlphabet(Words(alphabet, k)[i], alphabet)
    ensures Rank(alphabet, Words(alphabet, k)[i]) == i
  {
    WordsShape(alphabet, k, i);
    if k > 0 {
      var ws := Words(alphabet, k - 1);
      PrefixedLength(alphabet, ws);
      var j, r := BlockOf(i, |alphabet|, |ws|);
      PrefixedAt(alphabet, ws, j, r);
      RankOfWordAt(alphabet, k - 1, r);
      WordsShape(alphabet, k - 1, r);
      RankOfPrefixed(alphabet, j, ws[r], |ws|);
    }
  }

  /** Putting the j-th alphabet character in front of a word of rank r adds j * n^|v| to its rank. */
  lemma RankOfPrefixed(alphabet: string, j: nat, v: string, size: nat)
    requires Distinct(alphabet) && j < |alphabet|
    requires OverAlphabet(v, alphabet) && size == Pow(|alphabet|, |v|)
    ensures OverAlphabet([alphabet[j]] + v, alphabet)
    ensures Rank(alphabet, [alphabet[j]] + v) == j * size + Rank(alphabet, v)
  {
    var w := [alphabet[j]] + v;
    OverAlphabetCons(w, alphabet);
    assert w[0] == alphabet[j] && w[1..] == v;
    assert IndexOf(alphabet, w[0]) == j;
  }

  /** A string is a generated word exactly when it is a k-long string over the alphabet. */
  lemma WordsMembership(alphabet: string, k: nat, w: string)
    ensures w in Words(alphabet, k) <==> |w| == k && OverAlphabet(w, alphabet)
  {
    if w in Words(alphabet, k) {
      var i :| 0 <= i < |Words(alphabet, k)| && Words(alphabet, k)[i] == w;
      WordsShape(alphabet, k, i);
    }
    if |w| == k && OverAlphabet(w, alphabet) {
      WordAtRank(alphabet, w);
    }
  }

  /** Over a duplicate-free alphabet no k-mer is generated twice. */
  lemma WordsDistinct(alphabet: string, k: nat, i: nat, j: nat)
    requires Distinct(alphabet)
    requires i < |Words(alphabet, k)| && j < |Words(alphabet, k)|
    requires Words(alphabet, k)[i] == Words(alphabet, k)[j]
    ensures i == j
  {
    RankOfWordAt(alphabet, k, i);
    RankOfWordAt(alphabet, k, j);
  }
}
