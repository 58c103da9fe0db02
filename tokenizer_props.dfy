/**
 * What the k-mer tokenizer of new_scripts_5_10/utils.py guarantees: the
 * layout of its vocabulary, the ids it gives k-mers and special tokens, how
 * `tokenize` treats strings whose length is not a multiple of k, how
 * `decode` treats markers and unknown ids, and the encode/decode round trip.
 *
 * Each lemma states only the assumptions on the alphabet it needs; the
 * tokenizer itself accepts any alphabet.
 */
module TokenizerProperties {

  import opened Arith
  import opened Text
  import opened Vocabulary
  import opened Tokenizer

  /**
   * None of '[', 'P', 'D' and ']' is in the alphabet. The marker's 'A' may be
   * (as in "ATCG"): a padding chunk is dropped for its other characters.
   */
  predicate PadFree(alphabet: string)
  {
    '[' !in alphabet && 'P' !in alphabet && 'D' !in alphabet && ']' !in alphabet
  }

  // ---------------------------------------------------------------------
  // Vocabulary and lookups

  /**
   * The vocabulary is the three special tokens followed by all |alphabet|^k
   * k-mers, each k long and over the alphabet.
   */
  lemma VocabularyLayout(t: KMerTokenizer)
    requires t.Valid()
    ensures |t.vocab| == 3 + Pow(|t.nucleotides|, t.k)
    ensures t.vocab[0] == PadMarker && t.vocab[1] == SosMarker && t.vocab[2] == EosMarker
    ensures forall i :: 3 <= i < |t.vocab| ==> |t.vocab[i]| == t.k && OverAlphabet(t.vocab[i], t.nucleotides)
  {
    forall i | 3 <= i < |t.vocab|
      ensures |t.vocab[i]| == t.k && OverAlphabet(t.vocab[i], t.nucleotides)
    {
      WordsShape(t.nucleotides, t.k, i - 3);
    }
  }

  /** The default tokenizer (k = 5 over "ATCG") has 4^5 k-mers and three special tokens. */
  lemma DefaultLength(t: KMerTokenizer)
    requires t.Valid() && t.k == 5 && t.nucleotides == "ATCG"
    ensures t.Length() == 1027
  {
    assert Pow(4, 5) == 1024;
  }

  /** `KMerTokenizer()` with no arguments is the default tokenizer, with 1027 entries. */
  lemma DefaultTokenizer()
    ensures KMerTokenizer.New().k == 5 && KMerTokenizer.New().nucleotides == "ATCG"
    ensures KMerTokenizer.New().Length() == 1027
  {
    DefaultLength(KMerTokenizer.New());
  }

  /** A k-mer over the alphabet sits at position 3 + its rank. */
  lemma KmerPosition(t: KMerTokenizer, w: string)
    requires t.Valid()
    requires |w| == t.k && OverAlphabet(w, t.nucleotides)
    ensures 3 + Rank(t.nucleotides, w) < |t.vocab|
    ensures t.vocab[3 + Rank(t.nucleotides, w)] == w
  {
    WordAtRank(t.nucleotides, w);
  }

  /** A string is a vocabulary entry exactly when it is a special token or a k-mer over the alphabet. */
  lemma VocabularyMembership(t: KMerTokenizer, token: string)
    requires t.Valid()
    ensures token in t.vocab <==> token in SpecialTokens || (|token| == t.k && OverAlphabet(token, t.nucleotides))
  {
    WordsMembership(t.nucleotides, t.k, token);
    assert token in t.vocab <==> token in SpecialTokens || token in Words(t.nucleotides, t.k);
  }

  /** When the alphabet has no '[', no k-mer is a special token, and the special ids are 0, 1 and 2. */
  lemma SpecialIds(t: KMerTokenizer)
    requires t.Valid()
    requires '[' !in t.nucleotides
    ensures t.padId == 0 && t.sosId == 1 && t.eosId == 2
    ensures forall i :: 3 <= i < |t.vocab| ==> '[' !in t.vocab[i]
  {
    VocabularyLayout(t);
    IndexMapLookup(t.vocab);
    forall i | 3 <= i < |t.vocab|
      ensures '[' !in t.vocab[i]
    {
      assert OverAlphabet(t.vocab[i], t.nucleotides);
    }
    assert t.vocab[t.padId][0] == '[' && t.vocab[t.sosId][0] == '[' && t.vocab[t.eosId][0] == '[';
  }

  /** Over a duplicate-free alphabet, no vocabulary entry occurs twice. */
  lemma VocabularyDistinct(t: KMerTokenizer, i: int, j: int)
    requires t.Valid()
    requires Distinct(t.nucleotides) && '[' !in t.nucleotides
    requires 0 <= i < |t.vocab| && 0 <= j < |t.vocab| && t.vocab[i] == t.vocab[j]
    ensures i == j
  {
    var ws := Words(t.nucleotides, t.k);
    assert t.vocab == SpecialTokens + ws;
    if 3 <= i && 3 <= j {
      assert ws[i - 3] == t.vocab[i] && ws[j - 3] == t.vocab[j];
      WordsDistinct(t.nucleotides, t.k, i - 3, j - 3);
    } else if i < 3 && j < 3 {
      assert t.vocab[i] == SpecialTokens[i] && t.vocab[j] == SpecialTokens[j];
      assert t.vocab[i][1] == t.vocab[j][1];
    } else {
      if i < 3 {
        SpecialNotKmer(t, i, j);
      } else {
        SpecialNotKmer(t, j, i);
      }
      assert false;
    }
  }

  /** A special token starts with '[', which no k-mer over such an alphabet contains. */
  lemma SpecialNotKmer(t: KMerTokenizer, i: int, j: int)
    requires t.Valid()
    requires '[' !in t.nucleotides
    requires 0 <= i < 3 <= j < |t.vocab|
    ensures t.vocab[i] != t.vocab[j]
  {
    assert t.vocab[j] in Words(t.nucleotides, t.k);
    WordsMembership(t.nucleotides, t.k, t.vocab[j]);
    assert t.vocab[i][0] == '[';
  }

  /** Over a duplicate-free alphabet, the id of a k-mer is 3 plus its rank (its value in base |alphabet|). */
  lemma KmerId(t: KMerTokenizer, w: string)
    requires t.Valid()
    requires Distinct(t.nucleotides)
    requires |w| == t.k && OverAlphabet(w, t.nucleotides)
    ensures t.TokenToId(w) == Success(3 + Rank(t.nucleotides, w))
  {
    var r := Rank(t.nucleotides, w);
    KmerPosition(t, w);
    var result := t.TokenToId(w);
    assert result.Success?;
    var id := result.value;
    assert 3 + r <= id < |t.vocab| && t.vocab[id] == w;
    LastKmerRank(t, id);
    assert r == id - 3;
    assert result == Success(3 + r);
  }

  /** Over a duplicate-free alphabet, the k-mer entry at position id has rank id - 3. */
  lemma LastKmerRank(t: KMerTokenizer, id: int)
    requires t.Valid() && Distinct(t.nucleotides)
    requires 3 <= id < |t.vocab|
    ensures OverAlphabet(t.vocab[id], t.nucleotides)
    ensures Rank(t.nucleotides, t.vocab[id]) == id - 3
  {
    var ws := Words(t.nucleotides, t.k);
    assert t.vocab[id] == ws[id - 3] by { assert t.vocab == SpecialTokens + ws; }
    RankOfWordAt(t.nucleotides, t.k, id - 3);
  }

  /** Looking up the id of a vocabulary entry and then the token of that id gives the entry back. */
  lemma TokenIdToken(t: KMerTokenizer, token: string)
    requires t.Valid()
    requires token in t.vocab
    ensures t.TokenToId(token).Success?
    ensures t.IdToToken(t.TokenToId(token).value) == Success(token)
  {
  }

  /**
   * Over a duplicate-free alphabet without '[', looking up the token of an id
   * and then its id gives the id back.
   */
  lemma IdTokenId(t: KMerTokenizer, id: int)
    requires t.Valid()
    requires Distinct(t.nucleotides) && '[' !in t.nucleotides
    requires 0 <= id < |t.vocab|
    ensures t.IdToToken(id).Success?
    ensures t.TokenToId(t.IdToToken(id).value) == Success(id)
  {
    var back := t.TokenToId(t.vocab[id]).value;
    VocabularyDistinct(t, id, back);
  }

  // ---------------------------------------------------------------------
  // Tokenizing

  /** Chunking a string aligned to k and then chunking the rest is chunking the concatenation. */
  lemma {:induction false} ChunkedAppend(t: KMerTokenizer, a: string, b: string)
    requires |a| % t.k == 0
    ensures t.Chunked(a + b) == t.Chunked(a) + t.Chunked(b)
    decreases |a|
  {
    if a == [] {
      assert a + b == b;
    } else {
      MultipleAtLeast(|a|, t.k);
      DivModLessDivisor(|a|, t.k);
      assert (a + b)[..t.k] == a[..t.k];
      assert (a + b)[t.k..] == a[t.k..] + b;
      ChunkedAppend(t, a[t.k..], b);
    }
  }

  /**
   * A string over the alphabet whose length is a multiple of k falls apart
   * into |s| / k chunks, all kept, that join back to the string.
   */
  lemma {:induction false} ChunkedAligned(t: KMerTokenizer, s: string)
    requires |s| % t.k == 0 && OverAlphabet(s, t.nucleotides)
    ensures |t.Chunked(s)| == |s| / t.k
    ensures Concat(t.Chunked(s)) == s
    decreases |s|
  {
    if s != [] {
      MultipleAtLeast(|s|, t.k);
      DivModLessDivisor(|s|, t.k);
      assert s == s[..t.k] + s[t.k..];
      OverAlphabetAppend(s[..t.k], s[t.k..], t.nucleotides);
      t.KeepsAlphabet(s[..t.k]);
      ChunkedAligned(t, s[t.k..]);
    }
  }

  /** A chunk holding one of '[', 'P', 'D', ']' is dropped when the alphabet has none of them. */
  lemma DropsPadCharacter(t: KMerTokenizer, chunk: string, i: int)
    requires PadFree(t.nucleotides)
    requires 0 <= i < |chunk| && chunk[i] in PadMarker && chunk[i] != 'A'
    ensures !t.Keeps(chunk)
  {
    t.KeepsAlphabet(chunk);
    assert chunk[i] !in t.nucleotides;
  }

  /**
   * The tail of a padding run (marker characters only, every 'A' followed by
   * a 'D') contains no chunk `tokenize` keeps, once k is at least 2.
   */
  lemma {:induction false} PaddingChunksDropped(t: KMerTokenizer, r: string)
    requires PadFree(t.nucleotides) && t.k >= 2
    requires forall i :: 0 <= i < |r| ==> r[i] in PadMarker
    requires forall i :: 0 <= i < |r| && r[i] == 'A' ==> i + 1 < |r| && r[i + 1] == 'D'
    ensures t.Chunked(r) == []
    decreases |r|
  {
    if |r| >= t.k {
      var chunk := r[..t.k];
      if r[0] == 'A' {
        DropsPadCharacter(t, chunk, 1);
      } else {
        DropsPadCharacter(t, chunk, 0);
      }
      var rest := r[t.k..];
      assert forall i :: 0 <= i < |rest| ==> rest[i] == r[i + t.k];
      PaddingChunksDropped(t, rest);
    }
  }

  /**
   * A non-empty remainder shorter than k followed by at least one marker:
   * the first chunk holds the marker's '[', the others lie inside the
   * padding, so none is kept when the alphabet has none of '[', 'P', 'D', ']'.
   */
  lemma DebrisDropped(t: KMerTokenizer, tail: string, n: nat)
    requires PadFree(t.nucleotides)
    requires 0 < |tail| < t.k && n >= 1
    ensures t.Chunked(tail + Repeat(PadMarker, n)) == []
  {
    var pad := Repeat(PadMarker, n);
    var q := tail + pad;
    if |q| >= t.k {
      var off := t.k - |tail|;
      assert q[..t.k][|tail|] == '[' by {
        assert pad == PadMarker + Repeat(PadMarker, n - 1);
      }
      DropsPadCharacter(t, q[..t.k], |tail|);
      assert q[t.k..] == pad[off..];
      PadSuffixDropped(t, n, off);
    }
  }

  /** Whatever is left of a padding run after its first `off` characters yields no chunk. */
  lemma PadSuffixDropped(t: KMerTokenizer, n: nat, off: nat)
    requires PadFree(t.nucleotides) && t.k >= 2
    requires off <= |Repeat(PadMarker, n)|
    ensures t.Chunked(Repeat(PadMarker, n)[off..]) == []
  {
    var pad := Repeat(PadMarker, n);
    PadRunShape(n);
    var rest := pad[off..];
    assert forall i :: 0 <= i < |rest| ==> rest[i] == pad[i + off];
    PaddingChunksDropped(t, rest);
  }

  /** With k = 5, "AT" misses three characters and gets three five-character markers: 17 characters, not a multiple of 5. */
  lemma PadExample(t: KMerTokenizer)
    requires t.k == 5
    ensures t.PadSequence("AT") == "AT[PAD][PAD][PAD]"
    ensures |t.PadSequence("AT")| == 17 && |t.PadSequence("AT")| % t.k != 0
  {
    assert t.PadLength(2) == 3;
    assert Repeat(PadMarker, 3) == "[PAD][PAD][PAD]";
  }

  /**
   * Each missing character costs five, so modulo k the padded length is
   * -4 * (|s| % k): it is a multiple of k exactly when k divides 4 * (|s| % k).
   * For odd k that means only when nothing is appended; for even k it can
   * happen with padding (`PadEvenExample`).
   */
  lemma PaddedAlignment(t: KMerTokenizer, s: string)
    ensures |t.PadSequence(s)| % t.k == 0 <==> (4 * (|s| % t.k)) % t.k == 0
  {
    var k, n := t.k, |s|;
    var q, r := n / k, n % k;
    t.PaddedShape(s);
    t.PadLengthBounds(n);
    var len := |t.PadSequence(s)|;
    if r == 0 {
      DivModUnique(0, k, 0, 0);
    } else {
      DivModUnique(k - r, k, 0, k - r);
      assert len == n + 5 * (k - r);
      var d, e := (4 * r) / k, (4 * r) % k;
      assert len == (q + 5 - d) * k - e;
      if e == 0 {
        DivModUnique(len, k, q + 5 - d, 0);
      } else {
        assert len == (q + 4 - d) * k + (k - e);
        DivModUnique(len, k, q + 4 - d, k - e);
      }
    }
  }

  /** With k = 2, "A" pads to "A[PAD]": padded, and yet 6 characters, a multiple of 2. */
  lemma PadEvenExample(t: KMerTokenizer)
    requires t.k == 2
    ensures t.PadSequence("A") == "A[PAD]"
    ensures |t.PadSequence("A")| % t.k == 0
  {
    assert t.PadLength(1) == 1;
    assert Repeat(PadMarker, 1) == "[PAD]";
  }

  /**
   * When the alphabet has none of '[', 'P', 'D', ']' ("ATCG" qualifies), `tokenize`
   * yields the chunks of the longest prefix of `s` whose length is a
   * multiple of k: the last |s| % k characters are lost.
   */
  lemma TokenizeDropsTail(t: KMerTokenizer, s: string)
    requires PadFree(t.nucleotides)
    ensures t.Chunked(t.PadSequence(s)) == t.Chunked(t.AlignedPrefix(s))
  {
    var head := t.AlignedPrefix(s);
    var m := |head|;
    var pad := Repeat(PadMarker, t.PadLength(|s|));
    t.PadLengthBounds(|s|);
    assert s == head + s[m..];
    assert t.PadSequence(s) == head + (s[m..] + pad);
    ChunkedAppend(t, head, s[m..] + pad);
    if |s| % t.k == 0 {
      assert s[m..] + pad == [];
    } else {
      DebrisDropped(t, s[m..], t.PadLength(|s|));
    }
    assert t.Chunked(head) + [] == t.Chunked(head);
  }

  // ---------------------------------------------------------------------
  // Encoding

  /**
   * Over a duplicate-free alphabet the ids between SOS and EOS are 3 plus
   * the rank of each kept chunk (its value read as a numeral in base
   * |alphabet|).
   */
  lemma EncodeIds(t: KMerTokenizer, s: string, j: int)
    requires t.Valid()
    requires Distinct(t.nucleotides)
    requires 1 <= j < |t.Encode(s).value| - 1
    ensures OverAlphabet(t.Chunked(t.PadSequence(s))[j - 1], t.nucleotides)
    ensures t.Encode(s).value[j] == 3 + Rank(t.nucleotides, t.Chunked(t.PadSequence(s))[j - 1])
  {
    t.ChunkedShape(t.PadSequence(s), j - 1);
    KmerId(t, t.Chunked(t.PadSequence(s))[j - 1]);
  }

  // ---------------------------------------------------------------------
  // Decoding

  /** Decoding stops at the first EOS: whatever follows it is ignored. */
  lemma {:induction false} DecodeStopsAtEos(t: KMerTokenizer, a: seq<int>, b: seq<int>)
    requires t.eosId !in a
    ensures t.Collect(a + [t.eosId] + b) == t.Collect(a)
    ensures t.Decoded(a + [t.eosId] + b) == t.Decoded(a)
  {
    if a != [] {
      assert (a + [t.eosId] + b)[1..] == a[1..] + [t.eosId] + b;
      DecodeStopsAtEos(t, a[1..], b);
    }
  }

  /** The special ids of a tokenizer are three different ids. */
  lemma SpecialIdsDiffer(t: KMerTokenizer)
    requires t.Valid()
    ensures t.padId != t.sosId && t.padId != t.eosId && t.sosId != t.eosId
  {
    IndexMapLookup(t.vocab);
    assert t.vocab[t.padId] == PadMarker && t.vocab[t.sosId] == SosMarker && t.vocab[t.eosId] == EosMarker;
  }

  /** A PAD or SOS id (one that is not also the EOS id) is skipped wherever it occurs. */
  lemma {:induction false} DecodeSkipsMarkers(t: KMerTokenizer, a: seq<int>, x: int, b: seq<int>)
    requires (x == t.padId || x == t.sosId) && x != t.eosId
    ensures t.Collect(a + [x] + b) == t.Collect(a + b)
    ensures t.Decoded(a + [x] + b) == t.Decoded(a + b)
  {
    if a == [] {
      assert a + [x] + b == [x] + b && a + b == b;
      assert ([x] + b)[1..] == b;
    } else {
      assert (a + [x] + b)[1..] == a[1..] + [x] + b;
      assert (a + b)[1..] == a[1..] + b;
      DecodeSkipsMarkers(t, a[1..], x, b);
    }
  }

  /**
   * The id at j is reached by `decode` (no EOS before it), is not PAD or SOS,
   * and has no token: the lookup raises KeyError on it.
   */
  predicate FailsAt(t: KMerTokenizer, ids: seq<int>, j: int)
  {
    && 0 <= j < |ids|
    && t.eosId !in ids[..j]
    && ids[j] != t.eosId && ids[j] != t.padId && ids[j] != t.sosId
    && ids[j] !in t.idToTokenMap
  }

  /**
   * `decode` raises exactly when some id fails as above, and then it raises
   * KeyError for the first such id.
   */
  lemma {:induction false} DecodeFailsIff(t: KMerTokenizer, ids: seq<int>)
    ensures t.Collect(ids).Failure? <==> exists j :: FailsAt(t, ids, j)
    ensures t.Collect(ids).Failure? ==>
              exists j :: FailsAt(t, ids, j) && t.Collect(ids).error == KeyError(ids[j]) &&
                          forall i :: 0 <= i < j ==> !FailsAt(t, ids, i)
  {
    if ids != [] {
      var x := ids[0];
      var tail := ids[1..];
      DecodeFailsIff(t, tail);
      assert ids[..0] == [];
      if x == t.eosId {
        forall j | 0 <= j < |ids| ensures !FailsAt(t, ids, j) {
          if j > 0 { assert ids[..j][0] == t.eosId; }
        }
      } else {
        // Past the first id, failing positions of ids are those of the tail shifted by one.
        forall j | 0 <= j < |tail|
          ensures FailsAt(t, tail, j) <==> FailsAt(t, ids, j + 1)
        {
          assert ids[..j + 1] == [x] + tail[..j];
        }
        if FailsAt(t, ids, 0) {
          assert t.Collect(ids) == Failure(KeyError(x));
        } else if t.Collect(tail).Failure? {
          var j :| FailsAt(t, tail, j) && t.Collect(tail).error == KeyError(tail[j]) &&
                   forall i :: 0 <= i < j ==> !FailsAt(t, tail, i);
          assert FailsAt(t, ids, j + 1);
          forall i | 0 <= i < j + 1 ensures !FailsAt(t, ids, i) {
            if i > 0 { assert !FailsAt(t, tail, i - 1); }
          }
        } else {
          forall j | 0 <= j < |ids| ensures !FailsAt(t, ids, j) {
            if j > 0 { assert !FailsAt(t, tail, j - 1); }
          }
        }
      }
    }
  }

  /** Ids that have tokens and are not special decode to those tokens, in order. */
  lemma {:induction false} CollectPlain(t: KMerTokenizer, ids: seq<int>)
    requires forall j :: 0 <= j < |ids| ==>
               ids[j] in t.idToTokenMap && ids[j] != t.padId && ids[j] != t.sosId && ids[j] != t.eosId
    ensures t.Collect(ids).Success?
    ensures |t.Collect(ids).value| == |ids|
    ensures forall j :: 0 <= j < |ids| ==> t.Collect(ids).value[j] == t.idToTokenMap[ids[j]]
  {
    if ids != [] {
      CollectPlain(t, ids[1..]);
      assert forall j :: 1 <= j < |ids| ==> ids[j] == ids[1..][j - 1];
    }
  }

  /** Joined chunks over the alphabet are a string over the alphabet. */
  lemma {:induction false} ConcatOverAlphabet(parts: seq<string>, alphabet: string)
    requires forall j :: 0 <= j < |parts| ==> OverAlphabet(parts[j], alphabet)
    ensures OverAlphabet(Concat(parts), alphabet)
  {
    if parts != [] {
      ConcatOverAlphabet(parts[1..], alphabet);
      OverAlphabetAppend(parts[0], Concat(parts[1..]), alphabet);
    }
  }

  // ---------------------------------------------------------------------
  // Round trips

  /** Ids framed by SOS and EOS, none of them special and all with tokens, decode to those tokens. */
  lemma CollectFramed(t: KMerTokenizer, inner: seq<int>, tokens: seq<string>)
    requires t.sosId != t.eosId
    requires |inner| == |tokens|
    requires forall j :: 0 <= j < |inner| ==>
               inner[j] in t.idToTokenMap && t.idToTokenMap[inner[j]] == tokens[j] &&
               inner[j] != t.padId && inner[j] != t.sosId && inner[j] != t.eosId
    ensures t.Collect([t.sosId] + inner + [t.eosId]) == Success(tokens)
  {
    var ids := [t.sosId] + inner + [t.eosId];
    assert ids[1..] == inner + [t.eosId] + [];
    DecodeStopsAtEos(t, inner, []);
    CollectPlain(t, inner);
    assert t.Collect(inner).value == tokens;
  }

  /**
   * For every alphabet, the id of the j-th kept chunk is the id of a k-mer:
   * it has that chunk as its token and lies past the three special tokens.
   */
  lemma EncodedIdPlain(t: KMerTokenizer, s: string, j: int)
    requires t.Valid()
    requires 0 <= j < |t.Chunked(t.PadSequence(s))|
    ensures t.Encode(s).value[j + 1] in t.idToTokenMap
    ensures t.idToTokenMap[t.Encode(s).value[j + 1]] == t.Chunked(t.PadSequence(s))[j]
    ensures 3 <= t.Encode(s).value[j + 1]
  {
    var w := t.Chunked(t.PadSequence(s))[j];
    var id := t.Encode(s).value[j + 1];
    assert t.TokenToId(w) == Success(id);
    t.ChunkedShape(t.PadSequence(s), j);
    KmerPosition(t, w);
    // The k-mer's own position holds w, and `id` is the last position holding w.
    assert 3 + Rank(t.nucleotides, w) <= id;
  }

  /**
   * When the alphabet has no '[', decoding the encoding of `s` gives the kept
   * chunks of the padded string joined together.
   */
  lemma DecodeOfEncode(t: KMerTokenizer, s: string)
    requires t.Valid()
    requires '[' !in t.nucleotides
    ensures t.Decoded(t.Encode(s).value) == Success(Concat(t.Chunked(t.PadSequence(s))))
  {
    var p := t.PadSequence(s);
    var kmers := t.Chunked(p);
    var ids := t.Encode(s).value;
    var inner := ids[1..|ids| - 1];
    SpecialIds(t);
    forall j | 0 <= j < |inner|
      ensures inner[j] in t.idToTokenMap && t.idToTokenMap[inner[j]] == kmers[j]
      ensures inner[j] != t.padId && inner[j] != t.sosId && inner[j] != t.eosId
    {
      EncodedIdPlain(t, s, j);
    }
    assert ids == [t.sosId] + inner + [t.eosId];
    CollectFramed(t, inner, kmers);
    forall j | 0 <= j < |kmers|
      ensures OverAlphabet(kmers[j], t.nucleotides)
    {
      t.ChunkedShape(p, j);
    }
    ConcatOverAlphabet(kmers, t.nucleotides);
    assert '[' !in Concat(kmers);
    RemovePadWithoutBracket(Concat(kmers));
  }

  /**
   * A string over an alphabet without '[' whose length is a multiple of k
   * decodes back from its encoding.
   */
  lemma RoundTrip(t: KMerTokenizer, s: string)
    requires t.Valid()
    requires '[' !in t.nucleotides
    requires OverAlphabet(s, t.nucleotides) && |s| % t.k == 0
    ensures t.Decoded(t.Encode(s).value) == Success(s)
  {
    DecodeOfEncode(t, s);
    t.PaddedShape(s);
    ChunkedAligned(t, s);
  }

  /**
   * Any string over an alphabet without '[', 'P', 'D' and ']' (such as "ATCG")
   * decodes from its encoding to its longest prefix whose length is a
   * multiple of k.
   */
  lemma RoundTripTruncates(t: KMerTokenizer, s: string)
    requires t.Valid()
    requires PadFree(t.nucleotides)
    requires OverAlphabet(s, t.nucleotides)
    ensures t.Decoded(t.Encode(s).value) == Success(t.AlignedPrefix(s))
  {
    var head := t.AlignedPrefix(s);
    assert OverAlphabet(head, t.nucleotides) by {
      assert s == head + s[|head|..];
      OverAlphabetAppend(head, s[|head|..], t.nucleotides);
    }
    assert Concat(t.Chunked(head)) == head by {
      ChunkedAligned(t, head);
    }
    assert t.Chunked(t.PadSequence(s)) == t.Chunked(head) by {
      TokenizeDropsTail(t, s);
    }
    DecodeOfEncode(t, s);
  }
}
