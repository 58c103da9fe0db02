/**
 * The k-mer tokenizer for DNA/RNA strings (`KMerTokenizer` in
 * new_scripts_5_10/utils.py).
 *
 * A tokenizer value carries the fields its constructor sets once: the k-mer
 * length, the alphabet, the vocabulary, the two lookup maps and the three
 * special ids. `New` builds them; `Valid` says a value was built that way,
 * which holds of every tokenizer since nothing changes them afterwards.
 */
module Tokenizer {

  import opened Arith
  import opened Text
  import opened Vocabulary

  /** The two exceptions the tokenizer raises: `ValueError` from `token_to_id`, `KeyError` from a dict lookup by id. */
  datatype Error = ValueError(token: string) | KeyError(id: int)

  datatype Result<T> = Success(value: T) | Failure(error: Error)

  /** The k-mer length; the model covers k >= 1. */
  type KmerLength = k: int | k >= 1 witness 1

  const SosMarker: string := "[SOS]"
  const EosMarker: string := "[EOS]"

  /** The special tokens, in the order they are put in front of the k-mers. */
  const SpecialTokens: seq<string> := [PadMarker, SosMarker, EosMarker]

  /**
   * `{token: idx for idx, token in enumerate(v)}`: the entries go in one
   * after the other, a later duplicate overwriting an earlier one
   * (`IndexMapLookup`).
   */
  function IndexMap(v: seq<string>): map<string, int>
  {
    if v == [] then map[] else IndexMap(v[..|v| - 1])[v[|v| - 1] := |v| - 1]
  }

  /**
   * The keys are the entries of `v`, and each maps to a position holding it,
   * the last such position.
   */
  lemma {:induction false} IndexMapLookup(v: seq<string>)
    ensures forall t :: t in IndexMap(v) <==> t in v
    ensures forall t :: t in IndexMap(v) ==> 0 <= IndexMap(v)[t] < |v| && v[IndexMap(v)[t]] == t
    ensures forall t, j :: t in IndexMap(v) && IndexMap(v)[t] < j < |v| ==> v[j] != t
  {
    if v != [] {
      var w := v[..|v| - 1];
      var last := v[|v| - 1];
      IndexMapLookup(w);
      forall t
        ensures t in IndexMap(v) <==> t in v
      {
        assert t in v <==> t in w || t == last by {
          if t in v {
            var i :| 0 <= i < |v| && v[i] == t;
            if i < |v| - 1 { assert w[i] == t; }
          }
          if t in w {
            var i :| 0 <= i < |w| && w[i] == t;
            assert v[i] == t;
          }
        }
      }
      forall t | t in IndexMap(v) && t != last
        ensures IndexMap(v)[t] == IndexMap(w)[t]
      {
      }
    }
  }

  /** `{idx: token for idx, token in enumerate(v)}`. */
  function PositionMap(v: seq<string>): (m: map<int, string>)
    ensures forall i :: i in m <==> 0 <= i < |v|
    ensures forall i :: 0 <= i < |v| ==> m[i] == v[i]
  {
    map i | 0 <= i < |v| :: v[i]
  }

  datatype KMerTokenizer = KMerTokenizer(
    k: KmerLength,
    nucleotides: string,
    vocab: seq<string>,
    tokenToIdMap: map<string, int>,
    idToTokenMap: map<int, string>,
    padId: int,
    sosId: int,
    eosId: int)
  {
    /**
     * `__init__`, with its defaults k = 5 and the alphabet "ATCG": the
     * vocabulary and the maps built from it, and the special ids looked up in
     * them.
     */
    static function New(k: KmerLength := 5, nucleotides: string := "ATCG"): (t: KMerTokenizer)
      ensures t.Valid() && t.k == k && t.nucleotides == nucleotides
    {
      var vocab := SpecialTokens + Words(nucleotides, k);
      var tokenToId := IndexMap(vocab);
      IndexMapLookup(vocab);
      assert PadMarker == vocab[0] && SosMarker == vocab[1] && EosMarker == vocab[2];
      KMerTokenizer(k, nucleotides, vocab, tokenToId, PositionMap(vocab),
                    tokenToId[PadMarker], tokenToId[SosMarker], tokenToId[EosMarker])
    }

    /** The fields are the ones `__init__` builds from k and the alphabet. */
    predicate Valid()
    {
      && vocab == SpecialTokens + Words(nucleotides, k)
      && tokenToIdMap == IndexMap(vocab)
      && idToTokenMap == PositionMap(vocab)
      && PadMarker in tokenToIdMap && padId == tokenToIdMap[PadMarker]
      && SosMarker in tokenToIdMap && sosId == tokenToIdMap[SosMarker]
      && EosMarker in tokenToIdMap && eosId == tokenToIdMap[EosMarker]
    }

    /** `__len__`: the number of vocabulary entries. */
    function Length(): (n: nat)
      requires Valid()
      ensures n == 3 + Pow(|nucleotides|, k)
    {
      |vocab|
    }

    /**
     * `token_to_id`: succeeds exactly on vocabulary entries, with an id whose
     * entry is the token (the last such id), and raises ValueError otherwise.
     */
    function TokenToId(token: string): (r: Result<int>)
      requires Valid()
      ensures r.Success? <==> token in vocab
      ensures r.Success? ==> 0 <= r.value < |vocab| && vocab[r.value] == token
      ensures r.Success? ==> forall j :: r.value < j < |vocab| ==> vocab[j] != token
      ensures r.Failure? ==> r.error == ValueError(token)
    {
      IndexMapLookup(vocab);
      if token !in tokenToIdMap then Failure(ValueError(token))
      else Success(tokenToIdMap[token])
    }

    /** `id_to_token`: succeeds exactly on ids in [0, Length()), raising KeyError otherwise. */
    function IdToToken(id: int): (r: Result<string>)
      requires Valid()
      ensures r.Success? <==> 0 <= id < |vocab|
      ensures r.Success? ==> r.value == vocab[id]
      ensures r.Failure? ==> r.error == KeyError(id)
    {
      if id in idToTokenMap then Success(idToTokenMap[id]) else Failure(KeyError(id))
    }

    /**
     * The `pad_length` of `pad_sequence`: how many characters are missing up
     * to the next multiple of k (`PadLengthBounds`).
     */
    function PadLength(n: nat): nat
    {
      (k - n % k) % k
    }

    /** The pad length is below k, zero exactly on multiples of k, and completes n to a multiple of k. */
    lemma PadLengthBounds(n: nat)
      ensures PadLength(n) < k
      ensures PadLength(n) == 0 <==> n % k == 0
      ensures (n + PadLength(n)) % k == 0
    {
      if n % k == 0 {
        DivModUnique(k, k, 1, 0);
      } else {
        DivModUnique(k - n % k, k, 0, k - n % k);
        DivModUnique(n + (k - n % k), k, n / k + 1, 0);
      }
    }

    /**
     * `pad_sequence`: appends PadLength copies of the five-character marker
     * (not PadLength characters), so the result need not be aligned to k
     * (`PaddedShape`; the exact condition is `PaddedAlignment`).
     */
    function PadSequence(s: string): (r: string)
      ensures |s| <= |r| && r[..|s|] == s
      ensures (|r| - |s|) % 5 == 0 && |r| - |s| < 5 * k
    {
      PadLengthBounds(|s|);
      PadRunShape(PadLength(|s|));
      s + Repeat(PadMarker, PadLength(|s|))
    }

    /**
     * The padded string starts with `s`, grows by five characters per missing
     * character, is `s` itself when |s| is a multiple of k, and after `s`
     * holds the marker over and over.
     */
    lemma PaddedShape(s: string)
      ensures |PadSequence(s)| == |s| + 5 * PadLength(|s|)
      ensures PadSequence(s)[..|s|] == s
      ensures |s| % k == 0 <==> PadSequence(s) == s
      ensures forall i :: |s| <= i < |PadSequence(s)| ==> PadSequence(s)[i] in PadMarker
      ensures forall i :: |s| <= i < |PadSequence(s)| ==> PadSequence(s)[i] == PadMarker[(i - |s|) % 5]
    {
      PadLengthBounds(|s|);
      PadRunShape(PadLength(|s|));
      RepeatAt(PadLength(|s|));
      assert PadSequence(s)[..|s|] == s;
    }

    /** The longest prefix of `s` whose length is a multiple of k. */
    function AlignedPrefix(s: string): (r: string)
      ensures |r| <= |s| && |r| % k == 0 && |s| - |r| < k
      ensures r == s[..|r|]
    {
      DivModUnique(|s| - |s| % k, k, |s| / k, 0);
      s[..|s| - |s| % k]
    }

    /**
     * The filter of `tokenize`: every character is in the alphabet or equals
     * the padding marker. The latter compares a one-character string with the
     * five-character marker, so it never holds (`KeepsAlphabet`).
     */
    predicate Keeps(chunk: string)
    {
      chunk == [] || ((chunk[0] in nucleotides || IsPadMarker([chunk[0]])) && Keeps(chunk[1..]))
    }

    /** The filter keeps exactly the chunks made of alphabet characters. */
    lemma {:induction false} KeepsAlphabet(chunk: string)
      ensures Keeps(chunk) <==> OverAlphabet(chunk, nucleotides)
    {
      if chunk != [] {
        assert !IsPadMarker([chunk[0]]);
        KeepsAlphabet(chunk[1..]);
        OverAlphabetCons(chunk, nucleotides);
      }
    }

    /** The kept k-long chunks of `p` at offsets 0, k, 2k, ..., in order. */
    function Chunked(p: string): seq<string>
      decreases |p|
    {
      if |p| < k then []
      else (if Keeps(p[..k]) then [p[..k]] else []) + Chunked(p[k..])
    }

    /** `tokenize`: pad, then walk the padded string in strides of k. */
    method Tokenize(s: string) returns (kmers: seq<string>)
      ensures kmers == Chunked(PadSequence(s))
    {
      var padded := PadSequence(s);
      kmers := [];
      var i := 0;
      assert padded[i..] == padded;
      assert kmers + Chunked(padded[i..]) == Chunked(padded);
      while i < |padded| - k + 1
        invariant 0 <= i <= |padded|
        invariant kmers + Chunked(padded[i..]) == Chunked(padded)
        decreases |padded| - i
      {
        var kmer := padded[i..i + k];
        TokenizeStep(padded, i, kmers);
        if Keeps(kmer) {
          kmers := kmers + [kmer];
        }
        i := i + k;
      }
      assert Chunked(padded[i..]) == [];
      assert kmers + [] == kmers;
    }

    /** One stride of the `tokenize` loop keeps the chunks found so far in step with Chunked. */
    lemma TokenizeStep(p: string, i: nat, done: seq<string>)
      requires i + k <= |p|
      requires done + Chunked(p[i..]) == Chunked(p)
      ensures (if Keeps(p[i..i + k]) then done + [p[i..i + k]] else done) + Chunked(p[i + k..]) == Chunked(p)
    {
      assert p[i..][..k] == p[i..i + k] && p[i..][k..] == p[i + k..];
      var head := if Keeps(p[i..i + k]) then [p[i..i + k]] else [];
      assert Chunked(p[i..]) == head + Chunked(p[i + k..]);
      ConcatAssoc(done, head, Chunked(p[i + k..]));
      assert (if Keeps(p[i..i + k]) then done + [p[i..i + k]] else done) == done + head;
    }

    /**
     * The list comprehension of `encode`: the id of every token, or the error
     * of the first token that has none.
     */
    function IdsOf(kmers: seq<string>): (r: Result<seq<int>>)
      requires Valid()
      ensures r.Success? <==> forall j :: 0 <= j < |kmers| ==> kmers[j] in vocab
      ensures r.Success? ==> |r.value| == |kmers|
      ensures r.Success? ==> forall j :: 0 <= j < |kmers| ==> TokenToId(kmers[j]) == Success(r.value[j])
      ensures r.Failure? ==> exists j :: 0 <= j < |kmers| && kmers[j] !in vocab && r.error == ValueError(kmers[j]) &&
                                         (forall i :: 0 <= i < j ==> kmers[i] in vocab)
    {
      if kmers == [] then Success([])
      else
        var head := TokenToId(kmers[0]);
        var tail := IdsOf(kmers[1..]);
        if head.Failure? then Failure(head.error)
        else if tail.Failure? then
          assert forall j :: 1 <= j < |kmers| ==> kmers[j] == kmers[1..][j - 1];
          Failure(tail.error)
        else
          var ids := [head.value] + tail.value;
          assert forall j :: 0 <= j < |kmers| ==> TokenToId(kmers[j]) == Success(ids[j]) by {
            forall j | 0 <= j < |kmers| ensures TokenToId(kmers[j]) == Success(ids[j]) {
              if j > 0 {
                assert kmers[j] == kmers[1..][j - 1] && ids[j] == tail.value[j - 1];
              }
            }
          }
          Success(ids)
    }

    /**
     * `encode`: the ids of the kept chunks between SOS and EOS. It never
     * raises: every kept chunk is a k-long string over the alphabet, and so a
     * vocabulary entry.
     */
    function Encode(s: string): (r: Result<seq<int>>)
      requires Valid()
      ensures r.Success?
      ensures |r.value| == |Chunked(PadSequence(s))| + 2
      ensures r.value[0] == sosId && r.value[|r.value| - 1] == eosId
      ensures forall j :: 1 <= j < |r.value| - 1 ==> TokenToId(Chunked(PadSequence(s))[j - 1]) == Success(r.value[j])
    {
      var kmers := Chunked(PadSequence(s));
      ChunksInVocab(PadSequence(s));
      match IdsOf(kmers)
      case Success(ids) => Success([sosId] + ids + [eosId])
    }

    /** Every chunk Chunked keeps is a vocabulary entry. */
    lemma ChunksInVocab(p: string)
      requires Valid()
      ensures forall j :: 0 <= j < |Chunked(p)| ==> Chunked(p)[j] in vocab
    {
      forall j | 0 <= j < |Chunked(p)| ensures Chunked(p)[j] in vocab {
        ChunkedShape(p, j);
        WordsMembership(nucleotides, k, Chunked(p)[j]);
      }
    }

    /** Every chunk `tokenize` keeps is k characters long and made only of alphabet characters. */
    lemma {:induction false} ChunkedShape(p: string, j: nat)
      requires j < |Chunked(p)|
      ensures |Chunked(p)[j]| == k
      ensures OverAlphabet(Chunked(p)[j], nucleotides)
      decreases |p|
    {
      var head := if Keeps(p[..k]) then [p[..k]] else [];
      assert Chunked(p) == head + Chunked(p[k..]);
      KeepsAlphabet(p[..k]);
      if j >= |head| {
        ChunkedShape(p[k..], j - |head|);
      }
    }

    /**
     * The loop of `decode`, before the join: stop at the first EOS, skip PAD
     * and SOS, look every other id up (a KeyError when it is out of range).
     */
    function Collect(ids: seq<int>): Result<seq<string>>
    {
      if ids == [] || ids[0] == eosId then Success([])
      else if ids[0] == padId || ids[0] == sosId then Collect(ids[1..])
      else if ids[0] !in idToTokenMap then Failure(KeyError(ids[0]))
      else Prepend([idToTokenMap[ids[0]]], Collect(ids[1..]))
    }

    /** `decode`: the collected tokens joined, with every "[PAD]" removed. */
    function Decoded(ids: seq<int>): Result<string>
    {
      match Collect(ids)
      case Failure(e) => Failure(e)
      case Success(tokens) => Success(RemovePad(Concat(tokens)))
    }

    method Decode(ids: seq<int>) returns (r: Result<string>)
      ensures r == Decoded(ids)
    {
      var tokens: seq<string> := [];
      var j := 0;
      assert ids[j..] == ids;
      PrependNothing(Collect(ids));
      while j < |ids|
        invariant 0 <= j <= |ids|
        invariant Collect(ids) == Prepend(tokens, Collect(ids[j..]))
      {
        var id := ids[j];
        DecodeStep(ids, j, tokens);
        if id == eosId {
          break;
        }
        if id != padId && id != sosId {
          if id !in idToTokenMap {
            return Failure(KeyError(id));
          }
          tokens := tokens + [idToTokenMap[id]];
        }
        j := j + 1;
      }
      assert tokens + [] == tokens;
      r := Success(RemovePad(Concat(tokens)));
    }

    /** One iteration of the `decode` loop keeps the tokens found so far in step with Collect. */
    lemma DecodeStep(ids: seq<int>, j: nat, tokens: seq<string>)
      requires j < |ids|
      requires Collect(ids) == Prepend(tokens, Collect(ids[j..]))
      ensures ids[j] == eosId ==> Collect(ids) == Success(tokens)
      ensures ids[j] != eosId && (ids[j] == padId || ids[j] == sosId) ==>
                Collect(ids) == Prepend(tokens, Collect(ids[j + 1..]))
      ensures ids[j] != eosId && ids[j] != padId && ids[j] != sosId && ids[j] !in idToTokenMap ==>
                Collect(ids) == Failure(KeyError(ids[j]))
      ensures ids[j] != eosId && ids[j] != padId && ids[j] != sosId && ids[j] in idToTokenMap ==>
                Collect(ids) == Prepend(tokens + [idToTokenMap[ids[j]]], Collect(ids[j + 1..]))
    {
      assert ids[j..][0] == ids[j] && ids[j..][1..] == ids[j + 1..];
      if ids[j] == eosId {
        assert tokens + [] == tokens;
      } else if ids[j] != padId && ids[j] != sosId && ids[j] in idToTokenMap {
        PrependTwice(tokens, [idToTokenMap[ids[j]]], Collect(ids[j + 1..]));
      }
    }
  }

  /** `token == '[PAD]'`. */
  predicate IsPadMarker(token: string)
  {
    token == PadMarker
  }

  /** Puts `front` before the tokens of a successful collection. */
  function Prepend(front: seq<string>, r: Result<seq<string>>): Result<seq<string>>
  {
    match r
    case Failure(e) => Failure(e)
    case Success(ts) => Success(front + ts)
  }

  lemma ConcatAssoc<T>(a: seq<T>, b: seq<T>, c: seq<T>)
    ensures (a + b) + c == a + (b + c)
  {
  }

  lemma PrependNothing(r: Result<seq<string>>)
    ensures Prepend([], r) == r
  {
    if r.Success? {
      assert [] + r.value == r.value;
    }
  }

  lemma PrependTwice(a: seq<string>, b: seq<string>, r: Result<seq<string>>)
    ensures Prepend(a, Prepend(b, r)) == Prepend(a + b, r)
  {
    if r.Success? {
      assert a + (b + r.value) == (a + b) + r.value;
    }
  }
}
