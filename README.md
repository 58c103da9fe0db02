# A verified model of the k-mer tokenizer and its string utilities

This project models, in Dafny, the core of `new_scripts_5_10/utils.py`. That file holds three parts of a sequence-to-sequence DNA/RNA model:

- `KMerTokenizer` turns nucleotide strings into integer ids and back. Its vocabulary is the three special tokens `[PAD]`, `[SOS]` and `[EOS]`, followed by every string of length k over the alphabet, in `itertools.product` order. It pads strings, cuts them into k-long chunks, maps chunks to ids, and decodes id sequences into strings.
- `levenshtein_distance` computes the edit distance with the rolling-row dynamic program.
- `visualize_mismatch` produces the three-line TARGET / PREDICTED / caret display.

The modules follow that structure:

- `Vocabulary` builds the k-mer list and proves where each k-mer sits: at position `Rank`, its value as a numeral in base |alphabet|.
- `Tokenizer` holds the tokenizer as an immutable value, because every field is set once by the constructor. `tokenize` and `decode` are loop methods proved against the specification functions `Chunked` and `Decoded`.
- `TokenizerProperties` proves what those operations guarantee: vocabulary layout, the lookup inverses, how padding chunks are dropped, how `decode` stops and fails, and the encode/decode round trips.
- `Levenshtein` and `Mismatch` hold the two utilities. `Text` (joining, repeating, marker removal, line splitting) and `Arith` are shared helpers.

The model follows what the code does, including where that differs from its own docstrings ("Padding is calculated to make the length a multiple of k", line 106) and from the intended behaviour of the filter:

- `pad_sequence` appends `(k - n % k) % k` copies of the five-character string `[PAD]`, not that many characters. The padded length is therefore `n + 5 * pad`, which need not be a multiple of k (`PaddedShape`, `PadExample`). Modulo k it is `-4 * (n % k)`, so it is aligned exactly when k divides `4 * (n % k)` (`PaddedAlignment`). For odd k such as the default 5, that means only when nothing is appended. For even k it can happen after padding: with k = 2, "A" becomes the 6-character "A[PAD]" (`PadEvenExample`).
- The `tokenize` filter compares single characters with `'[PAD]'`, which can never be equal, so the kept chunks are exactly those made of alphabet characters (`KeepsAlphabet`). When the alphabet has no `[`, `P`, `D` or `]` (the marker's `A` may be in it, as in the default "ATCG"), every chunk holding padding characters is dropped. For such alphabets `tokenize` discards the last `n % k` characters (`TokenizeDropsTail`), and the round trip returns the longest k-aligned prefix (`RoundTripTruncates`).
- Because every kept chunk is a vocabulary entry, `encode` never raises (`Encode`).
- The special ids are 0, 1 and 2 when the alphabet has no `[` (`SpecialIds`). The vocabulary has no duplicates when, in addition, the alphabet has no repeated character (`VocabularyDistinct`). These conditions are sufficient; the model does not claim they are necessary. The id maps are dict comprehensions, so a repeated token keeps its last index. `TokenToId` states this.

## Model

| member | source | states |
|---|---|---|
| `Tokenizer.KMerTokenizer.New` | new_scripts_5_10/utils.py:36-53 | the constructed tokenizer satisfies `Valid` (vocabulary = special tokens + all k-mers, both maps built from it, special ids looked up in the token map) and keeps k and the alphabet, which default to 5 and "ATCG" |
| `Tokenizer.IndexMapLookup` | new_scripts_5_10/utils.py:48 | the token→id map has exactly the vocabulary entries as keys, maps each to a position holding it, and no later position holds it (a later duplicate wins) |
| `Tokenizer.PositionMap` | new_scripts_5_10/utils.py:49 | the id→token map is defined exactly on the positions of the vocabulary and maps i to entry i |
| `Vocabulary.Words` | new_scripts_5_10/utils.py:55-57 | `_build_vocab`: the `itertools.product` list of k-mers, n^k (n the alphabet size) entries, duplicates included; its shape, order and membership are stated by `WordsShape`, `WordAtRank`, `RankOfWordAt` and `WordsMembership` |
| `Vocabulary.WordsShape` | new_scripts_5_10/utils.py:55-57 | every generated k-mer has length k and uses only alphabet characters |
| `Vocabulary.WordAtRank` | new_scripts_5_10/utils.py:55-57 | every string over the alphabet occurs in the product list, at the position given by its base-n (n the alphabet size) value |
| `Vocabulary.RankOfWordAt` | new_scripts_5_10/utils.py:55-57 | over a duplicate-free alphabet, the word at position i has value i (the product order is numeric order) |
| `Vocabulary.RankOfPrefixed` | new_scripts_5_10/utils.py:57 | over a duplicate-free alphabet, putting the j-th alphabet character in front of a word of value r gives value j·n^len + r, the block layout of `itertools.product` |
| `Vocabulary.PrefixedAt` | new_scripts_5_10/utils.py:57 | the product for one more position lays out one block of the shorter words per alphabet character, in alphabet order |
| `Vocabulary.WordsMembership` | new_scripts_5_10/utils.py:55-57 | a string is a generated k-mer iff it is k long and over the alphabet |
| `Vocabulary.WordsDistinct` | new_scripts_5_10/utils.py:55-57 | over a duplicate-free alphabet no k-mer is generated twice |
| `TokenizerProperties.VocabularyLayout` | new_scripts_5_10/utils.py:41-45 | the vocabulary has 3 + n^k (n the alphabet size) entries: `[PAD]`, `[SOS]`, `[EOS]` first, then k-long strings over the alphabet |
| `TokenizerProperties.VocabularyMembership` | new_scripts_5_10/utils.py:41-45 | a string is in the vocabulary iff it is a special token or a k-long string over the alphabet |
| `TokenizerProperties.KmerPosition` | new_scripts_5_10/utils.py:41-45 | a k-mer over the alphabet sits at position 3 + its rank |
| `TokenizerProperties.SpecialIds` | new_scripts_5_10/utils.py:44-53 | for an alphabet without `[`, the PAD, SOS and EOS ids are 0, 1 and 2, and no k-mer entry contains `[` |
| `TokenizerProperties.SpecialIdsDiffer` | new_scripts_5_10/utils.py:51-53 | the three special ids are pairwise different, for every alphabet |
| `TokenizerProperties.VocabularyDistinct` | new_scripts_5_10/utils.py:45 | over a duplicate-free alphabet without `[`, equal vocabulary entries have equal positions |
| `TokenizerProperties.SpecialNotKmer` | new_scripts_5_10/utils.py:45 | for an alphabet without `[`, no special token equals a k-mer entry |
| `Tokenizer.KMerTokenizer.Length` | new_scripts_5_10/utils.py:110-112 | the tokenizer's length is 3 + n^k (n the alphabet size) |
| `TokenizerProperties.DefaultTokenizer` | new_scripts_5_10/utils.py:36 | the tokenizer built with the default arguments has k = 5, the alphabet "ATCG" and 1027 entries |
| `TokenizerProperties.DefaultLength` | new_scripts_5_10/utils.py:110-112 | the default tokenizer (k = 5, "ATCG") has 1027 entries |
| `Tokenizer.KMerTokenizer.TokenToId` | new_scripts_5_10/utils.py:59-63 | succeeds iff the token is in the vocabulary, with an id whose entry is the token (the last such); otherwise ValueError carrying the token |
| `Tokenizer.KMerTokenizer.IdToToken` | new_scripts_5_10/utils.py:65-67 | succeeds iff the id is a vocabulary position, giving entry id; otherwise KeyError carrying the id |
| `TokenizerProperties.TokenIdToken` | new_scripts_5_10/utils.py:59-67 | looking up a vocabulary entry's id and then that id's token gives the entry back |
| `TokenizerProperties.IdTokenId` | new_scripts_5_10/utils.py:59-67 | over a duplicate-free alphabet without `[`, looking up an id's token and then that token's id gives the id back |
| `TokenizerProperties.KmerId` | new_scripts_5_10/utils.py:59-63 | over a duplicate-free alphabet, the id of a k-mer is 3 + its rank |
| `Tokenizer.KMerTokenizer.PadLengthBounds` | new_scripts_5_10/utils.py:107 | the pad count is below k, is zero iff the length is a multiple of k, and completes the length to a multiple of k |
| `Tokenizer.KMerTokenizer.PadSequence` | new_scripts_5_10/utils.py:105-108 | `pad_sequence`: the input followed by whole five-character markers, fewer than k of them; the exact length and the repeated marker are stated by `PaddedShape`, alignment by `PaddedAlignment` |
| `Tokenizer.KMerTokenizer.PaddedShape` | new_scripts_5_10/utils.py:105-108 | the padded string starts with the input, is 5 characters longer per pad count, equals the input iff its length is a multiple of k, and after the input holds `[PAD]` repeated: character i past the input is character i mod 5 of the marker |
| `TokenizerProperties.PaddedAlignment` | new_scripts_5_10/utils.py:105-108 | the padded length is a multiple of k exactly when k divides 4·(n mod k) |
| `TokenizerProperties.PadEvenExample` | new_scripts_5_10/utils.py:105-108 | with k = 2, "A" pads to "A[PAD]", 6 characters, a multiple of 2 although padding was appended |
| `TokenizerProperties.PadExample` | new_scripts_5_10/utils.py:105-108 | with k = 5, "AT" pads to "AT[PAD][PAD][PAD]", 17 characters, not a multiple of 5 |
| `Text.RepeatAt` | new_scripts_5_10/utils.py:108 | `'[PAD]' * n` is 5n characters, character i being character i mod 5 of the marker |
| `Text.PadRunShape` | new_scripts_5_10/utils.py:108 | n copies of the marker are 5n marker characters, each `A` followed by a `D` |
| `Tokenizer.KMerTokenizer.Tokenize` | new_scripts_5_10/utils.py:69-77 | the loop returns the kept k-chunks of the padded string at offsets 0, k, 2k, … in order (`Chunked`) |
| `Tokenizer.KMerTokenizer.TokenizeStep` | new_scripts_5_10/utils.py:73-76 | one stride keeps the chunks found so far in step with `Chunked` of the remainder |
| `Tokenizer.KMerTokenizer.KeepsAlphabet` | new_scripts_5_10/utils.py:75 | the chunk filter keeps a chunk iff all its characters are in the alphabet (the `'[PAD]'` comparison never holds) |
| `Tokenizer.KMerTokenizer.ChunkedShape` | new_scripts_5_10/utils.py:73-76 | every kept chunk is k long and over the alphabet |
| `Tokenizer.KMerTokenizer.ChunksInVocab` | new_scripts_5_10/utils.py:75-85 | every kept chunk is a vocabulary entry |
| `TokenizerProperties.ChunkedAppend` | new_scripts_5_10/utils.py:73-76 | chunking a k-aligned string followed by another is chunking each in turn |
| `TokenizerProperties.ChunkedAligned` | new_scripts_5_10/utils.py:69-77 | a k-aligned string over the alphabet splits into (length / k) chunks, all kept, that join back to the string |
| `TokenizerProperties.DropsPadCharacter` | new_scripts_5_10/utils.py:75 | a chunk containing `[`, `P`, `D` or `]` is dropped when the alphabet has none of them |
| `TokenizerProperties.PaddingChunksDropped` | new_scripts_5_10/utils.py:73-76 | for an alphabet without `[`, `P`, `D` and `]` and k >= 2, no chunk of a padding run is kept |
| `TokenizerProperties.PadSuffixDropped` | new_scripts_5_10/utils.py:73-76 | for an alphabet without `[`, `P`, `D` and `]` and k >= 2, any suffix of a padding run yields no chunk |
| `TokenizerProperties.DebrisDropped` | new_scripts_5_10/utils.py:69-77 | for an alphabet without `[`, `P`, `D` and `]`, a non-empty remainder shorter than k followed by at least one marker yields no chunk |
| `TokenizerProperties.TokenizeDropsTail` | new_scripts_5_10/utils.py:69-77 | for an alphabet without `[`, `P`, `D` and `]` ("ATCG" included), tokenizing gives the chunks of the longest k-aligned prefix only |
| `Tokenizer.KMerTokenizer.IdsOf` | new_scripts_5_10/utils.py:85 | the id list succeeds iff every chunk is in the vocabulary, with `token_to_id` of each chunk in order; otherwise ValueError for the first missing chunk, all chunks before it being in the vocabulary |
| `Tokenizer.KMerTokenizer.Encode` | new_scripts_5_10/utils.py:79-86 | never fails; SOS id, then `token_to_id` of every kept chunk, then EOS id |
| `TokenizerProperties.EncodeIds` | new_scripts_5_10/utils.py:79-86 | over a duplicate-free alphabet, each inner id of an encoding is 3 + the rank of its chunk |
| `TokenizerProperties.EncodedIdPlain` | new_scripts_5_10/utils.py:85 | for every alphabet, each inner id maps back to its chunk and is at least 3, past the special tokens |
| `Tokenizer.KMerTokenizer.Decode` | new_scripts_5_10/utils.py:88-103 | the loop returns `Decoded`: the looked-up tokens up to the first EOS, PAD/SOS skipped, joined, `[PAD]` removed; KeyError on an id without token |
| `Tokenizer.KMerTokenizer.DecodeStep` | new_scripts_5_10/utils.py:95-100 | one iteration stops at EOS, skips PAD/SOS, fails on an unknown id, or appends the token, in step with `Collect` |
| `TokenizerProperties.DecodeStopsAtEos` | new_scripts_5_10/utils.py:97-98 | everything after the first EOS is ignored |
| `TokenizerProperties.DecodeSkipsMarkers` | new_scripts_5_10/utils.py:99-100 | a PAD or SOS id (other than the EOS id) can be removed anywhere without changing the result |
| `TokenizerProperties.DecodeFailsIff` | new_scripts_5_10/utils.py:95-100 | decoding fails iff some id before the first EOS is neither PAD nor SOS and has no token, and then with KeyError of the first such id |
| `TokenizerProperties.CollectPlain` | new_scripts_5_10/utils.py:99-100 | non-special ids with tokens decode to those tokens, in order |
| `TokenizerProperties.CollectFramed` | new_scripts_5_10/utils.py:95-100 | ids framed by SOS and EOS, none special, decode to their tokens |
| `Text.RemovePadWithoutBracket` | new_scripts_5_10/utils.py:103 | removing `[PAD]` from a string without `[` leaves it unchanged |
| `TokenizerProperties.DecodeOfEncode` | new_scripts_5_10/utils.py:79-103 | for an alphabet without `[`, decoding an encoding gives the kept chunks of the padded string joined |
| `TokenizerProperties.RoundTrip` | new_scripts_5_10/utils.py:79-108 | a k-aligned string over an alphabet without `[` decodes back from its encoding exactly |
| `TokenizerProperties.RoundTripTruncates` | new_scripts_5_10/utils.py:69-108 | for an alphabet without `[`, `P`, `D` and `]` ("ATCG" included), any string over it decodes from its encoding to its longest k-aligned prefix |
| `Levenshtein.LevenshteinDistance` | new_scripts_5_10/utils.py:116-134 | the method returns the recursive edit distance `Distance(s1, s2)` |
| `Levenshtein.NextRow` | new_scripts_5_10/utils.py:125-132 | from the row of distances for s1[..i] the inner loop builds the row for s1[..i+1] |
| `Levenshtein.DistanceStep` | new_scripts_5_10/utils.py:128-131 | each table entry is the minimum of insertion, deletion and substitution from its neighbours |
| `Levenshtein.Min3` | new_scripts_5_10/utils.py:131 | the minimum is at most each argument and equal to one of them |
| `Levenshtein.DistanceSymmetric` | new_scripts_5_10/utils.py:118-119 | the distance does not depend on argument order, which justifies the swap |
| `Levenshtein.DistanceBounds` | new_scripts_5_10/utils.py:116-134 | the distance lies between the length difference and the larger length |
| `Levenshtein.DistanceZeroIff` | new_scripts_5_10/utils.py:116-134 | the distance is 0 iff the strings are equal |
| `Mismatch.VisualizeMismatch` | new_scripts_5_10/utils.py:136-154 | the method returns the three display lines joined by newlines |
| `Mismatch.PredictedRowAt` | new_scripts_5_10/utils.py:142-146 | the predicted row has one column per position, the predicted character or `+` |
| `Mismatch.PointerRowAt` | new_scripts_5_10/utils.py:147-150 | the caret row has one column per position, `^` where the filler-padded characters differ |
| `Mismatch.DisplayShape` | new_scripts_5_10/utils.py:136-154 | for every input, the display has three lines; the first is the labelled target; the other two are 11 + max length long with the predicted character (or `+`) and the caret or blank for position i at column 11 + i |
| `Mismatch.DisplaySplitsBack` | new_scripts_5_10/utils.py:154 | without newlines in the inputs, the joined display splits back into exactly its three lines |
| `Mismatch.NoCaretIffEqual` | new_scripts_5_10/utils.py:141-150 | when `+` is not in the target and `-` not in the prediction, there is no caret iff the strings are equal |
| `Mismatch.FirstDifference` | new_scripts_5_10/utils.py:141-150 | two different such strings differ, filler-padded, at some position below the larger length |
| `Mismatch.FillerHidesDifference` | new_scripts_5_10/utils.py:143-150 | without that condition a filler can hide a difference: "A" against "A-" shows no caret |
| `Text.SplitJoin` | new_scripts_5_10/utils.py:154 | lines without newlines joined with `\n` split back into the same lines |

## Left out

- `save_model` (new_scripts_5_10/utils.py:158-186) writes files and directories and calls into torch. It is I/O and is not modelled; this includes its `.pt`/`.pth` assertion.
- The torch tensor branch of `decode` (lines 90-91) and the `int(token_id)` coercion (line 96) are not modelled. Ids are plain integers here.
- The configuration presets (new_scripts_5_10/config.py, src/utils/get_config.py) are static hyperparameter tables and are not part of this model.
- The tokenizer is modelled for k >= 1 only. With k = 0, `pad_sequence` divides by zero (line 107). Negative k is also out of scope.
- Every tokenizer is immutable after construction, so it is a value; `Valid` records how the constructor built it. Python object identity and dict hashing are not modelled.
- The properties state their assumptions on the alphabet explicitly. Each assumes some of: no repeated characters, no `[`, or none of `[`, `P`, `D` and `]` (the marker's `A` is allowed), as its contract says. The tokenizer itself accepts any alphabet, and `New`, `TokenToId`, `IdToToken`, `Tokenize`, `Encode` and `Decode` are stated for every alphabet.
- TokenizerProperties.DecodeSkipsMarkers: requires the skipped id to differ from the EOS id. A `Valid` tokenizer always has that (`SpecialIdsDiffer`), but the lemma does not assume validity.
- `Levenshtein.NextRow` is the inner loop of `levenshtein_distance` as a separate method. `previous_row` starts as a Python `range`; here it is the equal sequence 0..|s2|.
- Strings are sequences of Dafny `char`s compared one by one, as Python compares characters of a `str`. No Unicode normalisation is involved in either.
