# Byte-level BPE tokenizer, modelled in Dafny

This project models the core of `gpt/tokenizer.py`, a GPT-2 style byte-level
byte-pair-encoding (BPE) tokenizer, and proves properties of the model.

- **Construction.** `Tokenizer.__init__` adds the UTF-8 bytes of each special
  token missing from the vocabulary under the id `len(vocab)`. It orders the
  special tokens longest first for the split pattern. It numbers the merges
  (the last occurrence of a merge wins) and inverts the vocabulary.
- **Merging.** `_merge_word` repeats two steps on one pretoken until no
  adjacent pair has a rank:
  - it finds the adjacent pair with the least merge rank, the first one on ties;
  - it merges every non-overlapping occurrence of that pair, left to right.

  It then looks up the id of every remaining unit. A unit without an id is a
  `KeyError`.
- **Facade.** `encode` concatenates the ids of the pretokens.
  `encode_iterable` concatenates the encodings of its texts. `decode`
  concatenates the bytes of the ids; an unknown id is a `KeyError`.
- **Byte table.** `gpt2_bytes_to_unicode` maps each of the 256 byte values to
  a printable character. The 188 printable bytes map to themselves. The other
  68 map to 256, 257, … in increasing byte order.

Files:

- `common.dfy`: bytes and tokens (`Bytes`), and results with the first error (`Results`).
- `utf8.dfy`: `str.encode("utf-8")` on Unicode scalar values (`Utf8`).
- `byte_unicode.dfy`: `gpt2_bytes_to_unicode` (`ByteUnicode`).
- `merge.dfy`: `get_pairs`, the rank table, one merge pass and the merge loop (`Merge`).
- `vocab.dfy`: the inverse vocabulary, id lookup, byte decoding, special-token insertion and the length order (`Vocab`).
- `tokenizer.dfy`: the `Tokenizer` class and the facade (`Tokenizers`).

Python's "raise `KeyError`" is modelled as `Err(UnknownToken(t))` or
`Err(UnknownId(i))` of the first failing lookup, in evaluation order.

## Model

| member | source | states |
|---|---|---|
| Bytes.Flatten | gpt/tokenizer.py:218 | `b"".join`; specified by `FlattenAppend` (it distributes over concatenation) and `FlattenSingles` |
| Bytes.FlattenAppend | gpt/tokenizer.py:218 | joining a concatenation of token lists joins the two joins |
| Bytes.Singles | gpt/tokenizer.py:170 | `[bytes([b]) for b in ·]`; specified by `FlattenSingles` |
| Bytes.FlattenSingles | gpt/tokenizer.py:170 | splitting bytes into single-byte units and joining them back gives the bytes |
| Merge.GetPairs | gpt/tokenizer.py:56-60 | there are `len-1` pairs (none for fewer than two units), and pair `i` is `(ts[i], ts[i+1])` |
| Merge.Ranks | gpt/tokenizer.py:93-95 | a pair has a rank iff it is a merge; its rank is an index of that merge, and no later index holds the same merge |
| Merge.RanksInjective | gpt/tokenizer.py:93-95 | distinct merges get distinct ranks, so `min` at line 183 never ties two distinct rules |
| Merge.MergeStep | gpt/tokenizer.py:184-194 | a merge pass never lengthens the list |
| Merge.MergeStepFlatten | gpt/tokenizer.py:184-194 | a merge pass keeps the concatenated bytes |
| Merge.MergeStepShrinks | gpt/tokenizer.py:184-194 | a merge pass is strictly shorter when the pair occurs, and returns the list unchanged when it does not |
| Merge.MergeStepAtMatch | gpt/tokenizer.py:188-190 | where the pair starts, the pass emits the merged unit and resumes two units later |
| Merge.MergeStepAtOther | gpt/tokenizer.py:191-193 | elsewhere, the pass copies the unit and resumes one unit later |
| Merge.MergeStepLeftmost | gpt/tokenizer.py:187-194 | when the pair first starts at `i`, the pass keeps the units before `i`, merges that occurrence, and continues after it: occurrences never overlap |
| Merge.GreedyExample | gpt/tokenizer.py:187-194 | `[a, a, a]` under the merge `(a, a)` becomes `[aa, a]` |
| Merge.Candidates | gpt/tokenizer.py:179-180 | a pair is a candidate iff it is adjacent in the list and has a rank |
| Merge.MinByRank | gpt/tokenizer.py:183 | the result is a candidate of least rank, and every candidate before it has a strictly larger rank (Python's `min` keeps the first) |
| Merge.BestPair | gpt/tokenizer.py:178-183 | there is no best pair iff no adjacent pair has a rank; otherwise the best pair is adjacent and has the least rank among ranked adjacent pairs |
| Merge.BestPairUnique | gpt/tokenizer.py:183 | with ranks built from a merge list, any ranked adjacent pair whose rank is at most the best pair's is the best pair itself |
| Merge.MergeAllRound | gpt/tokenizer.py:178-194 | with no candidates the loop returns the list; otherwise it merges the least-ranked candidate, which shortens the list, and goes on from there |
| Merge.MergeAll | gpt/tokenizer.py:172-194 | the merge loop terminates, keeps the concatenated bytes, never lengthens the list, and stops only when no adjacent pair of the result has a rank |
| Merge.MergeAllIdempotent | gpt/tokenizer.py:178-182 | merging an already merged list changes nothing |
| Merge.MergeAllStable | gpt/tokenizer.py:178-182 | a list with no ranked adjacent pair, including any list of fewer than two units, is returned unchanged |
| Merge.ExampleRanks | gpt/tokenizer.py:93-95 | the merges `(a,b), (b,c), (ab,c)` get the ranks 0, 1, 2 |
| Merge.RankPriorityExample | gpt/tokenizer.py:178-194 | under those merges, `[a, b, c]` first merges `(a,b)` (rank 0) and then `(ab,c)`, giving `[abc]` |
| Vocab.LastKey | gpt/tokenizer.py:97 | the largest id that carries the same bytes as a given id |
| Vocab.Inverse | gpt/tokenizer.py:97 | every byte string of the vocabulary gets an id, at least as large as any id carrying it; each id it gives maps back to those bytes (`vocab[vocab_to_id[v]] == v`) |
| Vocab.InverseKeys | gpt/tokenizer.py:97 | the inverse is keyed by exactly the vocabulary's values |
| Vocab.InverseOfInjective | gpt/tokenizer.py:97 | for a vocabulary without duplicate values the inverse gives back every id: `vocab_to_id[vocab[k]] == k` |
| Vocab.LookupIds | gpt/tokenizer.py:195 | succeeds iff every unit has an id, and then gives the id of each unit in order; otherwise the error names the first unit without an id |
| Vocab.DecodeBytes | gpt/tokenizer.py:218 | succeeds iff every id is in the vocabulary, and its error names the first unknown id |
| Vocab.DecodeBytesAppend | gpt/tokenizer.py:218 | decoding a concatenation of id lists joins the two decodings |
| Vocab.DecodeLookupIds | gpt/tokenizer.py:97 | decoding the ids that the inverse vocabulary gives for some units returns the units' bytes |
| Vocab.AddSpecialTokens | gpt/tokenizer.py:81-85 | the loop over the special tokens as a fold of `AddSpecialToken`; specified by `AddSpecialTokensDense` and `SparseVocabOverwrites` |
| Vocab.AddSpecialToken | gpt/tokenizer.py:83-85 | a token already present leaves the vocabulary unchanged; a new one is stored under `len(vocab)`, and every other id keeps its bytes |
| Vocab.AddSpecialTokenDense | gpt/tokenizer.py:83-85 | on ids `0..N-1` the insertion keeps the ids dense and adds exactly one entry for a new token |
| Vocab.AddSpecialTokensDense | gpt/tokenizer.py:81-85 | on ids `0..N-1` the ids stay dense, old entries are kept, and every special token is present; new values are specials only, and at most one id is added per special |
| Vocab.SparseVocabOverwrites | gpt/tokenizer.py:84-85 | on ids that are not `0..N-1`, `vocab[len(vocab)]` overwrites an existing entry |
| Vocab.InsertByLength | gpt/tokenizer.py:87 | inserting into a list ordered by non-increasing length keeps it ordered, and adds exactly the element |
| Vocab.SortByLengthDesc | gpt/tokenizer.py:87 | the result is ordered by non-increasing length and is a permutation of the input |
| Vocab.SortByLengthDescStable | gpt/tokenizer.py:87 | the sort is stable: tokens of equal length keep their order |
| Vocab.LongestFirstExample | gpt/tokenizer.py:86-88 | of two special tokens where one is a prefix of the other, the longer is tried first |
| ByteUnicode.ListsBeforeStart | gpt/tokenizer.py:38-43 | before the loop the lists hold each printable byte once, paired with itself |
| ByteUnicode.BytesBeforeStep | gpt/tokenizer.py:44-50 | each iteration appends a byte iff it is missing, with code point `256 + n`, keeping every byte at most once |
| ByteUnicode.AppendedInOrderStep | gpt/tokenizer.py:44-50 | each iteration keeps the printable list in front and the appended bytes increasing and below the next byte |
| ByteUnicode.ListsBeforeStep | gpt/tokenizer.py:44-50 | one iteration keeps the loop invariant: the bytes and code points so far, and their order |
| ByteUnicode.ByteOrder | gpt/tokenizer.py:38-50 | after the loop every byte 0..255 is in `bs` exactly once, and `cs` holds each one's code point: itself if printable, otherwise 256 plus the count of non-printable bytes below it; `bs` starts with the printable list and the appended bytes follow in increasing order |
| ByteUnicode.BytesToUnicode | gpt/tokenizer.py:38-53 | the keys are exactly 0..255; printable bytes map to themselves and the others to 256 plus the count of non-printable bytes below them; no two bytes share a character |
| ByteUnicode.CharOf | gpt/tokenizer.py:51 | `chr(c)` has code point `c` |
| ByteUnicode.CodePointInjective | gpt/tokenizer.py:44-49 | distinct bytes get distinct code points |
| ByteUnicode.NonPrintableBelowClosedForm | gpt/tokenizer.py:38-49 | the count of non-printable bytes below `b` in closed form: bytes 0-32, 127-160 and 173 |
| ByteUnicode.PrintableList | gpt/tokenizer.py:38 | the three ranges of line 38; specified by `PrintableListExact` |
| ByteUnicode.CodePoint | gpt/tokenizer.py:44-52 | the code point of each byte in the table; specified by `BytesToUnicode`, `CodePointInjective`, `NonPrintableBelowClosedForm` and `TableShape` |
| ByteUnicode.PrintableListExact | gpt/tokenizer.py:38 | the initial list holds exactly the 188 printable bytes, in increasing order |
| ByteUnicode.TableShape | gpt/tokenizer.py:36-49 | 188 printable bytes; the 68 others get code points 256..323 |
| ByteUnicode.DocumentedExamples | gpt/tokenizer.py:20-30 | byte 0 maps to U+0100 `Ā`, byte 32 to U+0120 `Ġ`, and byte 33 to `!` |
| Utf8.Encode | gpt/tokenizer.py:170 | `str.encode("utf-8")` (also at line 83): between one and four bytes per character |
| Utf8.EncodeChar | gpt/tokenizer.py:83 | one to four bytes: ASCII encodes to itself; only a one-byte encoding has a lead byte below 0x80; continuation bytes lie in 0x80..0xBF |
| Utf8.EncodeAppend | gpt/tokenizer.py:170 | encoding distributes over string concatenation |
| Tokenizers.InsertSpecialTokens | gpt/tokenizer.py:81-85 | the loop over the special tokens leaves the vocabulary that adding them one by one in order gives |
| Tokenizers.MergePairAtMatch | gpt/tokenizer.py:188-190 | merging at `index` keeps the inner loop's invariant |
| Tokenizers.MergePairAtOther | gpt/tokenizer.py:191-193 | copying the unit at `index` keeps the inner loop's invariant |
| Tokenizers.MergePair | gpt/tokenizer.py:184-194 | one pass of the inner loop computes the left-to-right, non-overlapping merge of the best pair |
| Tokenizers.Tokenizer.constructor | gpt/tokenizer.py:69-97 | the tables are consistent: ranks of the merges, inverse of the vocabulary, its size, and longest-first special tokens or none; the vocabulary is the input plus the missing specials |
| Tokenizers.ConstructedHoldsSpecials | gpt/tokenizer.py:81-85 | a tokenizer built from ids `0..N-1` has dense ids and holds every special token |
| Tokenizers.Tokenizer.MergeWord | gpt/tokenizer.py:172-195 | the nested loops compute the ids of the fully merged pretoken; there are at most as many ids as input units, and they decode back to the pretoken's bytes |
| Tokenizers.MatchUnits | gpt/tokenizer.py:169-170 | each match becomes one pretoken of single-byte units holding its UTF-8 bytes |
| Tokenizers.Tokenizer.Chunks | gpt/tokenizer.py:157-160 | the split of the text when there is a split pattern, otherwise the text alone; specified by `EncodeDecodeRoundTrip`, which needs the chunks to join back to the text |
| Tokenizers.Tokenizer.Pretokenize | gpt/tokenizer.py:152-170 | the pretokens of the chunks; specified by `PretokenizeChunk`, `PretokenizeChunksAppend` and `PretokenizeChunksBytes` |
| Tokenizers.Tokenizer.PretokenizeChunks | gpt/tokenizer.py:161-170 | every pretoken is either one unit holding a special token's bytes or a list of single-byte units; `PretokenizeChunk` states the rule for each chunk |
| Tokenizers.PretokenizeChunk | gpt/tokenizer.py:161-170 | a chunk that is a special token gives exactly one pretoken, its UTF-8 bytes as one unit; any other chunk gives one pretoken per match, of single-byte units holding that match's UTF-8 bytes |
| Tokenizers.PretokenizeChunksAppend | gpt/tokenizer.py:161-170 | chunks are pretokenized independently of each other |
| Tokenizers.PretokenizeChunksBytes | gpt/tokenizer.py:161-170 | when the matches cover each ordinary chunk, the pretokens hold exactly the UTF-8 bytes of the chunks |
| Tokenizers.EncodeWords | gpt/tokenizer.py:208 | the `sum` of `_merge_word` over the pretokens; specified by `EncodeWordsOk`, `EncodeWordsIds`, `EncodeWordsAppend` and `EncodeWordsDecodes` |
| Tokenizers.EncodeWordsOk | gpt/tokenizer.py:195-208 | encoding succeeds iff every pretoken's merged units all have ids |
| Tokenizers.EncodeWordsIds | gpt/tokenizer.py:195-208 | every id returned is a value of `vocab_to_id` |
| Tokenizers.EncodeWordsAppend | gpt/tokenizer.py:208 | pretokens are encoded independently: encoding a concatenation joins the encodings |
| Tokenizers.EncodeWordsDecodes | gpt/tokenizer.py:195-218 | decoding what the pretokens encode to gives back their bytes |
| Tokenizers.Tokenizer.Encode | gpt/tokenizer.py:197-208 | in a constructed tokenizer every id returned is an id of the vocabulary |
| Tokenizers.Tokenizer.EncodeIterable | gpt/tokenizer.py:210-211 | succeeds iff every text encodes |
| Tokenizers.EncodeIterableAppend | gpt/tokenizer.py:210-211 | encoding a concatenation of text lists joins their encodings: no merge crosses a text boundary |
| Tokenizers.EncodeIterableSingle | gpt/tokenizer.py:210-211 | one text alone encodes as `encode` does |
| Tokenizers.Tokenizer.Decode | gpt/tokenizer.py:213-218 | succeeds iff every id is in the vocabulary; otherwise the error names an unknown id |
| Tokenizers.NoMergeAcrossSpecialToken | gpt/tokenizer.py:161-163 | a special token in the input becomes exactly its own id; the text before it and the text after it encode as if alone |
| Tokenizers.EncodeDecodeRoundTrip | gpt/tokenizer.py:197-218 | in a constructed tokenizer whose split and matches cover the text, decoding the encoding gives back the text's UTF-8 bytes |

## Left out

- The regular expressions are not modelled. `re.split(self.split_pattern, ·)` and `re.finditer(PRETOKENIZE_REGEX, ·)` are function parameters (`split`, `matchesOf`). The split pattern is kept as its list of alternatives in the order the pattern tries them, not as `re.escape`d text. The round trip assumes that the split and the matches cover the text.
- `decode`'s final `.decode("utf-8", errors="replace")` is not modelled: `Decode` returns the concatenated bytes.
- `from_files` is not modelled: it does file I/O and JSON parsing. `gpt2_bytes_to_unicode`, which it relies on, is modelled.
- `lru_cache` and the quadratic cost of `sum(…, [])` are not modelled; neither changes results.
- Vocab.Inverse: a Python dict comprehension keeps, for duplicated byte values, the id inserted last. A Dafny map has no insertion order, so the model keeps the largest id. The two agree when ids were inserted in increasing order, as the appends at `len(vocab)` are.
- Tokenizers.Tokenizer.constructor: the source mutates the caller's `vocab` dict in place, and `self.vocab` aliases it. The model computes the new map and stores it in the field; the caller's map is a value and cannot see the change.
- Tokenizers.Tokenizer.constructor: `special_tokens=None` is not modelled; an empty list stands for "no special tokens".
- Tokenizers.Tokenizer.MergeWord: the inner `while` loop is the separate method `MergePair`, called once per round.
- Tokenizers.Tokenizer.constructor: the loop over the special tokens is the separate method `InsertSpecialTokens`.
- ByteUnicode.BytesToUnicode: the loop that builds `bs` and `cs` is the separate method `ByteOrder`.
- Utf8.EncodeChar: strings are sequences of Unicode scalar values, so lone surrogates cannot occur. For those, Python's `encode("utf-8")` would raise an error.
- Lengths in the special-token sort are counted in code points, as in Python's `len(str)`.
