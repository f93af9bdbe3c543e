/** The tokenizer: construction of its tables, the per-pretoken merge loop, and
    the `encode` / `encode_iterable` / `decode` facade. */
module Tokenizers {
  import opened Bytes
  import opened Results
  import Utf8
  import opened Merge
  import opened Vocab

  /** Concatenation of a list of strings, `"".join(xs)`: what the regular
      expressions' pieces must give back for the pieces to cover a text. */
  function JoinStrings(xs: seq<string>): string
  {
    if |xs| == 0 then "" else xs[0] + JoinStrings(xs[1..])
  }

  /** The units of one regular-expression match: its UTF-8 bytes, one per unit. */
  function MatchUnits(words: seq<string>): (r: seq<seq<Token>>)
    ensures |r| == |words|
    ensures forall i :: 0 <= i < |r| ==> Flatten(r[i]) == Utf8.Encode(words[i])
    ensures forall i, j :: 0 <= i < |r| && 0 <= j < |r[i]| ==> |r[i][j]| == 1
  {
    var r := seq(|words|, i requires 0 <= i < |words| => Singles(Utf8.Encode(words[i])));
    assert forall i :: 0 <= i < |r| ==> Flatten(r[i]) == Utf8.Encode(words[i]) by {
      forall i | 0 <= i < |r| ensures Flatten(r[i]) == Utf8.Encode(words[i]) {
        FlattenSingles(Utf8.Encode(words[i]));
      }
    }
    r
  }

  /** All the bytes of a list of pretokens, in order. */
  function WordBytes(words: seq<seq<Token>>): Token
  {
    if |words| == 0 then [] else Flatten(words[0]) + WordBytes(words[1..])
  }

  lemma {:induction false} WordBytesAppend(a: seq<seq<Token>>, b: seq<seq<Token>>)
    ensures WordBytes(a + b) == WordBytes(a) + WordBytes(b)
  {
    if |a| == 0 {
      assert a + b == b;
    } else {
      assert (a + b)[1..] == a[1..] + b;
      WordBytesAppend(a[1..], b);
    }
  }

  lemma {:induction false} WordBytesOfMatches(words: seq<string>)
    ensures WordBytes(MatchUnits(words)) == Utf8.Encode(JoinStrings(words))
  {
    if |words| > 0 {
      assert MatchUnits(words)[1..] == MatchUnits(words[1..]);
      WordBytesOfMatches(words[1..]);
      Utf8.EncodeAppend(words[0], JoinStrings(words[1..]));
    }
  }

  /** `sum((_merge_word(w) for w in words), [])`, where `_merge_word` is given by
      the rank table and `vocab_to_id`: the first `KeyError` in order, or the
      ids of all words, concatenated. */
  function EncodeWords(ranks: map<Pair, nat>, vocabToId: map<Token, int>, words: seq<seq<Token>>): Result<seq<int>>
  {
    if |words| == 0 then Ok([])
    else Join(LookupIds(vocabToId, MergeAll(ranks, words[0])), EncodeWords(ranks, vocabToId, words[1..]))
  }

  /** Encoding succeeds iff every pretoken merges into units that all have ids. */
  lemma {:induction false} EncodeWordsOk(ranks: map<Pair, nat>, vocabToId: map<Token, int>, words: seq<seq<Token>>)
    ensures EncodeWords(ranks, vocabToId, words).Ok? <==> forall w :: w in words ==> LookupIds(vocabToId, MergeAll(ranks, w)).Ok?
  {
    if |words| > 0 {
      EncodeWordsOk(ranks, vocabToId, words[1..]);
      var first := LookupIds(vocabToId, MergeAll(ranks, words[0]));
      assert EncodeWords(ranks, vocabToId, words) == Join(first, EncodeWords(ranks, vocabToId, words[1..]));
      if forall w :: w in words ==> LookupIds(vocabToId, MergeAll(ranks, w)).Ok? {
        assert words[0] in words;
        forall w | w in words[1..]
          ensures LookupIds(vocabToId, MergeAll(ranks, w)).Ok?
        {
          assert w in words;
        }
      } else {
        var w :| w in words && !LookupIds(vocabToId, MergeAll(ranks, w)).Ok?;
        if w != words[0] {
          assert w in words[1..];
        }
      }
    }
  }

  /** Every id the words encode to is an id that `vocab_to_id` gives. */
  lemma {:induction false} EncodeWordsIds(ranks: map<Pair, nat>, vocabToId: map<Token, int>, words: seq<seq<Token>>)
    requires EncodeWords(ranks, vocabToId, words).Ok?
    ensures forall id :: id in EncodeWords(ranks, vocabToId, words).value ==> id in vocabToId.Values
  {
    if |words| > 0 {
      var first := LookupIds(vocabToId, MergeAll(ranks, words[0]));
      var rest := EncodeWords(ranks, vocabToId, words[1..]);
      assert words[0] in words;
      EncodeWordsIds(ranks, vocabToId, words[1..]);
      forall id | id in first.value
        ensures id in vocabToId.Values
      {
        var i :| 0 <= i < |first.value| && first.value[i] == id;
        assert id == vocabToId[MergeAll(ranks, words[0])[i]];
      }
    }
  }

  lemma JoinAssociative<T>(a: Result<seq<T>>, b: Result<seq<T>>, c: Result<seq<T>>)
    ensures Join(Join(a, b), c) == Join(a, Join(b, c))
  {
    if a.Ok? && b.Ok? && c.Ok? {
      assert (a.value + b.value) + c.value == a.value + (b.value + c.value);
    }
  }

  lemma JoinUnit<T>(a: Result<seq<T>>)
    ensures Join(Ok([]), a) == a && Join(a, Ok([])) == a
  {
    if a.Ok? {
      assert [] + a.value == a.value && a.value + [] == a.value;
    }
  }

  /** Pretokens are encoded independently: encoding a concatenation of pretoken
      lists joins the two encodings. */
  lemma {:induction false} EncodeWordsAppend(ranks: map<Pair, nat>, vocabToId: map<Token, int>, a: seq<seq<Token>>, b: seq<seq<Token>>)
    ensures EncodeWords(ranks, vocabToId, a + b) == Join(EncodeWords(ranks, vocabToId, a), EncodeWords(ranks, vocabToId, b))
  {
    if |a| == 0 {
      assert a + b == b;
      JoinUnit(EncodeWords(ranks, vocabToId, b));
    } else {
      assert (a + b)[0] == a[0];
      assert (a + b)[1..] == a[1..] + b;
      EncodeWordsAppend(ranks, vocabToId, a[1..], b);
      JoinAssociative(LookupIds(vocabToId, MergeAll(ranks, a[0])), EncodeWords(ranks, vocabToId, a[1..]), EncodeWords(ranks, vocabToId, b));
    }
  }

  /** Decoding what the words encode to gives back the words' bytes. */
  lemma {:induction false} EncodeWordsDecodes(ranks: map<Pair, nat>, vocab: map<int, Token>, words: seq<seq<Token>>)
    requires EncodeWords(ranks, Inverse(vocab), words).Ok?
    ensures DecodeBytes(vocab, EncodeWords(ranks, Inverse(vocab), words).value) == Ok(WordBytes(words))
  {
    if |words| > 0 {
      var first := LookupIds(Inverse(vocab), MergeAll(ranks, words[0]));
      var rest := EncodeWords(ranks, Inverse(vocab), words[1..]);
      assert first.Ok? && rest.Ok?;
      EncodeWordsDecodes(ranks, vocab, words[1..]);
      DecodeLookupIds(vocab, MergeAll(ranks, words[0]));
      DecodeBytesAppend(vocab, first.value, rest.value);
    }
  }

  /** The loop of `__init__` over the special tokens: the bytes of each one not
      yet a value of the vocabulary are added under the id `len(vocab)`. */
  method InsertSpecialTokens(vocab: map<int, Token>, specialTokens: seq<string>) returns (v: map<int, Token>)
    ensures v == AddSpecialTokens(vocab, specialTokens)
  {
    v := vocab;
    for i := 0 to |specialTokens|
      invariant AddSpecialTokens(v, specialTokens[i..]) == AddSpecialTokens(vocab, specialTokens)
    {
      var encoded := Utf8.Encode(specialTokens[i]);
      assert specialTokens[i..][1..] == specialTokens[i + 1..];
      if encoded !in v.Values {
        v := v[|v| := encoded];
      }
    }
    assert specialTokens[|specialTokens|..] == [];
  }

  /** An iteration of the inner loop of `_merge_word` that merges at `index`
      keeps its invariant. */
  lemma MergePairAtMatch(tokens: seq<Token>, bestPair: Pair, index: nat, newTokens: seq<Token>)
    requires index + 1 < |tokens| && (tokens[index], tokens[index + 1]) == bestPair
    requires newTokens + MergeStep(tokens[index..], bestPair) == MergeStep(tokens, bestPair)
    ensures (newTokens + [bestPair.0 + bestPair.1]) + MergeStep(tokens[index + 2..], bestPair) == MergeStep(tokens, bestPair)
  {
    MergeStepAtMatch(tokens, index, bestPair);
    assert (newTokens + [bestPair.0 + bestPair.1]) + MergeStep(tokens[index + 2..], bestPair)
        == newTokens + ([bestPair.0 + bestPair.1] + MergeStep(tokens[index + 2..], bestPair));
  }

  /** An iteration of the inner loop of `_merge_word` that copies the unit at
      `index` keeps its invariant. */
  lemma MergePairAtOther(tokens: seq<Token>, bestPair: Pair, index: nat, newTokens: seq<Token>)
    requires index < |tokens| && !(index + 1 < |tokens| && (tokens[index], tokens[index + 1]) == bestPair)
    requires newTokens + MergeStep(tokens[index..], bestPair) == MergeStep(tokens, bestPair)
    ensures (newTokens + [tokens[index]]) + MergeStep(tokens[index + 1..], bestPair) == MergeStep(tokens, bestPair)
  {
    MergeStepAtOther(tokens, index, bestPair);
    assert (newTokens + [tokens[index]]) + MergeStep(tokens[index + 1..], bestPair)
        == newTokens + ([tokens[index]] + MergeStep(tokens[index + 1..], bestPair));
  }

  /** The inner loop of `_merge_word`: one left-to-right pass that replaces each
      non-overlapping occurrence of `bestPair` by the merged token. */
  method MergePair(tokens: seq<Token>, bestPair: Pair) returns (newTokens: seq<Token>)
    ensures newTokens == MergeStep(tokens, bestPair)
  {
    var newToken := bestPair.0 + bestPair.1;
    newTokens := [];
    var index := 0;
    assert tokens[index..] == tokens;
    while index < |tokens|
      invariant 0 <= index <= |tokens|
      invariant newTokens + MergeStep(tokens[index..], bestPair) == MergeStep(tokens, bestPair)
    {
      if index + 1 < |tokens| && (tokens[index], tokens[index + 1]) == bestPair {
        MergePairAtMatch(tokens, bestPair, index, newTokens);
        newTokens := newTokens + [newToken];
        index := index + 2;
      } else {
        MergePairAtOther(tokens, bestPair, index, newTokens);
        newTokens := newTokens + [tokens[index]];
        index := index + 1;
      }
    }
    assert tokens[index..] == [];
  }

  class Tokenizer {
    var vocab: map<int, Token>
    var merges: seq<Pair>
    var specialTokens: seq<string>
    /** The alternatives of the special-token split pattern, in the order the
        pattern tries them; `None` when there are no special tokens. */
    var splitPattern: Option<seq<string>>
    var mergeRanks: map<Pair, nat>
    var vocabSize: nat
    var vocabToId: map<Token, int>

    /** The tables as construction leaves them. */
    ghost predicate Valid()
      reads this
    {
      && mergeRanks == Ranks(merges)
      && vocabToId == Inverse(vocab)
      && vocabSize == |vocab|
      && splitPattern == (if |specialTokens| == 0 then None else Some(SortByLengthDesc(specialTokens)))
    }

    /** `__init__`: special tokens missing from `vocab` are added to it, then the
        rank table and the inverse vocabulary are built. */
    constructor (vocab: map<int, Token>, merges: seq<Pair>, specialTokens: seq<string>)
      ensures Valid()
      ensures this.vocab == AddSpecialTokens(vocab, specialTokens)
      ensures this.merges == merges && this.specialTokens == specialTokens
    {
      var v := InsertSpecialTokens(vocab, specialTokens);
      this.vocab := v;
      this.merges := merges;
      this.specialTokens := specialTokens;
      splitPattern := if |specialTokens| > 0 then Some(SortByLengthDesc(specialTokens)) else None;
      mergeRanks := Ranks(merges);
      vocabSize := |v|;
      vocabToId := Inverse(v);
    }

    /** `_merge_word`: merge the best-ranked adjacent pair until none has a rank,
        then look up the id of every remaining unit. */
    method MergeWord(word: seq<Token>) returns (ids: Result<seq<int>>)
      ensures ids == LookupIds(vocabToId, MergeAll(mergeRanks, word))
      ensures ids.Ok? ==> |ids.value| <= |word|
      ensures Valid() && ids.Ok? ==> DecodeBytes(vocab, ids.value) == Ok(Flatten(word))
    {
      var ranks := mergeRanks;
      var tokens := word;
      while true
        invariant MergeAll(ranks, tokens) == MergeAll(ranks, word)
        decreases |tokens|
      {
        MergeAllRound(ranks, tokens);
        var candidates := Candidates(GetPairs(tokens), ranks);
        if |candidates| == 0 {
          break;
        }
        var bestPair := MinByRank(candidates, ranks);
        tokens := MergePair(tokens, bestPair);
      }
      ids := LookupIds(vocabToId, tokens);
      if Valid() && ids.Ok? {
        DecodeLookupIds(vocab, tokens);
      }
    }

    /** The chunks `pretokenize` walks: the special-token split of `text`, where
        `split` stands for `re.split(self.split_pattern, ·)`, or `text` alone. */
    function Chunks(text: string, split: string -> seq<string>): seq<string>
      reads this
    {
      if splitPattern.Some? then split(text) else [text]
    }

    /** `pretokenize` after the split: a chunk equal to a special token is one
        pretoken of one unit; any other chunk gives one pretoken per match,
        where `matchesOf` stands for `re.finditer(PRETOKENIZE_REGEX, ·)`. */
    function PretokenizeChunks(chunks: seq<string>, matchesOf: string -> seq<string>): (r: seq<seq<Token>>)
      reads this
      ensures forall i :: 0 <= i < |r| ==>
                (|r[i]| == 1 && exists s :: s in specialTokens && r[i][0] == Utf8.Encode(s))
                || (forall j :: 0 <= j < |r[i]| ==> |r[i][j]| == 1)
    {
      if |chunks| == 0 then []
      else
        var first := if chunks[0] in specialTokens then [[Utf8.Encode(chunks[0])]] else MatchUnits(matchesOf(chunks[0]));
        first + PretokenizeChunks(chunks[1..], matchesOf)
    }

    /** `pretokenize(text)` as a list. */
    function Pretokenize(text: string, split: string -> seq<string>, matchesOf: string -> seq<string>): seq<seq<Token>>
      reads this
    {
      PretokenizeChunks(Chunks(text, split), matchesOf)
    }

    /** `encode`: the merged ids of every pretoken, concatenated. */
    function Encode(text: string, split: string -> seq<string>, matchesOf: string -> seq<string>): (r: Result<seq<int>>)
      reads this
      ensures Valid() && r.Ok? ==> forall id :: id in r.value ==> id in vocab
    {
      var r := EncodeWords(mergeRanks, vocabToId, Pretokenize(text, split, matchesOf));
      if r.Ok? then
        EncodeWordsIds(mergeRanks, vocabToId, Pretokenize(text, split, matchesOf));
        r
      else r
    }

    /** `encode_iterable`: the encodings of the texts, concatenated with no separator. */
    function EncodeIterable(texts: seq<string>, split: string -> seq<string>, matchesOf: string -> seq<string>): (r: Result<seq<int>>)
      reads this
      ensures r.Ok? <==> forall i :: 0 <= i < |texts| ==> Encode(texts[i], split, matchesOf).Ok?
    {
      if |texts| == 0 then Ok([])
      else
        Join(Encode(texts[0], split, matchesOf), EncodeIterable(texts[1..], split, matchesOf))
    }

    /** `decode` up to the UTF-8 decoding: the bytes of the ids, concatenated. */
    function Decode(ids: seq<int>): (r: Result<Token>)
      reads this
      ensures r.Ok? <==> forall i :: 0 <= i < |ids| ==> ids[i] in vocab
      ensures r.Err? ==> exists i :: 0 <= i < |ids| && ids[i] !in vocab && r.error == UnknownId(ids[i])
    {
      DecodeBytes(vocab, ids)
    }
  }

  /** Splitting a chunk list and pretokenizing the parts gives the same
      pretokens as pretokenizing the whole list. */
  lemma {:induction false} PretokenizeChunksAppend(t: Tokenizer, a: seq<string>, b: seq<string>, matchesOf: string -> seq<string>)
    ensures t.PretokenizeChunks(a + b, matchesOf) == t.PretokenizeChunks(a, matchesOf) + t.PretokenizeChunks(b, matchesOf)
  {
    if |a| == 0 {
      assert a + b == b;
    } else {
      assert (a + b)[0] == a[0];
      assert (a + b)[1..] == a[1..] + b;
      PretokenizeChunksAppend(t, a[1..], b, matchesOf);
    }
  }

  /** One chunk: a special token is one pretoken holding its bytes as a single
      unit; any other chunk gives one pretoken per match, of single-byte units
      holding that match's UTF-8 bytes. */
  lemma PretokenizeChunk(t: Tokenizer, c: string, matchesOf: string -> seq<string>)
    ensures c in t.specialTokens ==> t.PretokenizeChunks([c], matchesOf) == [[Utf8.Encode(c)]]
    ensures c !in t.specialTokens ==> |t.PretokenizeChunks([c], matchesOf)| == |matchesOf(c)|
    ensures c !in t.specialTokens ==> forall i :: 0 <= i < |matchesOf(c)| ==>
              Flatten(t.PretokenizeChunks([c], matchesOf)[i]) == Utf8.Encode(matchesOf(c)[i])
    ensures c !in t.specialTokens ==> forall i, j :: 0 <= i < |matchesOf(c)| && 0 <= j < |t.PretokenizeChunks([c], matchesOf)[i]| ==>
              |t.PretokenizeChunks([c], matchesOf)[i][j]| == 1
  {
    var first := if c in t.specialTokens then [[Utf8.Encode(c)]] else MatchUnits(matchesOf(c));
    assert [c][1..] == [];
    assert t.PretokenizeChunks([c], matchesOf) == first + [];
    assert first + [] == first;
  }

  /** When each ordinary chunk is covered by its matches, the pretokens hold
      exactly the UTF-8 bytes of the chunks, in order. */
  lemma {:induction false} PretokenizeChunksBytes(t: Tokenizer, chunks: seq<string>, matchesOf: string -> seq<string>)
    requires forall i :: 0 <= i < |chunks| && chunks[i] !in t.specialTokens ==> JoinStrings(matchesOf(chunks[i])) == chunks[i]
    ensures WordBytes(t.PretokenizeChunks(chunks, matchesOf)) == Utf8.Encode(JoinStrings(chunks))
  {
    if |chunks| > 0 {
      var c := chunks[0];
      var first := if c in t.specialTokens then [[Utf8.Encode(c)]] else MatchUnits(matchesOf(c));
      assert WordBytes(first) == Utf8.Encode(c) by {
        if c in t.specialTokens {
          assert first[1..] == [] && [Utf8.Encode(c)][1..] == [];
          assert Flatten([Utf8.Encode(c)]) == Utf8.Encode(c) + [];
          assert WordBytes(first) == Flatten([Utf8.Encode(c)]) + [];
        } else {
          WordBytesOfMatches(matchesOf(c));
        }
      }
      assert forall i :: 0 <= i < |chunks[1..]| ==> chunks[1..][i] == chunks[i + 1];
      PretokenizeChunksBytes(t, chunks[1..], matchesOf);
      WordBytesAppend(first, t.PretokenizeChunks(chunks[1..], matchesOf));
      Utf8.EncodeAppend(c, JoinStrings(chunks[1..]));
    }
  }

  /** A special token in the input becomes exactly its own id, never merged with
      its neighbours, and the text on either side is encoded as if alone. */
  lemma NoMergeAcrossSpecialToken(t: Tokenizer, before: seq<string>, s: string, after: seq<string>, matchesOf: string -> seq<string>)
    requires s in t.specialTokens && Utf8.Encode(s) in t.vocabToId
    ensures EncodeWords(t.mergeRanks, t.vocabToId, t.PretokenizeChunks(before + [s] + after, matchesOf))
         == Join(Join(EncodeWords(t.mergeRanks, t.vocabToId, t.PretokenizeChunks(before, matchesOf)),
                      Ok([t.vocabToId[Utf8.Encode(s)]])),
                 EncodeWords(t.mergeRanks, t.vocabToId, t.PretokenizeChunks(after, matchesOf)))
  {
    var ranks, ids := t.mergeRanks, t.vocabToId;
    PretokenizeChunksAppend(t, before + [s], after, matchesOf);
    PretokenizeChunksAppend(t, before, [s], matchesOf);
    var mid := t.PretokenizeChunks([s], matchesOf);
    assert mid == [[Utf8.Encode(s)]] by {
      assert [s][1..] == [];
    }
    MergeAllStable(ranks, [Utf8.Encode(s)]);
    assert EncodeWords(ranks, ids, mid) == Ok([ids[Utf8.Encode(s)]]) by {
      assert mid[1..] == [];
      var l := LookupIds(ids, [Utf8.Encode(s)]);
      assert l.Ok? && |l.value| == 1 && l.value[0] == ids[Utf8.Encode(s)];
      assert l.value == [ids[Utf8.Encode(s)]];
      JoinUnit(l);
    }
    var pb := t.PretokenizeChunks(before, matchesOf);
    var pa := t.PretokenizeChunks(after, matchesOf);
    EncodeWordsAppend(ranks, ids, pb + mid, pa);
    EncodeWordsAppend(ranks, ids, pb, mid);
  }

  lemma JoinSingle(s: string)
    ensures JoinStrings([s]) == s
  {
    assert [s][1..] == [];
    assert s + "" == s;
  }

  /** Decoding (up to UTF-8 decoding) what `encode` returns gives back the
      UTF-8 bytes of the text, when the split and the matches cover the text. */
  lemma EncodeDecodeRoundTrip(t: Tokenizer, text: string, split: string -> seq<string>, matchesOf: string -> seq<string>)
    requires t.Valid()
    requires t.splitPattern.Some? ==> JoinStrings(split(text)) == text
    requires forall c :: c in t.Chunks(text, split) && c !in t.specialTokens ==> JoinStrings(matchesOf(c)) == c
    requires t.Encode(text, split, matchesOf).Ok?
    ensures t.Decode(t.Encode(text, split, matchesOf).value) == Ok(Utf8.Encode(text))
  {
    var chunks := t.Chunks(text, split);
    if t.splitPattern.None? {
      JoinSingle(text);
    }
    assert JoinStrings(chunks) == text;
    assert forall i :: 0 <= i < |chunks| ==> chunks[i] in chunks;
    PretokenizeChunksBytes(t, chunks, matchesOf);
    EncodeWordsDecodes(t.mergeRanks, t.vocab, t.Pretokenize(text, split, matchesOf));
  }

  /** Encoding a sequence of texts concatenates their encodings. */
  lemma {:induction false} EncodeIterableAppend(t: Tokenizer, a: seq<string>, b: seq<string>, split: string -> seq<string>, matchesOf: string -> seq<string>)
    ensures t.EncodeIterable(a + b, split, matchesOf) == Join(t.EncodeIterable(a, split, matchesOf), t.EncodeIterable(b, split, matchesOf))
  {
    if |a| == 0 {
      assert a + b == b;
      JoinUnit(t.EncodeIterable(b, split, matchesOf));
    } else {
      assert (a + b)[0] == a[0];
      assert (a + b)[1..] == a[1..] + b;
      EncodeIterableAppend(t, a[1..], b, split, matchesOf);
      JoinAssociative(t.Encode(a[0], split, matchesOf), t.EncodeIterable(a[1..], split, matchesOf), t.EncodeIterable(b, split, matchesOf));
    }
  }

  /** One text alone is encoded as `encode` does. */
  lemma EncodeIterableSingle(t: Tokenizer, text: string, split: string -> seq<string>, matchesOf: string -> seq<string>)
    ensures t.EncodeIterable([text], split, matchesOf) == t.Encode(text, split, matchesOf)
  {
    assert [text][1..] == [];
    JoinUnit(t.Encode(text, split, matchesOf));
  }

  /** A tokenizer built from a vocabulary with ids `0..N-1` has dense ids and
      holds every special token. */
  lemma ConstructedHoldsSpecials(t: Tokenizer, vocab: map<int, Token>)
    requires Dense(vocab) && t.vocab == AddSpecialTokens(vocab, t.specialTokens)
    ensures Dense(t.vocab)
    ensures forall s :: s in t.specialTokens ==> Utf8.Encode(s) in t.vocab.Values
  {
    AddSpecialTokensDense(vocab, t.specialTokens);
  }
}
