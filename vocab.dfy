/** The vocabulary tables the tokenizer builds once, and the lookups through them. */
module Vocab {
  import opened Bytes
  import opened Results
  import Utf8

  /** Ids are exactly 0..N-1, as a freshly built vocabulary has them. */
  ghost predicate Dense(vocab: map<int, Token>)
  {
    forall k :: k in vocab <==> 0 <= k < |vocab|
  }

  /** No byte string is listed under two ids. */
  ghost predicate Injective(vocab: map<int, Token>)
  {
    forall k, k' :: k in vocab && k' in vocab && k != k' ==> vocab[k] != vocab[k']
  }

  lemma {:induction false} MaxExists(s: set<int>, y: int)
    requires y in s
    ensures exists m :: m in s && forall x :: x in s ==> x <= m
    decreases |s|
  {
    if exists z :: z in s && z != y {
      var z :| z in s && z != y;
      MaxExists(s - {y}, z);
      var m :| m in s - {y} && forall x :: x in s - {y} ==> x <= m;
      var top := if m < y then y else m;
      forall x | x in s
        ensures x <= top
      {
        if x != y { assert x in s - {y}; }
      }
    } else {
      assert forall x :: x in s ==> x <= y;
    }
  }

  /** Every entry of the vocabulary has a largest id listing the same bytes. */
  lemma LastKeyExists(vocab: map<int, Token>, k0: int)
    requires k0 in vocab
    ensures exists k :: k in vocab && vocab[k] == vocab[k0] && forall k' :: k' in vocab && vocab[k'] == vocab[k0] ==> k' <= k
  {
    var keys := set k | k in vocab && vocab[k] == vocab[k0];
    MaxExists(keys, k0);
    var m :| m in keys && forall x :: x in keys ==> x <= m;
    forall k' | k' in vocab && vocab[k'] == vocab[k0]
      ensures k' <= m
    {
      assert k' in keys;
    }
  }

  /** The id `{v: k for k, v in vocab.items()}` keeps for the bytes of entry `k0`:
      the comprehension visits entries in insertion order and the last visit
      wins; ids are taken as having been inserted in increasing order, so it is
      the largest id listing those bytes. */
  function LastKey(vocab: map<int, Token>, k0: int): (k: int)
    requires k0 in vocab
    ensures k in vocab && vocab[k] == vocab[k0]
    ensures forall k' :: k' in vocab && vocab[k'] == vocab[k0] ==> k' <= k
  {
    LastKeyExists(vocab, k0);
    var k :| k in vocab && vocab[k] == vocab[k0] && forall k' :: k' in vocab && vocab[k'] == vocab[k0] ==> k' <= k;
    k
  }

  /** `vocab_to_id`: the bytes of every entry, mapped back to an id that lists them. */
  function Inverse(vocab: map<int, Token>): (r: map<Token, int>)
    ensures forall k :: k in vocab ==> vocab[k] in r && k <= r[vocab[k]]
    ensures forall v :: v in r ==> r[v] in vocab && vocab[r[v]] == v
  {
    map k | k in vocab :: vocab[k] := LastKey(vocab, k)
  }

  /** The byte strings with an id are exactly the vocabulary's values. */
  lemma InverseKeys(vocab: map<int, Token>)
    ensures Inverse(vocab).Keys == vocab.Values
  {
  }

  /** For a vocabulary without duplicate entries the two tables are mutually inverse. */
  lemma InverseOfInjective(vocab: map<int, Token>, k: int)
    requires Injective(vocab) && k in vocab
    ensures Inverse(vocab)[vocab[k]] == k
  {
  }

  /** `[vocab_to_id[token] for token in tokens]`: the `KeyError` of the first
      token without an id, or every token's id in order. */
  function LookupIds(vocabToId: map<Token, int>, ts: seq<Token>): (r: Result<seq<int>>)
    ensures r.Ok? <==> forall i :: 0 <= i < |ts| ==> ts[i] in vocabToId
    ensures r.Ok? ==> |r.value| == |ts| && forall i :: 0 <= i < |ts| ==> r.value[i] == vocabToId[ts[i]]
    ensures r.Err? ==> exists i :: 0 <= i < |ts| && ts[i] !in vocabToId && r.error == UnknownToken(ts[i])
                                   && forall j :: 0 <= j < i ==> ts[j] in vocabToId
  {
    if |ts| == 0 then Ok([])
    else if ts[0] !in vocabToId then
      assert ts[0] == ts[0];  // mentions the witness `i := 0` of the `Err` ensures
      Err(UnknownToken(ts[0]))
    else
      match LookupIds(vocabToId, ts[1..])
      case Err(e) =>
        var i :| 0 <= i < |ts[1..]| && ts[1..][i] !in vocabToId && e == UnknownToken(ts[1..][i])
                 && forall j :: 0 <= j < i ==> ts[1..][j] in vocabToId;
        assert ts[i + 1] == ts[1..][i];
        Err(e)
      case Ok(ids) => Ok([vocabToId[ts[0]]] + ids)
  }

  /** `b"".join(vocab[id] for id in ids)`: the `KeyError` of the first unknown id,
      or the byte strings of the ids, concatenated. */
  function DecodeBytes(vocab: map<int, Token>, ids: seq<int>): (r: Result<Token>)
    ensures r.Ok? <==> forall i :: 0 <= i < |ids| ==> ids[i] in vocab
    ensures r.Err? ==> exists i :: 0 <= i < |ids| && ids[i] !in vocab && r.error == UnknownId(ids[i])
                                   && forall j :: 0 <= j < i ==> ids[j] in vocab
  {
    if |ids| == 0 then Ok([])
    else if ids[0] !in vocab then
      assert ids[0] == ids[0];  // mentions the witness `i := 0` of the `Err` ensures
      Err(UnknownId(ids[0]))
    else
      match DecodeBytes(vocab, ids[1..])
      case Err(e) =>
        var i :| 0 <= i < |ids[1..]| && ids[1..][i] !in vocab && e == UnknownId(ids[1..][i])
                 && forall j :: 0 <= j < i ==> ids[1..][j] in vocab;
        assert ids[i + 1] == ids[1..][i];
        Err(e)
      case Ok(bs) => Ok(vocab[ids[0]] + bs)
  }

  /** Decoding a concatenation of id lists concatenates the decoded bytes, with
      the first unknown id (of either part) as the failure. */
  lemma {:induction false} DecodeBytesAppend(vocab: map<int, Token>, a: seq<int>, b: seq<int>)
    ensures DecodeBytes(vocab, a + b) == Join(DecodeBytes(vocab, a), DecodeBytes(vocab, b))
  {
    if |a| == 0 {
      assert a + b == b;
      var rb := DecodeBytes(vocab, b);
      if rb.Ok? { assert [] + rb.value == rb.value; }
    } else {
      assert (a + b)[0] == a[0];
      assert (a + b)[1..] == a[1..] + b;
      DecodeBytesAppend(vocab, a[1..], b);
      if a[0] in vocab {
        var ra, rb := DecodeBytes(vocab, a[1..]), DecodeBytes(vocab, b);
        if ra.Ok? && rb.Ok? {
          assert vocab[a[0]] + (ra.value + rb.value) == (vocab[a[0]] + ra.value) + rb.value;
        }
      }
    }
  }

  /** Mapping tokens to ids through `vocab_to_id` and decoding through `vocab`
      gives back the tokens' bytes. */
  lemma {:induction false} DecodeLookupIds(vocab: map<int, Token>, ts: seq<Token>)
    requires LookupIds(Inverse(vocab), ts).Ok?
    ensures DecodeBytes(vocab, LookupIds(Inverse(vocab), ts).value) == Ok(Flatten(ts))
  {
    if |ts| > 0 {
      var ids := LookupIds(Inverse(vocab), ts).value;
      assert ids[1..] == LookupIds(Inverse(vocab), ts[1..]).value;
      DecodeLookupIds(vocab, ts[1..]);
    }
  }

  /** One iteration of the special-token loop of `__init__`: a byte string that is
      not yet a value is stored under the key `len(vocab)`. */
  function AddSpecialToken(vocab: map<int, Token>, t: Token): (r: map<int, Token>)
    ensures t in r.Values
    ensures t in vocab.Values ==> r == vocab
    ensures t !in vocab.Values ==> r.Keys == vocab.Keys + {|vocab|} && r[|vocab|] == t
    ensures forall k :: k in vocab && k != |vocab| ==> r[k] == vocab[k]
    ensures t !in vocab.Values && |vocab| !in vocab ==> |r| == |vocab| + 1
  {
    if t in vocab.Values then vocab
    else
      var r := vocab[|vocab| := t];
      assert r[|vocab|] == t;
      r
  }

  lemma AddSpecialTokenDense(vocab: map<int, Token>, t: Token)
    requires Dense(vocab)
    ensures Dense(AddSpecialToken(vocab, t))
    ensures |AddSpecialToken(vocab, t)| == if t in vocab.Values then |vocab| else |vocab| + 1
  {
    if t !in vocab.Values {
      var n := |vocab|;
      var r := vocab[n := t];
      assert n !in vocab;
      assert |r| == n + 1;
      forall k
        ensures k in r <==> 0 <= k < |r|
      {
        assert k in r <==> k in vocab || k == n;
      }
    }
  }

  /** The whole loop, over the special tokens in the caller's order. */
  function AddSpecialTokens(vocab: map<int, Token>, specials: seq<string>): map<int, Token>
    decreases |specials|
  {
    if |specials| == 0 then vocab
    else AddSpecialTokens(AddSpecialToken(vocab, Utf8.Encode(specials[0])), specials[1..])
  }

  /** From a vocabulary with ids 0..N-1: ids stay dense, every old entry is kept,
      every special token's bytes become a value, and nothing else is added. */
  lemma {:induction false} AddSpecialTokensDense(vocab: map<int, Token>, specials: seq<string>)
    requires Dense(vocab)
    ensures Dense(AddSpecialTokens(vocab, specials))
    ensures forall k :: k in vocab ==> k in AddSpecialTokens(vocab, specials) && AddSpecialTokens(vocab, specials)[k] == vocab[k]
    ensures forall s :: s in specials ==> Utf8.Encode(s) in AddSpecialTokens(vocab, specials).Values
    ensures forall v :: v in AddSpecialTokens(vocab, specials).Values ==>
              v in vocab.Values || exists s :: s in specials && v == Utf8.Encode(s)
    ensures |vocab| <= |AddSpecialTokens(vocab, specials)| <= |vocab| + |specials|
    decreases |specials|
  {
    if |specials| > 0 {
      var t := Utf8.Encode(specials[0]);
      var v1 := AddSpecialToken(vocab, t);
      AddSpecialTokenDense(vocab, t);
      AddSpecialTokensDense(v1, specials[1..]);
      var r := AddSpecialTokens(vocab, specials);
      assert r == AddSpecialTokens(v1, specials[1..]);
      forall k | k in vocab
        ensures k in r && r[k] == vocab[k]
      {
        assert k != |vocab|;
      }
      forall v | v in r.Values
        ensures v in vocab.Values || exists s :: s in specials && v == Utf8.Encode(s)
      {
        if v !in v1.Values {
          var s :| s in specials[1..] && v == Utf8.Encode(s);
          assert s in specials;
        } else if v !in vocab.Values {
          assert v == t && specials[0] in specials;
        }
      }
    }
  }

  /** When ids are not 0..N-1, `vocab[len(vocab)] = ...` can land on an existing
      id: from `{1: b"x"}`, the special tokens "a" and "b" each overwrite id 1,
      and neither `b"x"` nor `b"a"` is left. */
  lemma SparseVocabOverwrites()
    ensures AddSpecialTokens(map[1 := [120]], ["a", "b"]) == map[1 := [98]]
  {
    assert Utf8.Encode("a") == [97] && Utf8.Encode("b") == [98];
    var v1 := AddSpecialToken(map[1 := [120]], [97]);
    assert v1 == map[1 := [97]] by {
      assert [97] !in map[1 := [120]].Values by {
        assert map[1 := [120]].Values == {[120]};
      }
    }
    var v2 := AddSpecialToken(v1, [98]);
    assert v2 == map[1 := [98]] by {
      assert v1.Values == {[97]};
    }
    assert ["a", "b"][1..] == ["b"];
    assert ["b"][1..] == [];
  }

  ghost predicate LengthsNonIncreasing(s: seq<string>)
  {
    forall i, j :: 0 <= i < j < |s| ==> |s[i]| >= |s[j]|
  }

  /** The strings of length `n`, in their order. */
  function OfLength(s: seq<string>, n: nat): seq<string>
  {
    if |s| == 0 then [] else (if |s[0]| == n then [s[0]] else []) + OfLength(s[1..], n)
  }

  /** Puts `x` in front of the first string that is not longer than it. */
  function InsertByLength(x: string, s: seq<string>): (r: seq<string>)
    requires LengthsNonIncreasing(s)
    ensures LengthsNonIncreasing(r)
    ensures multiset(r) == multiset(s) + multiset{x}
    ensures r[0] == x || (|s| > 0 && r[0] == s[0])
  {
    if |s| == 0 || |x| >= |s[0]| then
      [x] + s
    else
      var rest := InsertByLength(x, s[1..]);
      var r := [s[0]] + rest;
      assert |r[0]| >= |r[1]|;
      assert LengthsNonIncreasing(r) by {
        forall i, j | 0 <= i < j < |r| ensures |r[i]| >= |r[j]| {
          if i == 0 && j > 1 {
            assert |r[1]| >= |r[j]|;
          }
        }
      }
      assert s == [s[0]] + s[1..];
      r
  }

  lemma OfLengthCons(y: string, t: seq<string>, n: nat)
    ensures OfLength([y] + t, n) == (if |y| == n then [y] else []) + OfLength(t, n)
  {
    assert ([y] + t)[0] == y;
    assert ([y] + t)[1..] == t;
  }

  /** Inserting does not reorder the strings of any one length, and puts `x`
      before the listed strings of its own length. */
  lemma {:induction false} InsertByLengthOfLength(x: string, s: seq<string>, n: nat)
    requires LengthsNonIncreasing(s)
    ensures OfLength(InsertByLength(x, s), n) == (if |x| == n then [x] else []) + OfLength(s, n)
  {
    if |s| == 0 || |x| >= |s[0]| {
      OfLengthCons(x, s, n);
    } else {
      var rest := InsertByLength(x, s[1..]);
      assert InsertByLength(x, s) == [s[0]] + rest;
      OfLengthCons(s[0], rest, n);
      InsertByLengthOfLength(x, s[1..], n);
      OfLengthCons(s[0], s[1..], n);
      assert [s[0]] + s[1..] == s;
      var tail := OfLength(s[1..], n);
      if |x| == n {
        assert |s[0]| != n;
        assert OfLength(InsertByLength(x, s), n) == [] + ([x] + tail);
        assert [] + ([x] + tail) == [x] + tail;
      } else if |s[0]| == n {
        assert OfLength(InsertByLength(x, s), n) == [s[0]] + ([] + tail);
        assert [s[0]] + ([] + tail) == [] + ([s[0]] + tail);
      } else {
        assert OfLength(InsertByLength(x, s), n) == [] + ([] + tail);
        assert [] + ([] + tail) == [] + ([] + tail);
      }
    }
  }

  /** `sorted(special_tokens, key=len, reverse=True)`, by insertion. */
  function SortByLengthDesc(s: seq<string>): (r: seq<string>)
    ensures LengthsNonIncreasing(r)
    ensures multiset(r) == multiset(s)
  {
    if |s| == 0 then []
    else
      var r := InsertByLength(s[0], SortByLengthDesc(s[1..]));
      assert s == [s[0]] + s[1..];
      r
  }

  /** Python's sort is stable, also when reversed: tokens of equal length keep
      the caller's order. */
  lemma {:induction false} SortByLengthDescStable(s: seq<string>, n: nat)
    ensures OfLength(SortByLengthDesc(s), n) == OfLength(s, n)
  {
    if |s| > 0 {
      InsertByLengthOfLength(s[0], SortByLengthDesc(s[1..]), n);
      SortByLengthDescStable(s[1..], n);
    }
  }

  /** The longer of two special tokens that share a prefix is tried first. */
  lemma LongestFirstExample()
    ensures SortByLengthDesc(["<|endoftext|>", "<|endoftext|><|pad|>"]) == ["<|endoftext|><|pad|>", "<|endoftext|>"]
  {
    var s := ["<|endoftext|>", "<|endoftext|><|pad|>"];
    assert s[1..] == ["<|endoftext|><|pad|>"];
    assert s[1..][1..] == [];
    assert SortByLengthDesc(s[1..]) == ["<|endoftext|><|pad|>"];
    assert ["<|endoftext|><|pad|>"][1..] == [];
  }
}
