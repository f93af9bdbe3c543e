/** The merge engine: ranked pairwise reduction of one pretoken's units. */
module Merge {
  import opened Bytes
  import opened Results

  /** A merge rule, or two adjacent units. */
  type Pair = (Token, Token)

  /** `get_pairs`: the adjacent pairs of a unit list, left to right. */
  function GetPairs(ts: seq<Token>): (r: seq<Pair>)
    ensures |r| == if |ts| <= 1 then 0 else |ts| - 1
    ensures forall i :: 0 <= i < |r| ==> r[i] == (ts[i], ts[i + 1])
  {
    if |ts| <= 1 then [] else [(ts[0], ts[1])] + GetPairs(ts[1..])
  }

  /** `merge_ranks = {merge: i for i, merge in enumerate(merges)}`: every rule is a
      key, and a rule listed more than once keeps its last position. */
  function Ranks(merges: seq<Pair>): (r: map<Pair, nat>)
    ensures forall m :: m in r <==> m in merges
    ensures forall m :: m in r ==> r[m] < |merges| && merges[r[m]] == m
    ensures forall m, j :: m in r && r[m] < j < |merges| ==> merges[j] != m
  {
    if |merges| == 0 then map[]
    else
      var prev, last := merges[..|merges| - 1], merges[|merges| - 1];
      assert merges == prev + [last];
      assert forall m :: m in merges <==> m in prev || m == last;
      Ranks(prev)[last := |merges| - 1]
  }

  /** Distinct rules have distinct ranks, so the best-ranked pair is never a tie. */
  lemma RanksInjective(merges: seq<Pair>, m: Pair, m': Pair)
    requires m in Ranks(merges) && m' in Ranks(merges) && m != m'
    ensures Ranks(merges)[m] != Ranks(merges)[m']
  {
  }

  /** One pass of the inner loop of `_merge_word`: scanning left to right, each
      occurrence of `p` is replaced by the concatenation of its two units and the
      scan resumes after it, so occurrences never overlap. */
  function MergeStep(ts: seq<Token>, p: Pair): (r: seq<Token>)
    ensures |r| <= |ts|
    decreases |ts|
  {
    if |ts| == 0 then []
    else if |ts| >= 2 && (ts[0], ts[1]) == p then [p.0 + p.1] + MergeStep(ts[2..], p)
    else [ts[0]] + MergeStep(ts[1..], p)
  }

  /** A pass keeps the bytes: merging only regroups adjacent units. */
  lemma {:induction false} MergeStepFlatten(ts: seq<Token>, p: Pair)
    ensures Flatten(MergeStep(ts, p)) == Flatten(ts)
    decreases |ts|
  {
    if |ts| >= 2 && (ts[0], ts[1]) == p {
      MergeStepFlatten(ts[2..], p);
      assert ts[1..][1..] == ts[2..];
      assert Flatten(ts) == ts[0] + (ts[1] + Flatten(ts[2..]));
      FlattenAppend([p.0 + p.1], MergeStep(ts[2..], p));
      assert Flatten([p.0 + p.1]) == p.0 + p.1 + [];
    } else if |ts| > 0 {
      MergeStepFlatten(ts[1..], p);
      FlattenAppend([ts[0]], MergeStep(ts[1..], p));
      assert Flatten([ts[0]]) == ts[0] + [];
    }
  }

  /** A pass shortens the list exactly when the pair occurs in it, and is the
      identity otherwise. */
  lemma {:induction false} MergeStepShrinks(ts: seq<Token>, p: Pair)
    ensures p in GetPairs(ts) ==> |MergeStep(ts, p)| < |ts|
    ensures p !in GetPairs(ts) ==> MergeStep(ts, p) == ts
    decreases |ts|
  {
    if |ts| >= 2 && (ts[0], ts[1]) == p {
      assert GetPairs(ts)[0] == p;
    } else if |ts| >= 2 {
      assert GetPairs(ts) == [(ts[0], ts[1])] + GetPairs(ts[1..]);
      MergeStepShrinks(ts[1..], p);
    } else if |ts| == 1 {
      assert ts[1..] == [];
    }
  }

  /** The scan from position `i`, when `p` starts there: the merged unit, then the scan after the pair. */
  lemma MergeStepAtMatch(ts: seq<Token>, i: nat, p: Pair)
    requires i + 1 < |ts| && (ts[i], ts[i + 1]) == p
    ensures MergeStep(ts[i..], p) == [p.0 + p.1] + MergeStep(ts[i + 2..], p)
  {
    assert ts[i..][2..] == ts[i + 2..];
  }

  /** The scan from position `i`, when `p` does not start there: the unit, then the scan after it. */
  lemma MergeStepAtOther(ts: seq<Token>, i: nat, p: Pair)
    requires i < |ts| && !(i + 1 < |ts| && (ts[i], ts[i + 1]) == p)
    ensures MergeStep(ts[i..], p) == [ts[i]] + MergeStep(ts[i + 1..], p)
  {
    assert ts[i..][1..] == ts[i + 1..];
  }

  /** The leftmost occurrence of `p` is the one merged: when `p` first starts at
      `i`, everything before it is kept, and the scan continues right after the
      merged pair. */
  lemma MergeStepLeftmost(ts: seq<Token>, i: nat, p: Pair)
    requires i + 1 < |ts| && (ts[i], ts[i + 1]) == p
    requires forall j :: 0 <= j < i ==> (ts[j], ts[j + 1]) != p
    ensures MergeStep(ts, p) == ts[..i] + [p.0 + p.1] + MergeStep(ts[i + 2..], p)
  {
    MergeStepLeftmostFrom(ts, 0, i, p);
    assert ts[0..] == ts && ts[0..i] == ts[..i];
    assert ts[..i] + ([p.0 + p.1] + MergeStep(ts[i + 2..], p)) == ts[..i] + [p.0 + p.1] + MergeStep(ts[i + 2..], p);
  }

  lemma {:induction false} MergeStepLeftmostFrom(ts: seq<Token>, k: nat, i: nat, p: Pair)
    requires k <= i && i + 1 < |ts| && (ts[i], ts[i + 1]) == p
    requires forall j :: k <= j < i ==> (ts[j], ts[j + 1]) != p
    ensures MergeStep(ts[k..], p) == ts[k..i] + ([p.0 + p.1] + MergeStep(ts[i + 2..], p))
    decreases i - k
  {
    if k == i {
      MergeStepAtMatch(ts, i, p);
      assert ts[k..i] == [];
    } else {
      MergeStepAtOther(ts, k, p);
      MergeStepLeftmostFrom(ts, k + 1, i, p);
      var rest := [p.0 + p.1] + MergeStep(ts[i + 2..], p);
      assert ts[k..i] == [ts[k]] + ts[k + 1..i];
      assert [ts[k]] + (ts[k + 1..i] + rest) == ts[k..i] + rest;
    }
  }

  /** `merge_candidates`: the adjacent pairs that have a rank, in order. */
  function Candidates(pairs: seq<Pair>, ranks: map<Pair, nat>): (r: seq<Pair>)
    ensures forall q :: q in r <==> q in pairs && q in ranks
  {
    if |pairs| == 0 then []
    else (if pairs[0] in ranks then [pairs[0]] else []) + Candidates(pairs[1..], ranks)
  }

  /** `min(candidates, key=ranks.__getitem__)`: the first candidate of least rank.
      With ranks built by `Ranks`, distinct rules never share a rank
      (`RanksInjective`), so "first" only decides between repeated occurrences
      of the same pair. */
  function MinByRank(cs: seq<Pair>, ranks: map<Pair, nat>): (r: Pair)
    requires |cs| > 0
    requires forall c :: c in cs ==> c in ranks
    ensures r in cs
    ensures forall c :: c in cs ==> ranks[r] <= ranks[c]
    ensures exists i :: 0 <= i < |cs| && cs[i] == r && forall j :: 0 <= j < i ==> ranks[r] < ranks[cs[j]]
  {
    if |cs| == 1 then
      assert cs[0] == cs[0];  // mentions the witness `i := 0` of the last ensures
      cs[0]
    else
      var m := MinByRank(cs[1..], ranks);
      if ranks[m] < ranks[cs[0]] then
        var i :| 0 <= i < |cs[1..]| && cs[1..][i] == m && forall j :: 0 <= j < i ==> ranks[m] < ranks[cs[1..][j]];
        assert cs[i + 1] == m;
        m
      else
        assert cs[0] == cs[0];  // mentions the witness `i := 0` of the last ensures
        cs[0]
  }

  /** The pair one iteration of the outer loop merges, or `None` when no
      adjacent pair has a rank and the loop stops. */
  function BestPair(ranks: map<Pair, nat>, ts: seq<Token>): (r: Option<Pair>)
    ensures r.None? <==> forall i :: 0 <= i < |ts| - 1 ==> (ts[i], ts[i + 1]) !in ranks
    ensures r.Some? ==> r.value in ranks && r.value in GetPairs(ts)
    ensures r.Some? ==> forall i :: 0 <= i < |ts| - 1 && (ts[i], ts[i + 1]) in ranks ==>
                          ranks[r.value] <= ranks[(ts[i], ts[i + 1])]
  {
    var candidates := Candidates(GetPairs(ts), ranks);
    if |candidates| == 0 then
      assert forall i :: 0 <= i < |ts| - 1 ==> GetPairs(ts)[i] == (ts[i], ts[i + 1]);
      None
    else
      var best := MinByRank(candidates, ranks);
      assert forall i :: 0 <= i < |ts| - 1 && (ts[i], ts[i + 1]) in ranks ==> (ts[i], ts[i + 1]) in candidates by {
        forall i | 0 <= i < |ts| - 1 && (ts[i], ts[i + 1]) in ranks
          ensures (ts[i], ts[i + 1]) in candidates
        {
          assert GetPairs(ts)[i] == (ts[i], ts[i + 1]);
        }
      }
      var k :| 0 <= k < |GetPairs(ts)| && GetPairs(ts)[k] == best;
      assert (ts[k], ts[k + 1]) in ranks;
      Some(best)
  }

  /** With ranks built from a merge list, the best pair is the only adjacent
      pair of least rank: ties between distinct rules cannot occur. */
  lemma BestPairUnique(merges: seq<Pair>, ts: seq<Token>, q: Pair)
    requires BestPair(Ranks(merges), ts).Some?
    requires q in GetPairs(ts) && q in Ranks(merges)
    requires Ranks(merges)[q] <= Ranks(merges)[BestPair(Ranks(merges), ts).value]
    ensures q == BestPair(Ranks(merges), ts).value
  {
    var ranks := Ranks(merges);
    var best := BestPair(ranks, ts).value;
    if q != best {
      RanksInjective(merges, q, best);
    }
  }

  /** The outer loop of `_merge_word`: merge the best-ranked pair until no
      adjacent pair has a rank. */
  function MergeAll(ranks: map<Pair, nat>, ts: seq<Token>): (r: seq<Token>)
    ensures Flatten(r) == Flatten(ts)
    ensures |r| <= |ts|
    ensures forall i :: 0 <= i < |r| - 1 ==> (r[i], r[i + 1]) !in ranks
    decreases |ts|
  {
    match BestPair(ranks, ts)
    case None => ts
    case Some(p) =>
      MergeStepShrinks(ts, p);
      MergeStepFlatten(ts, p);
      MergeAll(ranks, MergeStep(ts, p))
  }

  /** One round of the outer loop of `_merge_word`, in terms of the candidates it
      computes: with none the loop stops, otherwise it merges the least-ranked one,
      which shortens the list. */
  lemma MergeAllRound(ranks: map<Pair, nat>, ts: seq<Token>)
    ensures Candidates(GetPairs(ts), ranks) == [] ==> MergeAll(ranks, ts) == ts
    ensures Candidates(GetPairs(ts), ranks) != [] ==>
              var p := MinByRank(Candidates(GetPairs(ts), ranks), ranks);
              |MergeStep(ts, p)| < |ts| && MergeAll(ranks, ts) == MergeAll(ranks, MergeStep(ts, p))
  {
    var cs := Candidates(GetPairs(ts), ranks);
    if cs != [] {
      var p := MinByRank(cs, ranks);
      assert BestPair(ranks, ts) == Some(p);
      MergeStepShrinks(ts, p);
    } else {
      assert BestPair(ranks, ts) == None;
    }
  }

  /** The result of merging is a fixed point: merging it again changes nothing. */
  lemma MergeAllIdempotent(ranks: map<Pair, nat>, ts: seq<Token>)
    ensures MergeAll(ranks, MergeAll(ranks, ts)) == MergeAll(ranks, ts)
  {
    var r := MergeAll(ranks, ts);
    assert BestPair(ranks, r).None?;
  }

  /** A list that already has no ranked adjacent pair is returned unchanged;
      in particular lists of fewer than two units are. */
  lemma MergeAllStable(ranks: map<Pair, nat>, ts: seq<Token>)
    requires forall i :: 0 <= i < |ts| - 1 ==> (ts[i], ts[i + 1]) !in ranks
    ensures MergeAll(ranks, ts) == ts
  {
    assert BestPair(ranks, ts).None?;
  }

  /** `[a, a, a]` under the rule `(a, a)` becomes `[aa, a]`, not `[a, aa]`. */
  lemma GreedyExample(a: Token)
    ensures MergeStep([a, a, a], (a, a)) == [a + a, a]
  {
    assert [a, a, a][2..] == [a];
    assert MergeStep([a], (a, a)) == [a] by {
      assert [a][1..] == [];
    }
  }

  /** The rank table of the rules `a b`, `b c`, `ab c`. */
  lemma ExampleRanks()
    ensures Ranks([([97], [98]), ([98], [99]), ([97, 98], [99])])
         == map[([97], [98]) := 0, ([98], [99]) := 1, ([97, 98], [99]) := 2]
  {
    var merges: seq<Pair> := [([97], [98]), ([98], [99]), ([97, 98], [99])];
    assert merges[..2] == [([97], [98]), ([98], [99])];
    assert merges[..2][..1] == [([97], [98])];
    assert merges[..2][..1][..0] == [];
  }

  /** Rule ranks decide the order, not positions: with rules `a b`, `b c`,
      `ab c` (ranks 0, 1, 2), the units `a b c` first merge `a b` (rank 0) and
      then `ab c`, giving the single unit `abc`. */
  lemma RankPriorityExample()
    ensures MergeAll(Ranks([([97], [98]), ([98], [99]), ([97, 98], [99])]), [[97], [98], [99]]) == [[97, 98, 99]]
  {
    ExampleRanks();
    var ranks := map[([97], [98]) := 0, ([98], [99]) := 1, ([97, 98], [99]) := 2];
    var ts: seq<Token> := [[97], [98], [99]];
    var ts1: seq<Token> := [[97, 98], [99]];
    var ts2: seq<Token> := [[97, 98, 99]];
    ExampleFirstRound(ranks, ts, ts1);
    ExampleSecondRound(ranks, ts1, ts2);
    assert BestPair(ranks, ts2) == None;
  }

  lemma ExampleFirstRound(ranks: map<Pair, nat>, ts: seq<Token>, ts1: seq<Token>)
    requires ranks == map[([97], [98]) := 0, ([98], [99]) := 1, ([97, 98], [99]) := 2]
    requires ts == [[97], [98], [99]] && ts1 == [[97, 98], [99]]
    ensures MergeAll(ranks, ts) == MergeAll(ranks, ts1)
  {
    ExampleFirstBest(ranks, ts);
    ExampleFirstMerge(ts, ts1);
  }

  lemma ExampleFirstBest(ranks: map<Pair, nat>, ts: seq<Token>)
    requires ranks == map[([97], [98]) := 0, ([98], [99]) := 1, ([97, 98], [99]) := 2]
    requires ts == [[97], [98], [99]]
    ensures BestPair(ranks, ts) == Some(([97], [98]))
  {
    var ps: seq<Pair> := [([97], [98]), ([98], [99])];
    assert GetPairs(ts) == ps by {
      assert ts[1..] == [[98], [99]];
      assert ts[1..][1..] == [[99]];
    }
    var cs := Candidates(ps, ranks);
    assert cs == ps by {
      assert ps[1..] == [([98], [99])];
      assert ps[1..][1..] == [];
      assert Candidates(ps[1..], ranks) == [([98], [99])];
    }
    assert MinByRank(cs, ranks) == ([97], [98]) by {
      assert cs[1..] == [([98], [99])];
    }
  }

  lemma ExampleFirstMerge(ts: seq<Token>, ts1: seq<Token>)
    requires ts == [[97], [98], [99]] && ts1 == [[97, 98], [99]]
    ensures MergeStep(ts, ([97], [98])) == ts1
  {
    assert ts[2..] == [[99]];
    assert MergeStep([[99]], ([97], [98])) == [[99]] by {
      assert [[99]][1..] == [];
    }
    assert [97] + [98] == [97, 98];
  }

  lemma ExampleSecondRound(ranks: map<Pair, nat>, ts1: seq<Token>, ts2: seq<Token>)
    requires ranks == map[([97], [98]) := 0, ([98], [99]) := 1, ([97, 98], [99]) := 2]
    requires ts1 == [[97, 98], [99]] && ts2 == [[97, 98, 99]]
    ensures MergeAll(ranks, ts1) == ts2
  {
    assert GetPairs(ts1) == [([97, 98], [99])] by {
      assert ts1[1..] == [[99]];
    }
    assert BestPair(ranks, ts1) == Some(([97, 98], [99]));
    assert MergeStep(ts1, ([97, 98], [99])) == ts2 by {
      assert ts1[2..] == [];
      assert [97, 98] + [99] == [97, 98, 99];
    }
    assert BestPair(ranks, ts2) == None;
  }
}
