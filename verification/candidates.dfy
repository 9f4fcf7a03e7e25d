/** The scored shortlist the fuzzy matcher hands to candidate generation, and
    the sequence functions candidate generation is built from: finding the
    first exact match, keeping the survivors of the threshold, and summing
    their scores. */
module Candidates {
  import opened Results

  /** The score the matcher gives a name equal to the label once tokens are sorted. */
  const ExactScore: int := 100
  /** The threshold candidate generation uses unless told otherwise. */
  const DefaultThreshold: int := 70
  /** How many best-scoring names the matcher returns. */
  const Limit: nat := 5

  /** One (name, score) pair of the matcher's output. */
  datatype Candidate = Candidate(name: string, score: int)

  /** What the matcher guarantees of its output: at most `Limit` pairs, each
      scored in [0, ExactScore]. */
  predicate IsExtractOutput(cands: seq<Candidate>): (ok: bool)
    ensures ok ==> 0 <= Total(cands) <= ExactScore * Limit
  {
    && |cands| <= Limit
    && forall k :: 0 <= k < |cands| ==> 0 <= cands[k].score <= ExactScore
  }

  /** Position of the first candidate, in list order, that scores exactly
      `ExactScore`; None when no candidate does. */
  function FirstExact(cands: seq<Candidate>): (r: Option<nat>)
    ensures r.Some? ==> r.value < |cands| && cands[r.value].score == ExactScore
    ensures r.Some? ==> forall j :: 0 <= j < r.value ==> cands[j].score != ExactScore
    ensures r.None? <==> forall j :: 0 <= j < |cands| ==> cands[j].score != ExactScore
  {
    if |cands| == 0 then None
    else if cands[0].score == ExactScore then Some(0)
    else match FirstExact(cands[1..])
      case None => None
      case Some(i) => Some(i + 1)
  }

  /** The candidates scoring strictly above `thres`, in their original order. */
  function Survivors(cands: seq<Candidate>, thres: int): (kept: seq<Candidate>)
    ensures |kept| <= |cands|
    ensures forall c :: c in kept <==> c in cands && c.score > thres
  {
    if |cands| == 0 then []
    else if cands[0].score > thres then [cands[0]] + Survivors(cands[1..], thres)
    else Survivors(cands[1..], thres)
  }

  /** The positions at or after `from` of the candidates scoring strictly
      above `thres`: increasing, and holding exactly those positions. */
  function KeptPositions(cands: seq<Candidate>, thres: int, from: nat): (idx: seq<nat>)
    requires from <= |cands|
    ensures |idx| <= |cands| - from
    ensures forall k :: 0 <= k < |idx| ==> from <= idx[k] < |cands| && cands[idx[k]].score > thres
    ensures forall k, l :: 0 <= k < l < |idx| ==> idx[k] < idx[l]
    ensures forall j {:trigger j in idx} :: from <= j < |cands| && cands[j].score > thres ==> j in idx
    decreases |cands| - from
  {
    if from == |cands| then []
    else if cands[from].score > thres then [from] + KeptPositions(cands, thres, from + 1)
    else KeptPositions(cands, thres, from + 1)
  }

  /** The sum of the scores of `cs`. */
  function Total(cs: seq<Candidate>): (t: int)
    ensures (forall k :: 0 <= k < |cs| ==> 0 <= cs[k].score <= ExactScore) ==> 0 <= t <= ExactScore * |cs|
  {
    if |cs| == 0 then 0 else cs[0].score + Total(cs[1..])
  }

  /** Accumulating the scores one by one adds up the parts: the total of a
      concatenation is the sum of the totals. */
  lemma {:induction false} TotalAppend(a: seq<Candidate>, b: seq<Candidate>)
    ensures Total(a + b) == Total(a) + Total(b)
  {
    if |a| == 0 {
      assert a + b == b;
    } else {
      assert (a + b)[1..] == a[1..] + b;
      TotalAppend(a[1..], b);
    }
  }

  /** The survivors are exactly the candidates at the kept positions, in
      order: filtering keeps the relative order of the input. */
  lemma {:induction false} SurvivorsInOrder(cands: seq<Candidate>, thres: int)
    ensures PicksAt(Survivors(cands, thres), cands, KeptPositions(cands, thres, 0))
  {
    SurvivorsFrom(cands, thres, 0);
    assert cands[0..] == cands;
  }

  /** `sub` lists the elements of `cands` at the positions `idx`. */
  predicate PicksAt(sub: seq<Candidate>, cands: seq<Candidate>, idx: seq<nat>) {
    && |sub| == |idx|
    && forall k :: 0 <= k < |idx| ==> idx[k] < |cands| && sub[k] == cands[idx[k]]
  }

  lemma PicksAtCons(c: Candidate, sub: seq<Candidate>, cands: seq<Candidate>, p: nat, idx: seq<nat>)
    requires PicksAt(sub, cands, idx)
    requires p < |cands| && cands[p] == c
    ensures PicksAt([c] + sub, cands, [p] + idx)
  {
    forall k | 1 <= k < |idx| + 1
      ensures ([p] + idx)[k] < |cands| && ([c] + sub)[k] == cands[([p] + idx)[k]]
    {
      assert ([c] + sub)[k] == sub[k - 1];
      assert ([p] + idx)[k] == idx[k - 1];
    }
  }

  lemma {:induction false} SurvivorsFrom(cands: seq<Candidate>, thres: int, from: nat)
    requires from <= |cands|
    ensures PicksAt(Survivors(cands[from..], thres), cands, KeptPositions(cands, thres, from))
    decreases |cands| - from
  {
    if from < |cands| {
      SurvivorsFrom(cands, thres, from + 1);
      var tail := cands[from + 1..];
      assert cands[from..] == [cands[from]] + tail;
      assert cands[from..][1..] == tail;
      if cands[from].score > thres {
        PicksAtCons(cands[from], Survivors(tail, thres), cands, from, KeptPositions(cands, thres, from + 1));
      }
    }
  }

  /** When every score is positive, the total is positive (for a non-empty
      list) and bounds every single score. */
  lemma {:induction false} TotalBoundsScores(cs: seq<Candidate>)
    requires forall k :: 0 <= k < |cs| ==> cs[k].score > 0
    ensures |cs| > 0 ==> Total(cs) > 0
    ensures Total(cs) >= 0
    ensures forall k :: 0 <= k < |cs| ==> cs[k].score <= Total(cs)
  {
    if |cs| > 0 {
      TotalBoundsScores(cs[1..]);
      forall k | 1 <= k < |cs|
        ensures cs[k].score <= Total(cs)
      {
        assert cs[k] == cs[1..][k - 1];
      }
    }
  }

  /** A single survivor's score is the whole total. */
  lemma TotalOfOne(c: Candidate)
    ensures Total([c]) == c.score
  {
    assert [c][1..] == [];
  }
}
