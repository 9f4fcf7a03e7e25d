/** What candidate generation promises its caller: the exact match wins
    outright, only survivors of the threshold come back, in order, and their
    weights are proportional to their scores and sum to one. */
module CandidateGenerationProperties {
  import opened Results
  import opened Candidates
  import opened CandidateGeneration
  import ReverseIndex

  /** No candidate scores exactly `ExactScore`. */
  predicate NoExact(cands: seq<Candidate>) {
    forall j :: 0 <= j < |cands| ==> cands[j].score != ExactScore
  }

  /** The first exact match decides the result on its own: its identifier
      with weight 1.0, or KeyError when the reverse index lacks its name. */
  lemma ExactMatchWins(cands: seq<Candidate>, ent2id: map<string, string>, thres: int, i: nat)
    requires i < |cands| && cands[i].score == ExactScore
    requires forall j :: 0 <= j < i ==> cands[j].score != ExactScore
    ensures cands[i].name in ent2id ==>
      Generate(cands, ent2id, thres) == Ok(Shortlist([ent2id[cands[i].name]], [1.0]))
    ensures cands[i].name !in ent2id ==>
      Generate(cands, ent2id, thres) == Err(KeyError(cands[i].name))
  {
    var f := FirstExact(cands);
    assert f.Some?;
    assert f.value == i;
  }

  /** Candidates before the first exact match and all candidates after it
      have no influence on the result. */
  lemma {:induction false} ExactMatchIgnoresOthers(pre: seq<Candidate>, c: Candidate, post: seq<Candidate>,
                                                   ent2id: map<string, string>, thres: int)
    requires c.score == ExactScore
    requires NoExact(pre)
    ensures Generate(pre + [c] + post, ent2id, thres) == Generate([c], ent2id, thres)
  {
    var cands := pre + [c] + post;
    assert cands[|pre|] == c;
    assert forall j :: 0 <= j < |pre| ==> cands[j] == pre[j];
    ExactMatchWins(cands, ent2id, thres, |pre|);
    ExactMatchWins([c], ent2id, thres, 0);
  }

  /** Without an exact match, the result lists the survivors of the
      threshold in input order, each mapped through the reverse index, each
      weighted by its score over the survivors' total. */
  lemma NonExactShortlist(cands: seq<Candidate>, ent2id: map<string, string>, thres: int)
    requires NoExact(cands)
    requires Generate(cands, ent2id, thres).Ok?
    ensures var sl := Generate(cands, ent2id, thres).value;
            var kept := Survivors(cands, thres);
            var idx := KeptPositions(cands, thres, 0);
            && |sl.ids| == |kept|
            && PicksAt(kept, cands, idx)
            && (forall k :: 0 <= k < |kept| ==> sl.ids[k] == ent2id[kept[k].name])
            && Proportional(sl.weights, kept, Total(kept))
  {
    NonExactUnfold(cands, ent2id, thres);
    SurvivorsInOrder(cands, thres);
  }

  /** Without an exact match, a successful result pairs the looked-up
      survivors with their normalized scores. */
  lemma NonExactUnfold(cands: seq<Candidate>, ent2id: map<string, string>, thres: int)
    requires NoExact(cands)
    requires Generate(cands, ent2id, thres).Ok?
    ensures var kept := Survivors(cands, thres);
            && Normalize(kept, Total(kept)).Ok?
            && LookupIds(kept, ent2id).Ok?
            && Generate(cands, ent2id, thres).value
               == Shortlist(LookupIds(kept, ent2id).value, Normalize(kept, Total(kept)).value)
  {
    assert FirstExact(cands).None?;
  }

  /** With a threshold below the exact score, as the default is, no returned
      identifier comes from a candidate at or below the threshold, whether
      the exact match or the survivors decided the result. */
  lemma OnlySurvivorsReturned(cands: seq<Candidate>, ent2id: map<string, string>, thres: int)
    requires thres < ExactScore
    requires Generate(cands, ent2id, thres).Ok?
    ensures var ids := Generate(cands, ent2id, thres).value.ids;
            forall k :: 0 <= k < |ids| ==>
              exists j :: 0 <= j < |cands| && cands[j].score > thres
                          && cands[j].name in ent2id && ids[k] == ent2id[cands[j].name]
  {
    var ids := Generate(cands, ent2id, thres).value.ids;
    match FirstExact(cands)
    case Some(i) =>
      assert ids == [ent2id[cands[i].name]];
    case None =>
      NonExactShortlist(cands, ent2id, thres);
      forall k | 0 <= k < |ids|
        ensures exists j :: 0 <= j < |cands| && cands[j].score > thres
                            && cands[j].name in ent2id && ids[k] == ent2id[cands[j].name]
      {
        var j := KeptPositions(cands, thres, 0)[k];
        assert cands[j] == Survivors(cands, thres)[k];
      }
  }

  /** Sum of the weights is the total over the divisor. */
  lemma {:induction false} SumOfWeights(kept: seq<Candidate>, total: int)
    requires total != 0
    ensures Sum(Weights(kept, total)) == Total(kept) as real / total as real
  {
    if |kept| > 0 {
      SumOfWeights(kept[1..], total);
      var ws := Weights(kept, total);
      assert ws[1..] == Weights(kept[1..], total);
      assert Total(kept) == kept[0].score + Total(kept[1..]);
      AddQuotients(kept[0].score as real, Total(kept[1..]) as real, total as real);
    }
  }

  lemma AddQuotients(a: real, b: real, d: real)
    requires d != 0.0
    ensures a / d + b / d == (a + b) / d
  {
  }

  /** With a non-negative threshold, when no candidate is an exact match,
      some candidate clears the threshold and every such candidate's name is
      indexed, generation succeeds with a probability distribution: weights
      in (0, 1] summing to exactly 1. */
  lemma WeightsAreDistribution(cands: seq<Candidate>, ent2id: map<string, string>, thres: int)
    requires thres >= 0
    requires NoExact(cands)
    requires exists j :: 0 <= j < |cands| && cands[j].score > thres
    requires forall j :: 0 <= j < |cands| && cands[j].score > thres ==> cands[j].name in ent2id
    ensures Generate(cands, ent2id, thres).Ok?
    ensures var ws := Generate(cands, ent2id, thres).value.weights;
            && |ws| > 0
            && Sum(ws) == 1.0
            && forall k :: 0 <= k < |ws| ==> 0.0 < ws[k] <= 1.0
  {
    var kept := Survivors(cands, thres);
    var j :| 0 <= j < |cands| && cands[j].score > thres;
    assert cands[j] in kept;
    forall k | 0 <= k < |kept|
      ensures kept[k].name in ent2id
    {
      assert kept[k] in cands;
    }
    TotalBoundsScores(kept);
    assert FirstExact(cands).None?;
    NonExactDistribution(cands, ent2id, thres);
  }

  /** The ordinary path's non-empty successful result is a probability
      distribution when the threshold is non-negative. */
  lemma NonExactDistribution(cands: seq<Candidate>, ent2id: map<string, string>, thres: int)
    requires thres >= 0
    requires NoExact(cands)
    requires Generate(cands, ent2id, thres).Ok?
    requires |Survivors(cands, thres)| > 0
    ensures var ws := Generate(cands, ent2id, thres).value.weights;
            && |ws| > 0
            && Sum(ws) == 1.0
            && forall k :: 0 <= k < |ws| ==> 0.0 < ws[k] <= 1.0
  {
    NonExactUnfold(cands, ent2id, thres);
    var kept := Survivors(cands, thres);
    TotalBoundsScores(kept);
    assert Generate(cands, ent2id, thres).value.weights == Weights(kept, Total(kept));
    SurvivorWeights(kept);
  }

  /** Survivors with positive scores, weighed against their own total, form
      a probability distribution. */
  lemma SurvivorWeights(kept: seq<Candidate>)
    requires |kept| > 0
    requires forall k :: 0 <= k < |kept| ==> kept[k].score > 0
    ensures Total(kept) > 0
    ensures Sum(Weights(kept, Total(kept))) == 1.0
    ensures forall k :: 0 <= k < |kept| ==> 0.0 < Weights(kept, Total(kept))[k] <= 1.0
  {
    TotalBoundsScores(kept);
    var total := Total(kept);
    SumOfWeights(kept, total);
    DividesItself(total);
    ProportionalBounds(Weights(kept, total), kept, total);
  }

  /** A positive total over itself is one. */
  lemma DividesItself(total: int)
    requires total > 0
    ensures total as real / total as real == 1.0
  {
  }

  /** Proportional weights of scores in (0, total] lie in (0, 1]. */
  lemma ProportionalBounds(ws: seq<real>, kept: seq<Candidate>, total: int)
    requires Proportional(ws, kept, total)
    requires forall k :: 0 <= k < |kept| ==> 0 < kept[k].score <= total
    ensures forall k :: 0 <= k < |ws| ==> 0.0 < ws[k] <= 1.0
  {
    forall k | 0 <= k < |ws|
      ensures 0.0 < ws[k] <= 1.0
    {
      WeightBounds(ws[k], kept[k].score, total);
    }
  }

  /** A weight times a positive total equal to a score in (0, total] lies in (0, 1]. */
  lemma WeightBounds(w: real, score: int, total: int)
    requires 0 < score <= total
    requires w * total as real == score as real
    ensures 0.0 < w <= 1.0
  {
    var t := total as real;
    assert w == score as real / t;
    assert score as real / t <= t / t;
  }

  /** Weights follow scores: a higher score never gets a lower weight, and
      a higher weight always comes from a higher score. */
  lemma WeightsFollowScores(cands: seq<Candidate>, ent2id: map<string, string>, thres: int)
    requires thres >= 0
    requires NoExact(cands)
    requires Generate(cands, ent2id, thres).Ok?
    ensures var kept := Survivors(cands, thres);
            var ws := Generate(cands, ent2id, thres).value.weights;
            && |ws| == |kept|
            && forall k, l :: 0 <= k < |kept| && 0 <= l < |kept| ==>
                 (kept[k].score <= kept[l].score <==> ws[k] <= ws[l])
  {
    NonExactShortlist(cands, ent2id, thres);
    var kept := Survivors(cands, thres);
    TotalBoundsScores(kept);
    var ws := Generate(cands, ent2id, thres).value.weights;
    forall k, l | 0 <= k < |kept| && 0 <= l < |kept|
      ensures kept[k].score <= kept[l].score <==> ws[k] <= ws[l]
    {
      ProportionalMonotone(ws, kept, Total(kept), k, l);
    }
  }

  /** Proportional weights against a positive total are ordered as their scores. */
  lemma ProportionalMonotone(ws: seq<real>, kept: seq<Candidate>, total: int, k: nat, l: nat)
    requires total > 0
    requires Proportional(ws, kept, total)
    requires k < |kept| && l < |kept|
    ensures kept[k].score <= kept[l].score <==> ws[k] <= ws[l]
  {
    ScaleMonotone(ws[k], ws[l], kept[k].score, kept[l].score, total);
  }

  /** Multiplying by a positive total keeps the order of two weights. */
  lemma ScaleMonotone(a: real, b: real, sa: int, sb: int, total: int)
    requires total > 0
    requires a * total as real == sa as real && b * total as real == sb as real
    ensures sa <= sb <==> a <= b
  {
    if a <= b {
      assert a * total as real <= b * total as real;
    } else {
      assert a * total as real > b * total as real;
    }
  }

  /** The result is empty exactly when no candidate is an exact match and
      none exceeds the threshold; then nothing is divided. */
  lemma EmptyIffNoSurvivor(cands: seq<Candidate>, ent2id: map<string, string>, thres: int)
    ensures Generate(cands, ent2id, thres) == Ok(Shortlist([], []))
            <==> forall j :: 0 <= j < |cands| ==> cands[j].score != ExactScore && cands[j].score <= thres
  {
    var r := Generate(cands, ent2id, thres);
    if forall j :: 0 <= j < |cands| ==> cands[j].score != ExactScore && cands[j].score <= thres {
      assert FirstExact(cands).None?;
      assert Survivors(cands, thres) == [] by {
        var kept := Survivors(cands, thres);
        assert forall c :: c !in kept;
      }
    }
    if r == Ok(Shortlist([], [])) {
      assert FirstExact(cands).None?;
      NonExactShortlist(cands, ent2id, thres);
      var kept := Survivors(cands, thres);
      assert forall j :: 0 <= j < |cands| ==> cands[j] !in kept;
    }
  }

  /** Division by zero happens exactly when there is no exact match, some
      candidate survives, and the survivors' scores add up to zero. */
  lemma ZeroDivisionIff(cands: seq<Candidate>, ent2id: map<string, string>, thres: int)
    ensures Generate(cands, ent2id, thres) == Err(ZeroDivision)
            <==> NoExact(cands) && |Survivors(cands, thres)| > 0 && Total(Survivors(cands, thres)) == 0
  {
  }

  /** With a non-negative threshold, in particular the default one, every
      survivor scores above zero, so the division is always defined. */
  lemma NonNegativeThresholdNeverDivides(cands: seq<Candidate>, ent2id: map<string, string>, thres: int)
    requires thres >= 0
    ensures Generate(cands, ent2id, thres) != Err(ZeroDivision)
  {
    ZeroDivisionIff(cands, ent2id, thres);
    TotalBoundsScores(Survivors(cands, thres));
  }

  /** A negative threshold lets a zero-scored candidate survive, and the
      division by its total of zero raises. */
  lemma NegativeThresholdDivides()
    ensures Generate([Candidate("flu", 0)], map["flu" := "MONDO:1"], -1) == Err(ZeroDivision)
  {
    var cands := [Candidate("flu", 0)];
    assert Survivors(cands, -1) == cands by {
      assert Survivors(cands[1..], -1) == [];
    }
    assert Total(cands) == 0 by {
      assert Total(cands[1..]) == 0;
    }
  }

  /** When the reverse index is built from the catalogue and every scored
      name is a catalogue name, every lookup succeeds; with a non-negative
      threshold generation therefore succeeds, and each returned identifier
      names, in the catalogue, a scored candidate. */
  lemma CatalogLookupsSucceed(items: seq<ReverseIndex.Entry>, cands: seq<Candidate>, thres: int)
    requires ReverseIndex.DistinctIds(items)
    requires forall k :: 0 <= k < |cands| ==> ReverseIndex.IsEntity(items, cands[k].name)
    requires thres >= 0
    ensures Generate(cands, ReverseIndex.Invert(items), thres).Ok?
    ensures var ids := Generate(cands, ReverseIndex.Invert(items), thres).value.ids;
            forall k :: 0 <= k < |ids| ==>
              && ids[k] in ReverseIndex.Catalog(items)
              && exists j :: 0 <= j < |cands| && ReverseIndex.Catalog(items)[ids[k]] == cands[j].name
  {
    var ent2id := ReverseIndex.Invert(items);
    var r := Generate(cands, ent2id, thres);
    NonNegativeThresholdNeverDivides(cands, ent2id, thres);
    var ids := r.value.ids;
    forall k | 0 <= k < |ids|
      ensures ids[k] in ReverseIndex.Catalog(items)
      ensures exists j :: 0 <= j < |cands| && ReverseIndex.Catalog(items)[ids[k]] == cands[j].name
    {
      match FirstExact(cands)
      case Some(i) =>
        ReverseIndex.InvertRoundTrip(items, cands[i].name);
      case None =>
        NonExactShortlist(cands, ent2id, thres);
        var kept := Survivors(cands, thres);
        assert kept[k] in cands;
        var j :| 0 <= j < |cands| && cands[j] == kept[k];
        ReverseIndex.InvertRoundTrip(items, cands[j].name);
    }
  }

  /** With a non-negative threshold every successful result, exact or not,
      has weights summing to one, or to zero when it is empty. */
  lemma SumIsOneOrZero(cands: seq<Candidate>, ent2id: map<string, string>, thres: int)
    requires thres >= 0
    requires Generate(cands, ent2id, thres).Ok?
    ensures var sl := Generate(cands, ent2id, thres).value;
            Sum(sl.weights) == if |sl.ids| == 0 then 0.0 else 1.0
  {
    var sl := Generate(cands, ent2id, thres).value;
    match FirstExact(cands)
    case Some(i) =>
      assert sl.weights == [1.0];
      assert Sum([1.0]) == 1.0 + Sum([]);
    case None =>
      NonExactUnfold(cands, ent2id, thres);
      if |sl.ids| > 0 {
        NonExactDistribution(cands, ent2id, thres);
      }
  }

  /** An exact match among the scored names is returned alone with weight 1.0. */
  lemma ExactMatchScenario()
    ensures Generate([Candidate("Hyperlipidemia", 100), Candidate("Diabetes Mellitus", 45)],
                     map["Hyperlipidemia" := "Q1", "Diabetes Mellitus" := "Q2"], DefaultThreshold)
            == Ok(Shortlist(["Q1"], [1.0]))
  {
    var cands := [Candidate("Hyperlipidemia", 100), Candidate("Diabetes Mellitus", 45)];
    ExactMatchWins(cands, map["Hyperlipidemia" := "Q1", "Diabetes Mellitus" := "Q2"], DefaultThreshold, 0);
  }

  /** Two of three candidates clear the default threshold and share the
      weight in proportion to their scores. */
  lemma SplitScenario()
    ensures Generate([Candidate("Diabetes Mellitus", 90), Candidate("Diabetes Insipidus", 60),
                      Candidate("Diabetic Neuropathy", 75)],
                     map["Diabetes Mellitus" := "Q2", "Diabetes Insipidus" := "Q3",
                         "Diabetic Neuropathy" := "Q4"], DefaultThreshold)
            == Ok(Shortlist(["Q2", "Q4"], [90.0 / 165.0, 75.0 / 165.0]))
  {
    var a, b, c := Candidate("Diabetes Mellitus", 90), Candidate("Diabetes Insipidus", 60),
                   Candidate("Diabetic Neuropathy", 75);
    var cands := [a, b, c];
    assert Survivors(cands, DefaultThreshold) == [a, c] by {
      assert cands[1..] == [b, c];
      assert cands[1..][1..] == [c];
      assert Survivors([c], DefaultThreshold) == [c] + Survivors([c][1..], DefaultThreshold);
    }
    assert Total([a, c]) == 165 by {
      assert [a, c][1..] == [c];
      TotalOfOne(c);
    }
    assert Weights([a, c], 165) == [90.0 / 165.0, 75.0 / 165.0] by {
      assert [a, c][1..] == [c];
      assert [c][1..] == [];
    }
    assert LookupIds([a, c], map["Diabetes Mellitus" := "Q2", "Diabetes Insipidus" := "Q3",
                                 "Diabetic Neuropathy" := "Q4"]).value == ["Q2", "Q4"];
  }

  /** Nothing clears a high threshold: the result is empty. */
  lemma HighThresholdScenario()
    ensures Generate([Candidate("Hyperlipidemia", 50)], map["Hyperlipidemia" := "Q1"], 99)
            == Ok(Shortlist([], []))
  {
    EmptyIffNoSurvivor([Candidate("Hyperlipidemia", 50)], map["Hyperlipidemia" := "Q1"], 99);
  }
}
