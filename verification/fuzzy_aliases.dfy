/** The loop that adds fuzzy-matched aliases to the knowledge base: for each
    surface form seen in the annotations, generate candidates and add them
    as an alias, unless the shortlist is one identifier with weight 1.0.
    The loop is split in two passes: generation for every label, where the
    first exception ends the loop, then the skip rule over the shortlists. */
module FuzzyAliases {
  import opened Results
  import opened Candidates
  import opened CandidateGeneration
  import opened CandidateGenerationProperties

  /** An alias for the knowledge base: a surface form, the identifiers it
      may refer to, and their prior probabilities. */
  datatype Alias = Alias(alias: string, ids: seq<string>, probs: seq<real>)

  /** A shortlist of exactly one identifier with weight 1.0 is skipped: all
      of its probability sits on that identifier. */
  predicate SkipsAlias(probs: seq<real>): (skip: bool)
    ensures skip ==> |probs| == 1 && Sum(probs) == 1.0
  {
    |probs| == 1 && probs[0] == 1.0
  }

  /** The shortlists of `labels`, in order. The matcher is the parameter
      `extract`, giving the scored shortlist of a label against the
      catalogue names; the first exception raised ends the loop. */
  function Shortlists(labels: seq<string>, extract: string -> seq<Candidate>,
                      ent2id: map<string, string>, thres: int): (r: Result<seq<Shortlist>>)
    ensures r.Ok? ==> |r.value| == |labels|
    ensures r.Ok? ==> forall k :: 0 <= k < |labels| ==> Generate(extract(labels[k]), ent2id, thres) == Ok(r.value[k])
    ensures r.Err? ==> exists k :: 0 <= k < |labels| && Generate(extract(labels[k]), ent2id, thres) == Err(r.error)
                                   && forall j :: 0 <= j < k ==> Generate(extract(labels[j]), ent2id, thres).Ok?
  {
    if |labels| == 0 then Ok([])
    else
      var sl :- Generate(extract(labels[0]), ent2id, thres);
      var rest :- Shortlists(labels[1..], extract, ent2id, thres);
      assert forall k :: 1 <= k < |labels| ==> labels[k] == labels[1..][k - 1];
      Ok([sl] + rest)
  }

  /** The aliases kept from the labels' shortlists: all but the skipped ones, in order. */
  function KeepAliases(labels: seq<string>, sls: seq<Shortlist>): (added: seq<Alias>)
    requires |labels| == |sls|
    ensures |added| <= |labels|
    ensures forall k :: 0 <= k < |added| ==> added[k].alias in labels && !SkipsAlias(added[k].probs)
  {
    if |labels| == 0 then []
    else
      var rest := KeepAliases(labels[1..], sls[1..]);
      assert forall a :: a in labels[1..] ==> a in labels;
      if SkipsAlias(sls[0].weights) then rest
      else [Alias(labels[0], sls[0].ids, sls[0].weights)] + rest
  }

  /** The aliases the loop adds for `labels`, or the first exception raised. */
  function AddFuzzyAliases(labels: seq<string>, extract: string -> seq<Candidate>,
                           ent2id: map<string, string>, thres: int): (r: Result<seq<Alias>>)
    ensures r.Ok? ==> |r.value| <= |labels|
    ensures r.Ok? ==> forall k :: 0 <= k < |r.value| ==>
      && r.value[k].alias in labels
      && !SkipsAlias(r.value[k].probs)
      && |r.value[k].ids| == |r.value[k].probs|
  {
    var sls :- Shortlists(labels, extract, ent2id, thres);
    var added := KeepAliases(labels, sls);
    assert forall k :: 0 <= k < |added| ==> |added[k].ids| == |added[k].probs| by {
      KeptAreFromLabels(labels, sls);
    }
    Ok(added)
  }

  /** `a` is the alias kept for the `i`-th label: its shortlist, not skipped. */
  predicate KeptFor(a: Alias, labels: seq<string>, sls: seq<Shortlist>, i: int)
    requires |labels| == |sls|
  {
    && 0 <= i < |labels|
    && !SkipsAlias(sls[i].weights)
    && a == Alias(labels[i], sls[i].ids, sls[i].weights)
  }

  /** `a` is the alias kept for one of the labels. */
  predicate KeptForSome(a: Alias, labels: seq<string>, sls: seq<Shortlist>)
    requires |labels| == |sls|
  {
    exists i :: 0 <= i < |labels| && KeptFor(a, labels, sls, i)
  }

  /** Every kept alias is some label with its own, unskipped shortlist. */
  lemma {:induction false} KeptAreFromLabels(labels: seq<string>, sls: seq<Shortlist>)
    requires |labels| == |sls|
    ensures forall k :: 0 <= k < |KeepAliases(labels, sls)| ==>
      KeptForSome(KeepAliases(labels, sls)[k], labels, sls)
  {
    if |labels| > 0 {
      KeptAreFromLabels(labels[1..], sls[1..]);
      var rest := KeepAliases(labels[1..], sls[1..]);
      var added := KeepAliases(labels, sls);
      var offset := if SkipsAlias(sls[0].weights) then 0 else 1;
      assert added[offset..] == rest;
      if offset == 1 {
        assert KeptFor(added[0], labels, sls, 0);
      }
      forall k | offset <= k < |added|
        ensures KeptForSome(added[k], labels, sls)
      {
        assert added[k] == rest[k - offset];
        var i :| 0 <= i < |labels| - 1 && KeptFor(rest[k - offset], labels[1..], sls[1..], i);
        assert KeptFor(added[k], labels, sls, i + 1);
      }
    }
  }

  /** Every label whose shortlist is not skipped is kept, with that shortlist. */
  lemma {:induction false} UnskippedAreKept(labels: seq<string>, sls: seq<Shortlist>, i: nat)
    requires |labels| == |sls|
    requires i < |labels|
    requires !SkipsAlias(sls[i].weights)
    ensures Alias(labels[i], sls[i].ids, sls[i].weights) in KeepAliases(labels, sls)
  {
    if i > 0 {
      UnskippedAreKept(labels[1..], sls[1..], i - 1);
      assert labels[1..][i - 1] == labels[i] && sls[1..][i - 1] == sls[i];
    }
  }

  /** The loop raises no exception exactly when candidate generation raises
      none for any label. */
  lemma {:induction false} LoopSucceedsIff(labels: seq<string>, extract: string -> seq<Candidate>,
                                           ent2id: map<string, string>, thres: int)
    ensures AddFuzzyAliases(labels, extract, ent2id, thres).Ok?
            <==> forall i :: 0 <= i < |labels| ==> Generate(extract(labels[i]), ent2id, thres).Ok?
  {
    if |labels| > 0 {
      LoopSucceedsIff(labels[1..], extract, ent2id, thres);
      assert forall i :: 1 <= i < |labels| ==> labels[i] == labels[1..][i - 1];
    }
  }

  /** With a non-negative threshold a shortlist is skipped exactly when it
      holds a single identifier: a lone survivor always weighs 1.0. */
  lemma SkipIffSingleId(cands: seq<Candidate>, ent2id: map<string, string>, thres: int)
    requires thres >= 0
    requires Generate(cands, ent2id, thres).Ok?
    ensures var sl := Generate(cands, ent2id, thres).value;
            SkipsAlias(sl.weights) <==> |sl.ids| == 1
  {
    var sl := Generate(cands, ent2id, thres).value;
    if FirstExact(cands).None? && |sl.ids| == 1 {
      NonExactShortlist(cands, ent2id, thres);
      LoneSurvivor(sl.weights, Survivors(cands, thres));
    }
  }

  /** A lone survivor with a non-zero score weighs 1.0 against its own total. */
  lemma LoneSurvivor(ws: seq<real>, kept: seq<Candidate>)
    requires |kept| == 1 && kept[0].score != 0
    requires Proportional(ws, kept, Total(kept))
    ensures ws == [1.0]
  {
    assert kept == [kept[0]];
    TotalOfOne(kept[0]);
    LoneWeight(ws[0], kept[0].score, Total(kept));
  }

  /** A weight that times a total equal to a non-zero score gives that score is one. */
  lemma LoneWeight(w: real, score: int, total: int)
    requires score != 0 && total == score
    requires w * total as real == score as real
    ensures w == 1.0
  {
    var t := total as real;
    calc {
      w;
      w * (t / t);
      (w * t) / t;
      t / t;
      1.0;
    }
  }

  /** An alias whose identifiers number zero or at least two, with
      probabilities summing to one, or to zero when it lists no identifier. */
  predicate IsDistribution(a: Alias) {
    && |a.ids| != 1
    && Sum(a.probs) == if |a.ids| == 0 then 0.0 else 1.0
  }

  /** Every alias the loop adds, with a non-negative threshold, lists either
      no identifier or at least two, with probabilities summing to exactly
      one when non-empty; so never above one. */
  lemma AddedAliasesAreDistributions(labels: seq<string>, extract: string -> seq<Candidate>,
                                     ent2id: map<string, string>, thres: int)
    requires thres >= 0
    requires AddFuzzyAliases(labels, extract, ent2id, thres).Ok?
    ensures var added := AddFuzzyAliases(labels, extract, ent2id, thres).value;
            forall k :: 0 <= k < |added| ==> IsDistribution(added[k])
  {
    var sls := Shortlists(labels, extract, ent2id, thres).value;
    var added := KeepAliases(labels, sls);
    assert AddFuzzyAliases(labels, extract, ent2id, thres).value == added;
    KeptAreFromLabels(labels, sls);
    forall k | 0 <= k < |added|
      ensures IsDistribution(added[k])
    {
      var i :| 0 <= i < |labels| && KeptFor(added[k], labels, sls, i);
      SumIsOneOrZero(extract(labels[i]), ent2id, thres);
      SkipIffSingleId(extract(labels[i]), ent2id, thres);
    }
  }

  /** Every label whose shortlist is not skipped is added, with that
      shortlist; every added alias is such a label with its shortlist. */
  lemma AddedIffNotSkipped(labels: seq<string>, extract: string -> seq<Candidate>,
                           ent2id: map<string, string>, thres: int)
    requires AddFuzzyAliases(labels, extract, ent2id, thres).Ok?
    ensures var sls := Shortlists(labels, extract, ent2id, thres).value;
            var added := AddFuzzyAliases(labels, extract, ent2id, thres).value;
            && (forall i :: 0 <= i < |labels| && !SkipsAlias(sls[i].weights) ==>
                  Alias(labels[i], sls[i].ids, sls[i].weights) in added)
            && (forall k :: 0 <= k < |added| ==> KeptForSome(added[k], labels, sls))
  {
    var sls := Shortlists(labels, extract, ent2id, thres).value;
    KeptAreFromLabels(labels, sls);
    forall i | 0 <= i < |labels| && !SkipsAlias(sls[i].weights)
      ensures Alias(labels[i], sls[i].ids, sls[i].weights) in KeepAliases(labels, sls)
    {
      UnskippedAreKept(labels, sls, i);
    }
  }
}
