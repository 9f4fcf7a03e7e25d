/** Candidate generation: from the matcher's scored shortlist to entity
    identifiers with probability weights. An exact match wins outright;
    otherwise the candidates above the threshold are kept and each one's
    weight is its score over the survivors' total. */
module CandidateGeneration {
  import opened Results
  import opened Candidates

  /** The result of candidate generation: identifiers and their weights,
      position by position. */
  datatype Shortlist = Shortlist(ids: seq<string>, weights: seq<real>)

  /** The sum of a sequence of weights. */
  function Sum(ws: seq<real>): real {
    if |ws| == 0 then 0.0 else ws[0] + Sum(ws[1..])
  }

  /** `ws` weighs each survivor in proportion to its score: weight times
      total is the score. */
  predicate Proportional(ws: seq<real>, kept: seq<Candidate>, total: int) {
    && |ws| == |kept|
    && forall k :: 0 <= k < |kept| ==> ws[k] * total as real == kept[k].score as real
  }

  /** Every survivor's score over `total`, in order. */
  function Weights(kept: seq<Candidate>, total: int): (ws: seq<real>)
    requires total != 0
    ensures Proportional(ws, kept, total)
  {
    if |kept| == 0 then []
    else [kept[0].score as real / total as real] + Weights(kept[1..], total)
  }

  /** The division step: raises ZeroDivision exactly when there is a score
      to divide and the total is zero. */
  function Normalize(kept: seq<Candidate>, total: int): (r: Result<seq<real>>)
    ensures r.Err? <==> |kept| > 0 && total == 0
    ensures r.Err? ==> r.error == ZeroDivision
    ensures r.Ok? ==> Proportional(r.value, kept, total)
  {
    if |kept| == 0 then Ok([])
    else if total == 0 then Err(ZeroDivision)
    else Ok(Weights(kept, total))
  }

  /** Looks every name up in the reverse index, in order; the first name it
      does not hold raises KeyError. */
  function LookupIds(kept: seq<Candidate>, ent2id: map<string, string>): (r: Result<seq<string>>)
    ensures r.Ok? <==> forall k :: 0 <= k < |kept| ==> kept[k].name in ent2id
    ensures r.Ok? ==> |r.value| == |kept|
    ensures r.Ok? ==> forall k :: 0 <= k < |kept| ==> r.value[k] == ent2id[kept[k].name]
    ensures r.Err? ==> exists k :: 0 <= k < |kept| && r.error == KeyError(kept[k].name)
                                   && kept[k].name !in ent2id
                                   && forall j :: 0 <= j < k ==> kept[j].name in ent2id
  {
    if |kept| == 0 then Ok([])
    else if kept[0].name !in ent2id then Err(KeyError(kept[0].name))
    else match LookupIds(kept[1..], ent2id)
      case Err(e) =>
        assert exists k :: 1 <= k < |kept| && e == KeyError(kept[k].name)
                           && kept[k].name !in ent2id
                           && forall j :: 0 <= j < k ==> kept[j].name in ent2id by {
          var k' :| 0 <= k' < |kept| - 1 && e == KeyError(kept[1..][k'].name)
                    && kept[1..][k'].name !in ent2id
                    && forall j :: 0 <= j < k' ==> kept[1..][j].name in ent2id;
          assert forall j :: 1 <= j < k' + 1 ==> kept[j] == kept[1..][j - 1];
        }
        Err(e)
      case Ok(ids) => Ok([ent2id[kept[0].name]] + ids)
  }

  /** Candidate generation for one label, given the matcher's scored
      shortlist `cands`, the reverse index `ent2id` and the threshold. */
  function Generate(cands: seq<Candidate>, ent2id: map<string, string>, thres: int): (r: Result<Shortlist>)
    ensures r.Ok? ==> |r.value.ids| == |r.value.weights| <= |cands|
    ensures r.Ok? && IsExtractOutput(cands) ==> |r.value.ids| <= Limit
    ensures r.Err? && r.error.KeyError? ==> r.error.key !in ent2id
    ensures r.Err? && r.error.KeyError? ==>
      exists k :: 0 <= k < |cands| && cands[k].name == r.error.key
                  && (cands[k].score == ExactScore || cands[k].score > thres)
  {
    match FirstExact(cands)
    case Some(i) =>
      var name := cands[i].name;
      if name in ent2id then Ok(Shortlist([ent2id[name]], [1.0])) else Err(KeyError(name))
    case None =>
      var kept := Survivors(cands, thres);
      var weights :- Normalize(kept, Total(kept));
      SurvivorKeyError(cands, thres, ent2id);
      var ids :- LookupIds(kept, ent2id);
      Ok(Shortlist(ids, weights))
  }

  /** The name whose lookup fails among the survivors is that of a
      candidate scoring above the threshold. */
  lemma SurvivorKeyError(cands: seq<Candidate>, thres: int, ent2id: map<string, string>)
    ensures var r := LookupIds(Survivors(cands, thres), ent2id);
            r.Err? ==> exists k :: 0 <= k < |cands| && KeyError(cands[k].name) == r.error && cands[k].score > thres
  {
    var kept := Survivors(cands, thres);
    var r := LookupIds(kept, ent2id);
    if r.Err? {
      var k :| 0 <= k < |kept| && r.error == KeyError(kept[k].name);
      assert kept[k] in cands;
      var j :| 0 <= j < |cands| && cands[j] == kept[k];
    }
  }
}
