# Candidate generation for disease entity linking

A Dafny model of the one piece of logic in the disease knowledge-base builder:
`cand_gen`. It turns the fuzzy matcher's scored shortlist for a surface form
into entity identifiers with probability weights. The model also covers the
reverse index (`ent2id`) that candidate generation looks names up in, and the
loop that adds the generated candidates to the knowledge base as aliases.

- `Candidates` (candidates.dfy): the matcher's output as a sequence of
  `Candidate(name, score)`, plus the three building blocks. These are the first
  exact match (score 100), the survivors of the threshold, and their total score.
- `CandidateGeneration` (cand_gen.dfy): `Generate`, the model of `cand_gen`.
  Weights are `real`, so "the weights sum to one" is exact. Python's exceptions
  are modelled as `Result` errors (results.dfy). `KeyError(name)` is a name the
  reverse index does not hold. `ZeroDivision` is a division by a zero total.
  The errors come in Python's order. The exact path looks its name up at once.
  Otherwise every weight is computed (line 21) before any survivor is looked up
  (line 22).
- `CandidateGenerationProperties` (cand_gen_properties.dfy): the properties
  the caller relies on, as lemmas.
- `ReverseIndex` (reverse_index.dfy): the catalogue `name_dict` is modelled by
  its item sequence: distinct identifiers, in insertion order. `Invert` swaps
  every item in that order, as the dict comprehension does. So with duplicate
  names the later identifier wins.
- `FuzzyAliases` (fuzzy_aliases.dfy): the alias loop. It skips a shortlist
  that is one identifier with weight 1.0, and stops at the first exception.
  The model splits it into two passes: generation for every label, then the
  skip rule. Nothing is observable between the two, since an exception ends
  the run before the knowledge base is written.

Behaviour of the code worth stating:

- The threshold is any integer. A negative threshold lets a zero score
  survive, and the division by the survivors' total of zero then raises
  (`NegativeThresholdDivides`). A non-negative threshold, the default 70 among
  them, never divides by zero (`NonNegativeThresholdNeverDivides`).
- Catalogue names need not be unique. The reverse index keeps the last
  identifier carrying a name (`InvertLastWins`), and it is the exact inverse
  only when names are unique (`ExactInverse`).
- In the ordinary path a non-empty result has weights summing to exactly one
  (`WeightsAreDistribution`).

## Model

| member | source | states |
|---|---|---|
| Candidates.IsExtractOutput | disease_nel/src/create_kb_nlp.py:14 | the matcher's output: at most 5 (name, score) pairs with scores in [0, 100], so their total lies in [0, 500] |
| Candidates.FirstExact | disease_nel/src/create_kb_nlp.py:16-17 | the position of the first candidate in list order scoring exactly 100; None exactly when no candidate scores 100 |
| Candidates.Survivors | disease_nel/src/create_kb_nlp.py:18-21 | the kept candidates are exactly those of the input scoring strictly above the threshold, and there are no more of them than inputs |
| Candidates.KeptPositions | disease_nel/src/create_kb_nlp.py:21 | the positions scoring above the threshold, strictly increasing, and every such position is included |
| Candidates.SurvivorsInOrder | disease_nel/src/create_kb_nlp.py:21-23 | the k-th survivor is the input at the k-th kept position, so filtering keeps the input's relative order |
| Candidates.Total | disease_nel/src/create_kb_nlp.py:15-19 | the accumulated score: with scores in [0, 100] it lies between 0 and 100 times the number of scores |
| Candidates.TotalAppend | disease_nel/src/create_kb_nlp.py:15-19 | accumulating score by score adds up: the total of a concatenation is the sum of the two totals |
| Candidates.TotalBoundsScores | disease_nel/src/create_kb_nlp.py:15-19 | when all scores are positive, the total is positive for a non-empty list and no single score exceeds it |
| CandidateGeneration.Weights | disease_nel/src/create_kb_nlp.py:21 | one weight per survivor, and each weight times the total equals that survivor's score |
| CandidateGeneration.Normalize | disease_nel/src/create_kb_nlp.py:21 | raises ZeroDivision exactly when there is a survivor and the total is zero; otherwise the weights are proportional to the scores |
| CandidateGeneration.LookupIds | disease_nel/src/create_kb_nlp.py:22 | succeeds exactly when every survivor's name is in the reverse index, giving its identifier position by position; otherwise raises KeyError for the first missing name |
| CandidateGeneration.Generate | disease_nel/src/create_kb_nlp.py:13-24 | as many weights as identifiers, never more than the candidates (so at most 5 from the matcher); a KeyError names a candidate missing from the reverse index that either scores 100 or clears the threshold, never a dropped one |
| CandidateGenerationProperties.ExactMatchWins | disease_nel/src/create_kb_nlp.py:16-17 | the first 100-scoring candidate gives exactly its identifier with weight 1.0, or KeyError if its name is not indexed |
| CandidateGenerationProperties.ExactMatchIgnoresOthers | disease_nel/src/create_kb_nlp.py:16-17 | candidates before the first exact match and all candidates after it do not change the result |
| CandidateGenerationProperties.NonExactShortlist | disease_nel/src/create_kb_nlp.py:18-23 | without an exact match, the i-th identifier is ent2id of the i-th survivor, survivors follow input order and score above the threshold, and weights are proportional to scores |
| CandidateGenerationProperties.OnlySurvivorsReturned | disease_nel/src/create_kb_nlp.py:16-22 | with a threshold below 100 (the default is 70), every returned identifier, on the exact path or the ordinary one, is that of a candidate scoring strictly above the threshold |
| CandidateGenerationProperties.SumOfWeights | disease_nel/src/create_kb_nlp.py:19-21 | the weights sum to the survivors' total divided by the divisor |
| CandidateGenerationProperties.WeightsAreDistribution | disease_nel/src/create_kb_nlp.py:15-22 | with a threshold of at least 0, no exact match, some candidate above the threshold and every such name indexed, generation succeeds with a non-empty weight list summing to exactly 1, each weight in (0, 1] |
| CandidateGenerationProperties.NonExactDistribution | disease_nel/src/create_kb_nlp.py:15-21 | with a threshold of at least 0, a successful ordinary result with survivors has weights summing to exactly 1, each in (0, 1] |
| CandidateGenerationProperties.SurvivorWeights | disease_nel/src/create_kb_nlp.py:19-21 | positive-scored survivors weighed against their own total sum to 1, each weight in (0, 1] |
| CandidateGenerationProperties.WeightBounds | disease_nel/src/create_kb_nlp.py:21 | a score in (0, total] divided by the total lies in (0, 1] |
| CandidateGenerationProperties.WeightsFollowScores | disease_nel/src/create_kb_nlp.py:21 | one weight per survivor, and for any two survivors the first weighs at most the second exactly when it scores at most the second |
| CandidateGenerationProperties.EmptyIffNoSurvivor | disease_nel/src/create_kb_nlp.py:16-24 | the result is two empty lists exactly when no candidate scores 100 and none exceeds the threshold |
| CandidateGenerationProperties.ZeroDivisionIff | disease_nel/src/create_kb_nlp.py:15-21 | division by zero happens exactly when there is no exact match, some candidate survives and the survivors' total is zero |
| CandidateGenerationProperties.NonNegativeThresholdNeverDivides | disease_nel/src/create_kb_nlp.py:13-21 | with a threshold of at least 0 (the default is 70) no division by zero can happen |
| CandidateGenerationProperties.NegativeThresholdDivides | disease_nel/src/create_kb_nlp.py:18-21 | with threshold -1, a single zero-scored candidate leads to a division by zero |
| CandidateGenerationProperties.CatalogLookupsSucceed | disease_nel/src/create_kb_nlp.py:107-108 | when ent2id inverts the catalogue and every scored name is a catalogue name, generation with a threshold of at least 0 succeeds, and the catalogue maps each returned identifier back to a scored name |
| CandidateGenerationProperties.SumIsOneOrZero | disease_nel/src/create_kb_nlp.py:15-23 | with a threshold of at least 0, every successful result, exact or not, has weights summing to 1, or to 0 when empty |
| CandidateGenerationProperties.ExactMatchScenario | disease_nel/src/create_kb_nlp.py:13-17 | "Hyperlipidemia" scoring 100 gives (["Q1"], [1.0]) under the default threshold |
| CandidateGenerationProperties.SplitScenario | disease_nel/src/create_kb_nlp.py:13-24 | scores 90, 60, 75 at threshold 70 give the first and third identifiers with weights 90/165 and 75/165 |
| CandidateGenerationProperties.HighThresholdScenario | disease_nel/src/create_kb_nlp.py:18-24 | a best score of 50 at threshold 99 gives two empty lists |
| ReverseIndex.Catalog | disease_nel/src/create_kb_nlp.py:51 | the catalogue's keys are exactly the identifiers of its items |
| ReverseIndex.Invert | disease_nel/src/create_kb_nlp.py:108 | the reverse index's keys are exactly the catalogue's names (name_dict.values()) |
| ReverseIndex.CatalogAt | disease_nel/src/create_kb_nlp.py:51 | with distinct identifiers, each item's identifier maps to its own name |
| ReverseIndex.InvertLastWins | disease_nel/src/create_kb_nlp.py:108 | a name maps to the identifier of the last item that carries it |
| ReverseIndex.InvertRoundTrip | disease_nel/src/create_kb_nlp.py:107-108 | for every catalogue name c, ent2id[c] is defined and name_dict[ent2id[c]] == c |
| ReverseIndex.ExactInverse | disease_nel/src/create_kb_nlp.py:108 | when names are unique too, every item's name maps back to the item's own identifier |
| ReverseIndex.DuplicateNameKeepsLater | disease_nel/src/create_kb_nlp.py:108 | two identifiers sharing one name: the reverse index keeps the later one |
| FuzzyAliases.Shortlists | disease_nel/src/create_kb_nlp.py:116-118 | one shortlist per label, each the one candidate generation returns for it; an exception is the one generation raised for the first failing label, every label before it having succeeded |
| FuzzyAliases.SkipsAlias | disease_nel/src/create_kb_nlp.py:119 | a skipped shortlist has exactly one probability and it is the whole mass, summing to 1 |
| FuzzyAliases.KeepAliases | disease_nel/src/create_kb_nlp.py:119-120 | every kept alias is one of the labels and is never a lone 1.0 weight |
| FuzzyAliases.AddFuzzyAliases | disease_nel/src/create_kb_nlp.py:116-120 | each added alias is one of the labels, is not a lone 1.0 weight, and pairs identifiers with probabilities one to one |
| FuzzyAliases.KeptAreFromLabels | disease_nel/src/create_kb_nlp.py:119-120 | every kept alias is some label together with its own unskipped shortlist |
| FuzzyAliases.UnskippedAreKept | disease_nel/src/create_kb_nlp.py:119-120 | every label whose shortlist is not skipped is kept with exactly that shortlist |
| FuzzyAliases.LoopSucceedsIff | disease_nel/src/create_kb_nlp.py:116-118 | the loop raises no exception exactly when candidate generation raises none for any label |
| FuzzyAliases.SkipIffSingleId | disease_nel/src/create_kb_nlp.py:119 | with a threshold of at least 0, a shortlist is skipped exactly when it holds one identifier, because a lone survivor always weighs 1.0 |
| FuzzyAliases.LoneSurvivor | disease_nel/src/create_kb_nlp.py:21 | a single survivor with a non-zero score gets the weight list [1.0] |
| FuzzyAliases.AddedAliasesAreDistributions | disease_nel/src/create_kb_nlp.py:118-120 | with a threshold of at least 0, every added alias has zero or at least two identifiers, and its probabilities sum to 0 or exactly 1, never above 1 |
| FuzzyAliases.AddedIffNotSkipped | disease_nel/src/create_kb_nlp.py:116-120 | a label is added with its own shortlist exactly when that shortlist is not skipped: every unskipped label is added, and every added alias is such a label |

## Left out

- The fuzzy scorer (`process.extract` with `fuzz.token_sort_ratio`, line 14) is library code. Its output is an input: a sequence of (name, integer score) pairs. `IsExtractOutput` states what the library guarantees: at most 5 pairs, scores in [0, 100]. How the library orders and truncates ties is not modelled.
- Python floating-point rounding of `s/total` is not modelled. Weights are exact reals. With floats, several weights may sum to one only up to rounding.
- Knowledge-base calls are foreign library calls and are not modelled: `KnowledgeBase` construction, `add_entity`, `add_alias`, `contains_entity`, `get_candidates`, `dump`. Description vectors are not modelled either. The alias loop returns the aliases it would add instead.
- File reading and writing is I/O and is not modelled. This covers `load_entities`, `parse_annots`, the alias TSV, the output directory and `print`. The catalogue is given as its item sequence with distinct identifiers.
- The labels come from `list(set(...))` (line 105), whose order is arbitrary. The alias loop takes them as a given sequence.
- The manual alias loop (lines 77-87) and the full-name aliases (lines 72-73) only call the knowledge-base library, so they are not modelled.
- disease_ner/check_model.py is not modelled. It is an interactive console loop over a model's predictions, with no logic to state.
