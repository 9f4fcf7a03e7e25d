/** The entity catalogue (identifier to canonical name) and the reverse
    index built from it by swapping every item, in iteration order. */
module ReverseIndex {

  /** One item of the catalogue: an identifier and its canonical name. */
  datatype Entry = Entry(qid: string, name: string)

  /** A catalogue's items are a dictionary's items: no identifier twice. */
  predicate DistinctIds(items: seq<Entry>) {
    forall i, j :: 0 <= i < j < |items| ==> items[i].qid != items[j].qid
  }

  /** No canonical name twice. */
  predicate DistinctNames(items: seq<Entry>) {
    forall i, j :: 0 <= i < j < |items| ==> items[i].name != items[j].name
  }

  /** `c` is one of the catalogue's values, the names the matcher scores. */
  predicate IsEntity(items: seq<Entry>, c: string) {
    exists i :: 0 <= i < |items| && items[i].name == c
  }

  /** The catalogue as a map from identifier to name. */
  function Catalog(items: seq<Entry>): (m: map<string, string>)
    ensures forall q :: q in m <==> exists i :: 0 <= i < |items| && items[i].qid == q
  {
    if |items| == 0 then map[]
    else
      var last := items[|items| - 1];
      Catalog(items[..|items| - 1])[last.qid := last.name]
  }

  /** The reverse index: each item, in order, maps its name to its
      identifier, so a later item overrides an earlier one with the same name. */
  function Invert(items: seq<Entry>): (m: map<string, string>)
    ensures forall c :: c in m <==> IsEntity(items, c)
  {
    if |items| == 0 then map[]
    else
      var last := items[|items| - 1];
      var m := Invert(items[..|items| - 1])[last.name := last.qid];
      assert forall c :: IsEntity(items, c) <==> IsEntity(items[..|items| - 1], c) || c == last.name by {
        forall c | IsEntity(items, c)
          ensures IsEntity(items[..|items| - 1], c) || c == last.name
        {
          var i :| 0 <= i < |items| && items[i].name == c;
          if i < |items| - 1 {
            assert items[..|items| - 1][i] == items[i];
          }
        }
        forall c | IsEntity(items[..|items| - 1], c)
          ensures IsEntity(items, c)
        {
          var i :| 0 <= i < |items| - 1 && items[..|items| - 1][i].name == c;
          assert items[i].name == c;
        }
      }
      m
  }

  /** In a catalogue with distinct identifiers, each item's identifier maps
      to its own name. */
  lemma {:induction false} CatalogAt(items: seq<Entry>, i: nat)
    requires DistinctIds(items)
    requires i < |items|
    ensures items[i].qid in Catalog(items)
    ensures Catalog(items)[items[i].qid] == items[i].name
  {
    var n := |items| - 1;
    if i < n {
      var init := items[..n];
      assert init[i] == items[i];
      assert DistinctIds(init) by {
        forall a, b | 0 <= a < b < |init|
          ensures init[a].qid != init[b].qid
        {
          assert init[a] == items[a] && init[b] == items[b];
        }
      }
      CatalogAt(init, i);
    }
  }

  /** With duplicate names the last item carrying the name wins: the reverse
      index sends it to that item's identifier. */
  lemma {:induction false} InvertLastWins(items: seq<Entry>, i: nat)
    requires i < |items|
    requires forall j :: i < j < |items| ==> items[j].name != items[i].name
    ensures items[i].name in Invert(items)
    ensures Invert(items)[items[i].name] == items[i].qid
  {
    var n := |items| - 1;
    if i < n {
      var init := items[..n];
      assert init[i] == items[i];
      assert forall j :: i < j < |init| ==> init[j] == items[j];
      InvertLastWins(init, i);
    }
  }

  /** Looking a catalogue name up in the reverse index and then in the
      catalogue gives the name back. */
  lemma InvertRoundTrip(items: seq<Entry>, c: string)
    requires DistinctIds(items)
    requires IsEntity(items, c)
    ensures c in Invert(items)
    ensures Invert(items)[c] in Catalog(items)
    ensures Catalog(items)[Invert(items)[c]] == c
  {
    var i := LastWith(items, c);
    InvertLastWins(items, i);
    CatalogAt(items, i);
  }

  /** The position of the last item named `c`. */
  function LastWith(items: seq<Entry>, c: string): (i: nat)
    requires IsEntity(items, c)
    ensures i < |items| && items[i].name == c
    ensures forall j :: i < j < |items| ==> items[j].name != c
  {
    var n := |items| - 1;
    if items[n].name == c then n
    else
      assert IsEntity(items[..n], c) by {
        var i :| 0 <= i < |items| && items[i].name == c;
        assert items[..n][i] == items[i];
      }
      var i := LastWith(items[..n], c);
      assert items[..n][i] == items[i];
      i
  }

  /** When names are unique too, the reverse index is the exact inverse of
      the catalogue. */
  lemma ExactInverse(items: seq<Entry>, i: nat)
    requires DistinctIds(items) && DistinctNames(items)
    requires i < |items|
    ensures Invert(items)[items[i].name] == items[i].qid
    ensures Catalog(items)[Invert(items)[items[i].name]] == items[i].name
  {
    InvertLastWins(items, i);
    CatalogAt(items, i);
  }

  /** Two identifiers sharing one name: the later one is what the reverse
      index keeps. */
  lemma DuplicateNameKeepsLater()
    ensures Invert([Entry("MONDO:1", "flu"), Entry("MONDO:2", "flu")])["flu"] == "MONDO:2"
  {
    InvertLastWins([Entry("MONDO:1", "flu"), Entry("MONDO:2", "flu")], 1);
  }
}
