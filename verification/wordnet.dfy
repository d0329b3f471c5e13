/** The lexicon around the query: synset records fill an id-to-label table
    and a noun-to-ids index, hypernym records add the is-a edges, and the
    noun queries resolve words to id bags before asking the query engine. */
module WordNet {
  import opened Wrappers
  import opened Errors
  import opened Digraph
  import opened Bfs
  import opened Sap

  /** One synset line after splitting: the id, the synset text (which is
      also the label) and the nouns the text holds, split on spaces. */
  datatype SynsetRecord = SynsetRecord(id: int, synset: string, nouns: seq<string>)

  /** One hypernym line after splitting: a synset id and its hypernym ids. */
  datatype HypernymRecord = HypernymRecord(id: int, hypernyms: seq<int>)

  /** Noun to bag of synset ids; a bag is kept as a sequence, and only which
      ids it holds and how often matters. */
  type NounIndex = map<string, seq<int>>

  datatype Index = Index(synsetIds: map<int, string>, nounIndex: NounIndex)

  datatype WordNet = WordNet(index: Index, graph: Graph)

  /** The bag of a noun, empty when the noun is not indexed. */
  function BagOf(ni: NounIndex, noun: string): seq<int> {
    if noun in ni then ni[noun] else []
  }

  /** Files id under one noun: an existing bag is extended, a new noun gets a
      bag holding exactly id. */
  function AddNoun(ni: NounIndex, noun: string, id: int): (r: NounIndex)
    ensures r.Keys == ni.Keys + {noun}
    ensures multiset(r[noun]) == multiset(BagOf(ni, noun)) + multiset{id}
    ensures forall x :: x in r[noun] <==> x in BagOf(ni, noun) || x == id
    ensures noun !in ni ==> r[noun] == [id]
    ensures forall n :: n in ni && n != noun ==> r[n] == ni[n]
  {
    if noun in ni then ni[noun := ni[noun] + [id]] else ni[noun := [id]]
  }

  /** Files id under every noun of a synset, in order. Afterwards every
      one of the nouns is indexed; nouns outside the synset keep their bags. */
  function AddNouns(ni: NounIndex, nouns: seq<string>, id: int): (r: NounIndex)
    ensures forall n :: n in r <==> n in ni || n in nouns
    ensures forall n :: n in ni && n !in nouns ==> r[n] == ni[n]
    decreases |nouns|
  {
    if |nouns| == 0 then ni
    else
      var rest := nouns[1..];
      assert forall n :: n in nouns <==> n == nouns[0] || n in rest;
      AddNouns(AddNoun(ni, nouns[0], id), rest, id)
  }

  /** Afterwards a noun's bag holds exactly what it held before, plus id
      when the noun is one of the synset's. */
  lemma {:induction false} AddNounsMembers(ni: NounIndex, nouns: seq<string>, id: int, n: string, x: int)
    ensures x in BagOf(AddNouns(ni, nouns, id), n) <==> x in BagOf(ni, n) || (x == id && n in nouns)
    decreases |nouns|
  {
    if |nouns| > 0 {
      var ni' := AddNoun(ni, nouns[0], id);
      AddNounsMembers(ni', nouns[1..], id, n, x);
      assert n in nouns <==> n == nouns[0] || n in nouns[1..];
      if n == nouns[0] {
        assert x in BagOf(ni', n) <==> x in BagOf(ni, n) || x == id;
      } else {
        assert BagOf(ni', n) == BagOf(ni, n);
      }
    }
  }

  /** Filing id under one noun adds one copy of id to that noun's bag. */
  lemma AddNounCounts(ni: NounIndex, noun: string, id: int, n: string, x: int)
    ensures multiset(BagOf(AddNoun(ni, noun, id), n))[x] ==
      multiset(BagOf(ni, n))[x] + (if n == noun && x == id then 1 else 0)
  {
  }

  lemma CountCons(nouns: seq<string>, n: string)
    requires |nouns| > 0
    ensures multiset(nouns)[n] == (if n == nouns[0] then 1 else 0) + multiset(nouns[1..])[n]
  {
    assert nouns == [nouns[0]] + nouns[1..];
  }

  /** Each occurrence of a noun in the synset adds one copy of id to that
      noun's bag, and nothing else is added. */
  lemma {:induction false} AddNounsCounts(ni: NounIndex, nouns: seq<string>, id: int, n: string, x: int)
    ensures multiset(BagOf(AddNouns(ni, nouns, id), n))[x] ==
      multiset(BagOf(ni, n))[x] + (if x == id then multiset(nouns)[n] else 0)
    decreases |nouns|
  {
    if |nouns| > 0 {
      var ni' := AddNoun(ni, nouns[0], id);
      var rest := nouns[1..];
      assert AddNouns(ni, nouns, id) == AddNouns(ni', rest, id);
      AddNounsCounts(ni', rest, id, n, x);
      AddNounCounts(ni, nouns[0], id, n, x);
      CountCons(nouns, n);
    }
  }

  /** One synset record: the id gets the synset as its label (replacing an
      earlier one), and the id is filed under each of its nouns. */
  function AddSynset(idx: Index, rec: SynsetRecord): (r: Index)
    ensures r.synsetIds.Keys == idx.synsetIds.Keys + {rec.id}
    ensures r.synsetIds[rec.id] == rec.synset
    ensures forall k :: k in idx.synsetIds && k != rec.id ==> r.synsetIds[k] == idx.synsetIds[k]
    ensures r.nounIndex == AddNouns(idx.nounIndex, rec.nouns, rec.id)
  {
    Index(idx.synsetIds[rec.id := rec.synset], AddNouns(idx.nounIndex, rec.nouns, rec.id))
  }

  function Ids(recs: seq<SynsetRecord>): set<int> {
    set i | 0 <= i < |recs| :: recs[i].id
  }

  function AllNouns(recs: seq<SynsetRecord>): set<string> {
    set i, n | 0 <= i < |recs| && n in recs[i].nouns :: n
  }

  /** All synset records, first to last. */
  function ReadSynsets(recs: seq<SynsetRecord>): (r: Index)
    ensures r.synsetIds.Keys == Ids(recs)
    ensures forall n :: n in r.nounIndex <==> n in AllNouns(recs)
  {
    if |recs| == 0 then Index(map[], map[])
    else
      var init := recs[..|recs| - 1];
      assert forall i :: 0 <= i < |init| ==> init[i] == recs[i];
      assert Ids(recs) == Ids(init) + {recs[|recs| - 1].id};
      var last := recs[|recs| - 1];
      assert AllNouns(recs) == AllNouns(init) + (set n | n in last.nouns);
      AddSynset(ReadSynsets(init), last)
  }

  /** A record that no later record overrides decides its id's label. */
  lemma {:induction false} ReadSynsetsLabels(recs: seq<SynsetRecord>, i: int)
    requires 0 <= i < |recs| && forall j :: i < j < |recs| ==> recs[j].id != recs[i].id
    ensures ReadSynsets(recs).synsetIds[recs[i].id] == recs[i].synset
  {
    var init := recs[..|recs| - 1];
    if i < |recs| - 1 {
      assert forall j :: 0 <= j < |init| ==> init[j] == recs[j];
      ReadSynsetsLabels(init, i);
    }
  }

  lemma ReadSynsetsStep(recs: seq<SynsetRecord>, n: string, x: int)
    requires |recs| > 0
    ensures x in BagOf(ReadSynsets(recs).nounIndex, n) <==>
      x in BagOf(ReadSynsets(recs[..|recs| - 1]).nounIndex, n) || (x == recs[|recs| - 1].id && n in recs[|recs| - 1].nouns)
  {
    var last := recs[|recs| - 1];
    assert ReadSynsets(recs).nounIndex == AddNouns(ReadSynsets(recs[..|recs| - 1]).nounIndex, last.nouns, last.id);
    AddNounsMembers(ReadSynsets(recs[..|recs| - 1]).nounIndex, last.nouns, last.id, n, x);
  }

  /** Every noun a record lists has that record's id in its bag. */
  lemma {:induction false} ReadSynsetsFiles(recs: seq<SynsetRecord>, i: int, n: string)
    requires 0 <= i < |recs| && n in recs[i].nouns
    ensures recs[i].id in BagOf(ReadSynsets(recs).nounIndex, n)
  {
    ReadSynsetsStep(recs, n, recs[i].id);
    if i < |recs| - 1 {
      var init := recs[..|recs| - 1];
      assert init[i] == recs[i];
      ReadSynsetsFiles(init, i, n);
    }
  }

  /** Every id in a noun's bag comes from a record with that id listing the
      noun. */
  lemma {:induction false} ReadSynsetsSound(recs: seq<SynsetRecord>, n: string, x: int)
    requires x in BagOf(ReadSynsets(recs).nounIndex, n)
    ensures exists i :: 0 <= i < |recs| && recs[i].id == x && n in recs[i].nouns
  {
    ReadSynsetsStep(recs, n, x);
    var init := recs[..|recs| - 1];
    if x in BagOf(ReadSynsets(init).nounIndex, n) {
      ReadSynsetsSound(init, n, x);
      var i :| 0 <= i < |init| && init[i].id == x && n in init[i].nouns;
      assert recs[i] == init[i];
    } else {
      assert recs[|recs| - 1].id == x;
    }
  }

  /** A hypernym record the graph accepts: a record without hypernyms adds no
      edge and so is never checked; otherwise every endpoint must be a vertex. */
  predicate ValidHypernyms(n: nat, rec: HypernymRecord) {
    |rec.hypernyms| == 0 || (0 <= rec.id < n && forall i :: 0 <= i < |rec.hypernyms| ==> 0 <= rec.hypernyms[i] < n)
  }

  /** Adds the edges from -> tos[0], from -> tos[1], ... in order. */
  function AddEdges(g: Graph, from: int, tos: seq<int>): (r: Result<Graph, Error>)
    requires WellFormed(g)
    ensures r.Success? <==> ValidHypernyms(|g|, HypernymRecord(from, tos))
    ensures r.Failure? ==> r.error == VertexRejected
    ensures r.Success? ==> |r.value| == |g| && WellFormed(r.value)
    ensures r.Success? ==> forall v :: IsVertex(g, v) ==> r.value[v] == g[v] + (if v == from then tos else [])
    decreases |tos|
  {
    if |tos| == 0 then Success(g)
    else match AddEdge(g, from, tos[0])
      case Failure(e) => Failure(e)
      case Success(g') =>
        var r := AddEdges(g', from, tos[1..]);
        assert tos == [tos[0]] + tos[1..];
        r
  }

  /** The hypernyms of the records with id v, concatenated in record order. */
  function EdgesFrom(recs: seq<HypernymRecord>, v: int): seq<int> {
    if |recs| == 0 then []
    else EdgesFrom(recs[..|recs| - 1], v) + (if recs[|recs| - 1].id == v then recs[|recs| - 1].hypernyms else [])
  }

  /** One more record extends each vertex's list by that record's share. */
  lemma EdgesStep(g: Graph, g': Graph, r: Graph, recs: seq<HypernymRecord>)
    requires |recs| > 0 && |g'| == |g| && |r| == |g|
    requires forall v :: IsVertex(g, v) ==> g'[v] == g[v] + EdgesFrom(recs[..|recs| - 1], v)
    requires forall v :: IsVertex(g', v) ==>
      r[v] == g'[v] + (if v == recs[|recs| - 1].id then recs[|recs| - 1].hypernyms else [])
    ensures forall v :: IsVertex(g, v) ==> r[v] == g[v] + EdgesFrom(recs, v)
  {
    forall v | IsVertex(g, v)
      ensures r[v] == g[v] + EdgesFrom(recs, v)
    {
      var last := recs[|recs| - 1];
      var tail := if v == last.id then last.hypernyms else [];
      var before := EdgesFrom(recs[..|recs| - 1], v);
      assert EdgesFrom(recs, v) == before + tail;
      assert r[v] == (g[v] + before) + tail;
      AppendAssoc(g[v], before, tail);
    }
  }

  lemma AppendAssoc(a: seq<int>, b: seq<int>, c: seq<int>)
    ensures (a + b) + c == a + (b + c)
  {
  }

  /** All hypernym records, first to last. */
  function ReadHypernyms(g: Graph, recs: seq<HypernymRecord>): (r: Result<Graph, Error>)
    requires WellFormed(g)
    ensures r.Success? <==> forall i :: 0 <= i < |recs| ==> ValidHypernyms(|g|, recs[i])
    ensures r.Failure? ==> r.error == VertexRejected
    ensures r.Success? ==> |r.value| == |g| && WellFormed(r.value)
    ensures r.Success? ==> forall v :: IsVertex(g, v) ==> r.value[v] == g[v] + EdgesFrom(recs, v)
  {
    if |recs| == 0 then Success(g)
    else
      var init := recs[..|recs| - 1];
      var last := recs[|recs| - 1];
      assert forall i :: 0 <= i < |init| ==> init[i] == recs[i];
      match ReadHypernyms(g, init)
      case Failure(e) => Failure(e)
      case Success(g') =>
        var r := AddEdges(g', last.id, last.hypernyms);
        if r.Success? then
          EdgesStep(g, g', r.value, recs);
          r
        else
          r
  }

  /** The lexicon is built from synset records and hypernym records: the
      graph gets one vertex per distinct synset id, then the hypernym edges. */
  function Build(synsets: seq<SynsetRecord>, hypernyms: seq<HypernymRecord>): (r: Result<WordNet, Error>)
    ensures r.Success? <==> forall i :: 0 <= i < |hypernyms| ==> ValidHypernyms(|Ids(synsets)|, hypernyms[i])
    ensures r.Failure? ==> r.error == VertexRejected
    ensures r.Success? ==> r.value.index == ReadSynsets(synsets) && |r.value.graph| == |Ids(synsets)|
    ensures r.Success? ==> WellFormed(r.value.graph)
    ensures r.Success? ==> forall v :: IsVertex(r.value.graph, v) ==> r.value.graph[v] == EdgesFrom(hypernyms, v)
  {
    var idx := ReadSynsets(synsets);
    assert |idx.synsetIds| == |idx.synsetIds.Keys| == |Ids(synsets)|;
    var g := Empty(|idx.synsetIds|);
    match ReadHypernyms(g, hypernyms)
    case Failure(e) => Failure(e)
    case Success(g') =>
      assert forall v :: IsVertex(g', v) ==> g[v] == [] && g'[v] == g[v] + EdgesFrom(hypernyms, v);
      Success(WordNet(idx, g'))
  }

  /** When every synset id lies in [0, V) for a graph of V vertices, every
      id an indexed noun's bag holds is a vertex, so the graph accepts it. */
  lemma BagIdsAreVertices(recs: seq<SynsetRecord>, g: Graph, n: string)
    requires forall i :: 0 <= i < |recs| ==> 0 <= recs[i].id < |g|
    ensures AllVertices(g, BagOf(ReadSynsets(recs).nounIndex, n))
  {
    var bag := BagOf(ReadSynsets(recs).nounIndex, n);
    forall j | 0 <= j < |bag|
      ensures IsVertex(g, bag[j])
    {
      assert bag[j] in bag;
      ReadSynsetsSound(recs, n, bag[j]);
    }
  }

  /** After reading, every indexed noun's bag is non-empty, and when every
      synset id lies in [0, V) it is a side the query accepts. */
  lemma IndexedBagsValid(recs: seq<SynsetRecord>, g: Graph, n: string)
    requires forall i :: 0 <= i < |recs| ==> 0 <= recs[i].id < |g|
    requires n in ReadSynsets(recs).nounIndex
    ensures ValidSide(g, ReadSynsets(recs).nounIndex[n])
  {
    assert n in AllNouns(recs);
    var i :| 0 <= i < |recs| && n in recs[i].nouns;
    ReadSynsetsFiles(recs, i, n);
    BagIdsAreVertices(recs, g, n);
  }

  /** `isNoun(word)`: a null word raises; otherwise whether the noun index
      has the word as a key. */
  function IsNoun(idx: Index, word: Option<string>): (r: Result<bool, Error>)
    ensures word.None? <==> r == Failure(NullPointer)
    ensures word.Some? ==> r == Success(word.value in idx.nounIndex)
  {
    if word.None? then Failure(NullPointer) else Success(word.value in idx.nounIndex)
  }

  /** After reading the records, a word is a noun exactly when some synset
      lists it. */
  lemma IsNounAfterRead(recs: seq<SynsetRecord>, word: string)
    ensures IsNoun(ReadSynsets(recs), Some(word)) ==
      Success(exists i :: 0 <= i < |recs| && word in recs[i].nouns)
  {
    if i :| 0 <= i < |recs| && word in recs[i].nouns {
      assert word in AllNouns(recs);
    }
  }

  /** Upper-case mapping of the ASCII letters; other characters are unchanged. */
  function ToUpper(c: char): char {
    if 'a' <= c <= 'z' then (c as int - 32) as char else c
  }

  /** `equalsIgnoreCase`: same length, and each pair of characters equal or
      equal after upper-casing. */
  predicate EqualsIgnoreCase(a: string, b: string) {
    |a| == |b| && forall i :: 0 <= i < |a| ==> a[i] == b[i] || ToUpper(a[i]) == ToUpper(b[i])
  }

  /** The bag of a noun as the symbol table returns it: null when the noun is
      not indexed. */
  function Get(ni: NounIndex, noun: string): (r: Option<seq<int>>)
    ensures r.Some? <==> noun in ni
  {
    if noun in ni then Some(ni[noun]) else None
  }

  /** The label of a synset id as the symbol table returns it: null when the
      id has none. */
  function Label(idx: Index, id: int): (r: Option<string>)
    ensures r.Some? <==> id in idx.synsetIds
  {
    if id in idx.synsetIds then Some(idx.synsetIds[id]) else None
  }

  /** `distance(a, b)`: a null noun raises; nouns equal up to case (the same
      noun in particular) are at distance 0 without looking at the graph;
      otherwise the shortest ancestral length between the two nouns' id
      bags, where an unknown noun yields a null bag and so raises, and a bag
      the query refuses raises what the set query raises. */
  method Distance(wn: WordNet, a: Option<string>, b: Option<string>) returns (r: Result<int, Error>)
    requires WellFormed(wn.graph)
    ensures a.None? || b.None? ==> r == Failure(NullPointer)
    ensures a.Some? && b.Some? && EqualsIgnoreCase(a.value, b.value) ==> r == Success(0)
    ensures a.Some? && b.Some? && a.value == b.value ==> r == Success(0)
    ensures a.Some? && b.Some? && !EqualsIgnoreCase(a.value, b.value) ==>
      && ((a.value !in wn.index.nounIndex || b.value !in wn.index.nounIndex) ==> r == Failure(NullPointer))
      && (a.value in wn.index.nounIndex && b.value in wn.index.nounIndex ==>
        && (r.Success? <==> ValidSide(wn.graph, wn.index.nounIndex[a.value]) && ValidSide(wn.graph, wn.index.nounIndex[b.value]))
        && (r.Failure? ==> r.error == SetsError(wn.graph, wn.index.nounIndex[a.value], wn.index.nounIndex[b.value])))
      && (r.Success? ==>
        && a.value in wn.index.nounIndex && b.value in wn.index.nounIndex
        && ValidSide(wn.graph, wn.index.nounIndex[a.value]) && ValidSide(wn.graph, wn.index.nounIndex[b.value])
        && r.value == SapOf(Search(wn.graph, Elements(wn.index.nounIndex[a.value])),
                            Search(wn.graph, Elements(wn.index.nounIndex[b.value]))).length)
  {
    if a.None? || b.None? {
      return Failure(NullPointer);
    }
    if EqualsIgnoreCase(a.value, b.value) {
      return Success(0);
    }
    r := LengthSets(wn.graph, Get(wn.index.nounIndex, a.value), Get(wn.index.nounIndex, b.value));
  }

  /** `sap(a, b)`: a null or unknown noun raises; a bag the query refuses
      raises what the set query raises; otherwise the label stored for the
      meeting vertex of the two nouns' id bags, null when that id has no
      label (as for -1, no common ancestor). */
  method SapLabel(wn: WordNet, a: Option<string>, b: Option<string>) returns (r: Result<Option<string>, Error>)
    requires WellFormed(wn.graph)
    ensures a.None? || b.None? ==> r == Failure(NullPointer)
    ensures a.Some? && b.Some? && (a.value !in wn.index.nounIndex || b.value !in wn.index.nounIndex) ==> r == Failure(NullPointer)
    ensures a.Some? && b.Some? && a.value in wn.index.nounIndex && b.value in wn.index.nounIndex ==>
      && (r.Success? <==> ValidSide(wn.graph, wn.index.nounIndex[a.value]) && ValidSide(wn.graph, wn.index.nounIndex[b.value]))
      && (r.Failure? ==> r.error == SetsError(wn.graph, wn.index.nounIndex[a.value], wn.index.nounIndex[b.value]))
    ensures r.Success? ==>
      && a.Some? && b.Some? && a.value in wn.index.nounIndex && b.value in wn.index.nounIndex
      && ValidSide(wn.graph, wn.index.nounIndex[a.value]) && ValidSide(wn.graph, wn.index.nounIndex[b.value])
      && r.value == Label(wn.index, SapOf(Search(wn.graph, Elements(wn.index.nounIndex[a.value])),
                                          Search(wn.graph, Elements(wn.index.nounIndex[b.value]))).ancestor)
  {
    if a.None? || b.None? {
      return Failure(NullPointer);
    }
    var id := AncestorSets(wn.graph, Get(wn.index.nounIndex, a.value), Get(wn.index.nounIndex, b.value));
    if id.Failure? {
      return Failure(id.error);
    }
    return Success(Label(wn.index, id.value));
  }
}
