# WordNet shortest ancestral paths — a Dafny model

This project models the core of a WordNet assignment solution. It has three parts.

- The **SAP** query engine (`SAP.java`). Given a directed graph and two vertices or two vertex sets, it runs one breadth-first search per side. It then scans all vertices in ascending order and keeps the one reached by both sides with the smallest sum of distances. That gives the *length* of a shortest ancestral path and its meeting vertex, the *ancestor*; both are -1 when the sides share no ancestor. The same class also bound-checks vertex ids and answers "is the graph a DAG?" and "is it a rooted DAG?".
- The **WordNet** lexicon (`WordNet.java`).
  - Synset records fill an id→label table and a noun→id-bag index.
  - Hypernym records add is-a edges to a graph with one vertex per distinct synset id.
  - `isNoun`, `distance` and `sap` resolve nouns to id bags and ask SAP.
- **Outcast** selection (`Outcast.java`). It picks the noun whose summed distance to the other entries is largest. The distance is a parameter here.

Modules and files:

| file | module | contents |
|---|---|---|
| `wrappers.dfy` | `Wrappers`, `Errors` | `Option`, `Result`, `Outcome`; the exceptions the program raises, as error values |
| `digraph.dfy` | `Digraph` | adjacency-list graphs; `addEdge`; paths, reachability, shortest distance and acyclicity as specifications |
| `bfs.dfy` | `Bfs` | breadth-first search from a source set, computed level by level and proved equal to the path specification |
| `sap.dfy` | `Sap` | the scan, `length`/`ancestor` in both forms, the bound checks |
| `structure.dfy` | `Structure` | `isDAG`, graph reversal, `isRootedDAG` |
| `wordnet.dfy` | `WordNet` | record processing, `isNoun`, `distance`, `sap` |
| `outcast.dfy` | `Outcast` | `outcast` |

Modelling choices:

- A Java exception is a `Failure(e)` or `Fail(e)` value carrying the exception kind. A Java `null` argument is `None`.
- The `INFINITY` sentinel (`Integer.MAX_VALUE`) of the scan becomes `Option<nat>`, with `None` meaning "no common vertex seen yet". Integers are unbounded.
- The breadth-first search of the graph library is not part of this model. `Bfs.Search` stands in for it. It is defined by expanding the reached set one level at a time. Its contract states that it records exactly the shortest path lengths.
- The bound check is modelled as written: `v < 0 || v > V` rejects, so the id `V` passes (`Sap.CheckVertexAdmitsV`). The graph library then refuses `V`. The model names that refusal `VertexRejected`, because the library's own exception is not visible here.
- `isRootedDAG` takes the vertex the library's depth-first post-order lists first as a parameter `candidate`. The only thing assumed of it is what a post-order guarantees in an acyclic graph: it is a vertex with no outgoing edge. `Structure.RootIsOnlySink` shows that in a rooted DAG the root is the only such vertex, so the answer does not depend on which sink the library happens to list first.
- The nouns of a synset and the hypernym ids arrive already split. A noun bag is a sequence in insertion order; only which ids it holds, and how often, is stated.

## Model

| member | source | states |
|---|---|---|
| Digraph.Empty | src/wordNet/WordNet.java:39 | the graph has exactly the requested number of vertices and no edge |
| Digraph.AddEdge | src/wordNet/WordNet.java:123 | the edge is added exactly when both endpoints are vertices, appended to the source's list; every other adjacency list is unchanged |
| Bfs.Search | src/wordNet/SAP.java:160-161 | one entry per vertex; an entry is present exactly when the vertex is reachable from the source set, and its value is the length of a shortest path from the sources |
| Bfs.SourcesAtZero | src/wordNet/SAP.java:160-161 | distance 0 is recorded exactly for the sources |
| Bfs.ReachableIffInBall | src/wordNet/SAP.java:160-161 | reachability is decided within V expansion rounds, which is why a search over V vertices is complete |
| Bfs.DistanceToCorrect | src/wordNet/SAP.java:160-161 | the first round that reaches a vertex is its shortest path length from the sources |
| Sap.FindLengthAndAncestor | src/wordNet/SAP.java:157-171 | the scan returns -1/-1 when no vertex is reached from both sides; otherwise the least distance sum and the lowest-index vertex achieving it, i.e. the unique declarative answer `SapOf` |
| Sap.IsSapUnique | src/wordNet/SAP.java:163-168 | length and ancestor are determined by the search results: at most one pair meets the description |
| Sap.SapSymmetric | src/wordNet/SAP.java:163-170 | swapping the two sides gives the same length and the same ancestor |
| Sap.SelfMeeting | src/wordNet/SAP.java:157-170 | a vertex queried against itself meets at itself with length 0 |
| Sap.CommonIffReachable | src/wordNet/SAP.java:164 | the scan sees a common vertex exactly when some vertex is reachable from both sides |
| Sap.SapIsLeast | src/wordNet/SAP.java:165-168 | no vertex reachable from both sides has a smaller sum of shortest distances; lower-index ones have a strictly larger sum |
| Sap.ShortestAncestralPath | src/wordNet/SAP.java:157-171 | in graph terms: length is -1 exactly when no common ancestor exists (and ancestor is then -1); otherwise the ancestor is reachable from both sides, the length is the sum of its two shortest distances, and it is least with lowest-index tie-breaking |
| Sap.CheckVertex | src/wordNet/SAP.java:145-149 | a negative id or an id above V fails with an index error; every vertex passes |
| Sap.CheckVertexAdmitsV | src/wordNet/SAP.java:146 | the id V passes the check although it is not a vertex |
| Sap.CheckVertices | src/wordNet/SAP.java:151-155 | a sequence of ids passes exactly when each id passes; a failure is an index error |
| Sap.SearchFrom | src/wordNet/SAP.java:176-177 | a search over a sequence of ids succeeds exactly when it is non-empty and every id is a vertex; it refuses a non-vertex id first, then an empty sequence as an invalid argument |
| Sap.Meet | src/wordNet/SAP.java:173-187 | both searches then the scan: succeeds exactly when both sides are accepted, with the declarative answer for the two id sets; otherwise the first refused side's error |
| Sap.QueryOne | src/wordNet/SAP.java:76-78 | succeeds exactly when both ids are vertices; an id failing the bound check gives an index error, the id V a rejection by the graph |
| Sap.QuerySets | src/wordNet/SAP.java:103-107 | a null side raises a null-pointer error before anything else; then the bound checks of both sides give an index error; then the searches refuse a non-vertex id or an empty side; success exactly when both sides are non-empty and all vertices, with the declarative answer |
| Sap.Length | src/wordNet/SAP.java:75-81 | the shortest ancestral length of two vertices, -1 when none; `length(v, v) == 0` |
| Sap.Ancestor | src/wordNet/SAP.java:89-94 | the meeting vertex of a shortest ancestral path, -1 when none; `ancestor(v, v) == v` |
| Sap.LengthSets | src/wordNet/SAP.java:102-110 | the set form of `length`, with the null, bound and empty-side errors of `Sap.QuerySets` |
| Sap.AncestorSets | src/wordNet/SAP.java:118-124 | the set form of `ancestor`, with the null, bound and empty-side errors of `Sap.QuerySets` |
| Structure.OnCycleIffClosedPath | src/wordNet/SAP.java:48 | a vertex reachable from its own successors lies on a closed path of at least one edge, and conversely |
| Structure.IsDag | src/wordNet/SAP.java:47-50 | true exactly when the graph has no closed path |
| Structure.Reverse | src/wordNet/SAP.java:62 | the reversed graph has the same vertices and an edge v→u exactly when the original has u→v |
| Structure.ReachableInReverse | src/wordNet/SAP.java:62-64 | a vertex is reachable from the root in the reversed graph exactly when the root is reachable from it in the original |
| Structure.RootHasNoSuccessor | src/wordNet/SAP.java:57-59 | in an acyclic graph, a vertex reached from every vertex has no outgoing edge |
| Structure.SinkIsRoot | src/wordNet/SAP.java:59-64 | a vertex without outgoing edges that reaches the root is the root |
| Structure.RootIsOnlySink | src/wordNet/SAP.java:58-59 | in an acyclic graph where every vertex reaches the root, the root has no outgoing edge and is the only vertex without one |
| Structure.RootedIff | src/wordNet/SAP.java:59-66 | starting from a sink of an acyclic graph, the reverse search covers every vertex exactly when some vertex is reached by all vertices |
| Structure.IsRootedDag | src/wordNet/SAP.java:56-67 | true implies the graph is a DAG; true exactly when the graph is acyclic and some vertex is reached from every vertex |
| WordNet.AddNoun | src/wordNet/WordNet.java:106-111 | the noun becomes a key; its bag gains exactly one copy of id; a new noun gets a bag holding exactly id; every other noun's bag is unchanged |
| WordNet.AddNouns | src/wordNet/WordNet.java:105-112 | afterwards the indexed nouns are the earlier ones plus the synset's nouns, and nouns outside the synset keep their bags |
| WordNet.AddNounsMembers | src/wordNet/WordNet.java:105-112 | afterwards a noun's bag holds what it held before, plus id exactly when the noun is one of the synset's |
| WordNet.AddNounsCounts | src/wordNet/WordNet.java:105-112 | each occurrence of a noun in the synset adds one copy of id to its bag, and no other id is added |
| WordNet.AddSynset | src/wordNet/WordNet.java:102-111 | id's label becomes the synset text, other labels are unchanged, and id is filed under the synset's nouns |
| WordNet.ReadSynsets | src/wordNet/WordNet.java:100-113 | after all records, the labelled ids are exactly the records' ids and the indexed nouns exactly the nouns they list |
| WordNet.ReadSynsetsLabels | src/wordNet/WordNet.java:104 | a record that no later record with the same id overrides decides that id's label |
| WordNet.ReadSynsetsFiles | src/wordNet/WordNet.java:105-111 | every noun a record lists has that record's id in its bag |
| WordNet.ReadSynsetsSound | src/wordNet/WordNet.java:105-111 | every id in a noun's bag comes from a record with that id listing that noun |
| WordNet.AddEdges | src/wordNet/WordNet.java:122-124 | a hypernym record adds exactly the edges id→h1 … id→hk, in order; it fails exactly when one of them names a non-vertex |
| WordNet.EdgesStep | src/wordNet/WordNet.java:119-124 | one more hypernym record extends each vertex's list by exactly that record's hypernyms when the record is for that vertex |
| WordNet.ReadHypernyms | src/wordNet/WordNet.java:119-125 | after all records, each vertex's list is its records' hypernyms concatenated in record order; failure exactly when some record names a non-vertex |
| WordNet.Build | src/wordNet/WordNet.java:33-41 | the vertex count equals the number of distinct synset ids, the index is the synset reading, and the edges are exactly the hypernym records' |
| WordNet.BagIdsAreVertices | src/wordNet/WordNet.java:39 | when synset ids lie in [0, V), every id in a noun's bag is a vertex of the graph |
| WordNet.IndexedBagsValid | src/wordNet/WordNet.java:105-111 | after reading, every indexed noun's bag is non-empty, and with synset ids in [0, V) it is a side the query accepts |
| WordNet.IsNoun | src/wordNet/WordNet.java:57-61 | a null word raises a null-pointer error; otherwise true exactly when the word is a key of the noun index |
| WordNet.IsNounAfterRead | src/wordNet/WordNet.java:60 | after reading the synsets, a word is a noun exactly when some record lists it |
| WordNet.Get | src/wordNet/WordNet.java:73 | a noun's bag is present exactly when the noun is indexed |
| WordNet.Label | src/wordNet/WordNet.java:87 | an id's label is present exactly when the id has one |
| WordNet.Distance | src/wordNet/WordNet.java:69-74 | a null noun raises a null-pointer error; nouns equal ignoring case, a noun with itself in particular, are at distance 0; an unknown noun raises a null-pointer error; otherwise success exactly when both bags are accepted sides, with the set-form shortest ancestral length of the two bags, and failure with the set query's error (index error, rejected id, empty bag) |
| WordNet.SapLabel | src/wordNet/WordNet.java:83-88 | a null or unknown noun raises a null-pointer error; a refused bag raises the set query's error; otherwise the label of the set-form ancestor of the two bags, absent when that id has no label |
| Outcast.PartialTotalsAgree | src/wordNet/Outcast.java:42-46 | when every noun is at distance 0 from itself, skipping the own slot, skipping no slot, and skipping slots holding an equal noun give the same partial total |
| Outcast.TotalsAgree | src/wordNet/Outcast.java:42-46 | the whole-list form: a noun's total equals its sum over all slots and its sum over the slots holding a different noun |
| Outcast.OutcastUnique | src/wordNet/Outcast.java:39-52 | the selection describes at most one slot |
| Outcast.OutcastIndex | src/wordNet/Outcast.java:39-53 | slot 0 when no total exceeds 0; otherwise the earliest slot with the maximal total, which is strictly positive |
| Outcast.Outcast | src/wordNet/Outcast.java:37-54 | a null array raises a null-pointer error, an empty one an illegal-argument error; otherwise the noun of the outcast slot, which is an element of the input |

## Left out

- File reading (`In`, `readLine`) and the field splitting by `String.split` and `Integer.parseInt` in `readSynsets`/`readHypernyms`. Records arrive already split, so malformed lines and parse errors are not modelled.
- The `main` methods: console and file I/O only.
- `nouns()`: it returns the key set of the noun index, a library iterator over a map the model already exposes.
- The constructors as such. `SAP` null-checks its graph and stores it. `Outcast` stores its argument without a check. The work of the `WordNet` constructor is `WordNet.Build`; its null check on the two file names belongs to the file reading left out above.
- The library classes `BreadthFirstDirectedPaths`, `Topological`, `DepthFirstOrder`, `DepthFirstDirectedPaths`, `ST` and `Bag` are not part of this model. They are replaced by specifications: shortest-distance search, acyclicity, a sink as post-order candidate, reachability, maps and sequences.
- Sap.SearchFrom: the program does not check for an empty id set itself; the graph library's search decides, and its code is not visible. The model follows the search's documented contract: an empty source set is an invalid argument (`IllegalArgument`), raised after an id the search rejects. `Sap.Meet`, `Sap.QuerySets`, `Sap.LengthSets`, `Sap.AncestorSets`, `WordNet.Distance` and `WordNet.SapLabel` inherit this. The bags the lexicon builds are never empty (`WordNet.IndexedBagsValid`).
- Sap.Meet: an empty side fails with `IllegalArgument`, following `Sap.SearchFrom`, not an answer the program itself computes.
- Sap.QuerySets: an empty side fails with `IllegalArgument` after the bound checks, following `Sap.SearchFrom`.
- Sap.LengthSets: an empty side fails with `IllegalArgument`, as in `Sap.QuerySets`.
- Sap.AncestorSets: an empty side fails with `IllegalArgument`, as in `Sap.QuerySets`.
- `isRootedDAG` on a graph with no vertices: the library's answer is not visible. `Structure.IsRootedDag` requires a sink candidate whenever the graph is acyclic, so it cannot be called on an empty graph.
- Null elements inside an `Iterable<Integer>` argument are not modelled; set arguments are sequences of ints.
- Sap.CheckVertex: states only the index error for ids outside [0, V]. The exception the graph library then raises for the id V is represented by the single error kind `VertexRejected`.
- WordNet.Distance: `equalsIgnoreCase` is modelled for ASCII letters only. Java's Unicode case mapping is not part of this model.
- Outcast.OutcastIndex: the distance is a total function parameter. An exception thrown by `distance` (null or unknown noun, id V) is not propagated. The identity test `noun != otherNoun` is modelled as slot inequality, which assumes one string object per slot; `Outcast.TotalsAgree` shows this is harmless when every noun is at distance 0 from itself. 32-bit overflow of the running totals is not modelled.
- Integer overflow in general: all integers are unbounded. `INFINITY` is replaced by an explicit "none yet".
