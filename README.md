# iText2KG graph merge, modelled in Dafny

iText2KG builds one knowledge graph from the sections of a document. It extracts
entities and relationships from each section, matches them against what it has
already gathered, and, when a previously built graph is supplied, reconciles the
new graph with it. This project models the merge logic:

- `Matcher.MatchEntitiesAndUpdateRelationships` is the cross-graph reconciler
  `match_entities_and_update_relationships`. Its five steps are:
  1. match entities and relationships with `process_lists`;
  2. keep one entity per `(name, label)` key (`UniqueEntities`);
  3. build the rename map (`EntityNameMapping` over `Zip`);
  4. rewrite relationship endpoints and drop repeated `(name, start, end)` keys
     (`UpdateRelationships`);
  5. merge the existing relationships in front of the rewritten ones
     (`MergeRelationships`).
- `IText2KG.BuildGraph` is `iText2KG.build_graph`. It seeds the lists from
  section 0 and folds in sections 1 to n-1, skipping any section that yields no
  entities. It calls the reconciler once when an existing graph is given, then
  runs the graph's two duplicate-removal calls.
- `IText2KG.ConvertNdarrayToList` is `convert_ndarray_to_list`. It is a
  recursive conversion of a dumped value tree that replaces NumPy arrays with
  lists.

The loops of the source are methods with loop invariants (the Step-2 dict, the
two seen-set loops, the section loop). Each method is proved equal to a
specification function: `UniqueByKey`, `Dedup`, `Reconcile` and `Accumulate`.
The lemmas beside those functions prove what the source promises.

The code that the merge calls but that is not part of this model is passed in
as function values:

- `process_lists`;
- cosine similarity;
- the language-model extractors;
- `KnowledgeGraph.remove_duplicates_entities` and
  `KnowledgeGraph.remove_duplicates_relationships`.

Nothing is assumed about what these return. In particular, `process_lists` may
return a canonical list whose length differs from its input, and the model then
follows `zip`'s truncation when it builds the rename map.

`BuildGraph` has a ghost out-parameter `calls`. It records, in order, the calls
made to the two extractors and to the reconciler. The properties about which
sections are read, and which entities relation extraction receives, are stated
over this record.

Two points where the source's comments and its code differ follow the code:

- The comment on the Step-2 collision (utils/matcher.py:32) says to keep the
  entity with the higher similarity. The code replaces the stored entity when
  the cosine similarity of the two embeddings is strictly greater than
  `ent_threshold` (utils/matcher.py:34-38), and the model does the same.
- The docstring of `build_graph` (itext2kg/itext2kg.py:57-58) says that
  relationships from different sections are merged. The code extends the relationship list with all of the
  matcher's canonical relationships, matched ones included
  (itext2kg/itext2kg.py:120-122), and discards the matcher's second result.

## Model

| member | source | states |
|---|---|---|
| `Matcher.UniqueEntities` | utils/matcher.py:24-41 | The Step-2 dict loop returns `UniqueByKey` of the matcher's global entities. No `(name, label)` key occurs twice, and the result has exactly the keys of the input. |
| `Matcher.SurvivorIndex` | utils/matcher.py:29-38 | Where the key-`k` slot's entity sits once the Step-2 loop is done: always an entity with key `k`. Its collision rule is characterised by `SurvivorNotOutscored`, `SurvivorIsFirstOrScoredAbove` and `FirstKeptWhenNoneScoresAbove`. |
| `Matcher.UniqueByKey` | utils/matcher.py:25-41 | The key sequence of the kept entities is the input's keys, each once, in first-occurrence order. Every kept entity comes from the input. |
| `Matcher.SurvivorNotOutscored` | utils/matcher.py:29-38 | Once an entity is stored for a key, every later entity with that key has similarity at most `ent_threshold` to it. Only a strictly greater score displaces it. |
| `Matcher.SurvivorIsFirstOrScoredAbove` | utils/matcher.py:29-38 | The stored entity is either the first one with its key, or it scored strictly above `ent_threshold` against the entity stored before it. |
| `Matcher.FirstKeptWhenNoneScoresAbove` | utils/matcher.py:29-38 | If no later same-key entity scores strictly above the threshold against the first one, the first one is kept. |
| `KeyOrder.Distinct` | utils/matcher.py:25-41 | The dict's key order has no repeats, holds exactly the keys seen, and is no longer than the input. |
| `KeyOrder.DistinctFollowsFirstOccurrence` | utils/matcher.py:26-41 | Keys appear in the order of their first occurrence, because a dict update keeps the key's original slot. |
| `Matcher.Zip` | utils/matcher.py:46 | `zip(entities1, matched_entities1)`, truncated to the shorter list. No contract of its own; `EntityNameMapping` and `MappingEntryIsLastRenaming` state what the map built over it holds. |
| `Matcher.EntityNameMapping` | utils/matcher.py:43-48 | The rename map never maps a key to an entity with the same key. Every zipped pair whose two entities differ puts its key in the map. |
| `Matcher.MappingEntryIsLastRenaming` | utils/matcher.py:44-48 | Every entry of the rename map is a position-wise pair `(e, m)` of `entities1` and the matched list, with `e != m`. On repeated keys the last such pair wins. |
| `Matcher.Rewrite` | utils/matcher.py:56-61 | The endpoint rewrite of one relationship. No contract of its own; `RewriteChangesOnlyRenamedEndpoints` characterises it. |
| `Matcher.RewriteAll` | utils/matcher.py:55-61 | The rewrite applied to each relationship in order. No contract of its own; `UpdateRelationships` is proved to deduplicate exactly its result. |
| `Matcher.RewriteChangesOnlyRenamedEndpoints` | utils/matcher.py:55-61 | Rewriting keeps the relationship's name and embeddings. An endpoint changes exactly when its key is in the rename map, and then it becomes the matched entity of a zipped pair for that key. |
| `Matcher.UpdateRelationships` | utils/matcher.py:51-69 | The loop returns `Dedup` of the rewritten relationships. Their keys are pairwise distinct. |
| `Matcher.Dedup` | utils/matcher.py:63-67 | First-seen-wins deduplication by `(name, start name, end name)`, shared by both seen-set loops (utils/matcher.py:76-81 too). No contract of its own; `DedupKeepsFirstOccurrences`, `DedupUniqueAndComplete`, `DedupKeepsPrefix`, `DedupOfDuplicateFree` and `DedupIdempotent` characterise it. |
| `Matcher.DedupKeepsFirstOccurrences` | utils/matcher.py:63-67 | The first-seen-wins dedup keeps each key's first relationship and nothing else. Its keys are the input's keys, each once, in input order. |
| `Matcher.DedupUniqueAndComplete` | utils/matcher.py:63-67 | The dedup output has no repeated key and loses no key of the input. It is never longer than the input. |
| `Matcher.DedupKeepsPrefix` | utils/matcher.py:76-81 | Deduplicating `a + b` keeps the dedup of `a` unchanged at the front. |
| `Matcher.DedupOfDuplicateFree` | utils/matcher.py:76-81 | A relationship list without repeated keys passes through the dedup unchanged. |
| `Matcher.DedupIdempotent` | utils/matcher.py:76-81 | Deduplicating twice equals deduplicating once. |
| `Matcher.MergeRelationships` | utils/matcher.py:71-83 | Step 5 has pairwise-distinct keys, and its keys are exactly those of `relationships2 + updated_relations`. The dedup of `relationships2` is kept, in front. The length is at most the sum of the two lengths. |
| `Matcher.Reconcile` | utils/matcher.py:1-83 | The reconciler's result as a function of its inputs and the matcher's answers. No contract of its own; `MatchEntitiesAndUpdateRelationships` is proved to return it and states its unique keys, covered keys, kept prefix and length bound. |
| `Matcher.MatchEntitiesAndUpdateRelationships` | utils/matcher.py:1-83 | The reconciler returns `Reconcile` of its inputs. Its entity keys are unique and are the matcher's global keys. Its relationship keys are unique and include every key of `relationships2`, whose dedup comes first. It has at most `|relationships2| + |matched relations|` relationships. |
| `IText2KG.Seed` | itext2kg/itext2kg.py:76-87 | Both lists seeded from section 0, relation extraction given its raw entities. No contract of its own; `EachSectionExtractedOnceInOrder` and `RelationExtractionSeesCanonicalEntities` cover its calls. |
| `IText2KG.Absorb` | itext2kg/itext2kg.py:89-122 | One pass of the section loop. No contract of its own; `SkippedSectionChangesNothing`, `RelationshipsOnlyGrow` and the call-order lemmas characterise it. |
| `IText2KG.Accumulate` | itext2kg/itext2kg.py:76-122 | The state after sections 0 to n-1. No contract of its own; `BuildGraph`'s loop is proved to compute it, and `RelationshipsOnlyGrow`, `EachSectionExtractedOnceInOrder`, `LoopNeverReconciles` and the relation-extraction lemmas state its properties. |
| `IText2KG.Finish` | itext2kg/itext2kg.py:145-147 | The graph built from the two lists, then entity and relationship duplicate removal in that order. No contract of its own; `BuildGraph` is proved to return it. |
| `IText2KG.BuildGraph` | itext2kg/itext2kg.py:36-149 | The graph is the duplicate-removal calls applied to the fold of sections 1..n-1 over the section-0 seed. With an existing graph, the reconciler's result is used instead, and exactly one reconciliation is recorded, after all extractor calls. Without one, no reconciliation is recorded. |
| `IText2KG.RelationshipsOnlyGrow` | itext2kg/itext2kg.py:120-122 | During the loop the relationship list is only extended. Every earlier list is a prefix of every later one. |
| `IText2KG.SkippedSectionChangesNothing` | itext2kg/itext2kg.py:92-96 | A section with no extracted entities leaves the entity and relationship lists unchanged. Only its entity extraction is recorded. |
| `IText2KG.EachSectionExtractedOnceInOrder` | itext2kg/itext2kg.py:77-92 | Entity extraction runs on sections 0, 1, ..., n-1, once each and in order. |
| `IText2KG.LoopNeverReconciles` | itext2kg/itext2kg.py:89-122 | The section loop never calls the reconciler. |
| `IText2KG.RelationExtractionSeesCanonicalEntities` | itext2kg/itext2kg.py:80-120 | Every relation extraction reads a section already visited. Section 0's receives that section's raw entities. A later section's happens only when its entities are non-empty, and receives the matcher's canonical entities for it, computed against the entities gathered before it. |
| `IText2KG.RelationExtractionForEveryNonEmptySection` | itext2kg/itext2kg.py:95-120 | Every section after the first whose entities are non-empty gets a relation extraction on its canonical entities. |
| `IText2KG.ToList` | itext2kg/itext2kg.py:153-154 | `ndarray.tolist()` yields a value with no array in it. |
| `IText2KG.ConvertNdarrayToList` | itext2kg/itext2kg.py:152-160 | The result has no array nodes. A dict maps to a dict with the same keys in the same order. A list maps to a list of the same length. Any other non-array value is returned unchanged. |
| `IText2KG.ArrayFreeIsUnchanged` | itext2kg/itext2kg.py:152-160 | A value with no arrays is a fixed point of the conversion. |
| `IText2KG.ConvertIsIdempotent` | itext2kg/itext2kg.py:152-160 | Converting twice equals converting once. |

## Left out

- `process_lists` (its body is not part of this model) is an abstract function. Nothing is assumed about its results. The model assumes that it, and the relation extractor (itext2kg/itext2kg.py:82 and :114), do not mutate the entity or relationship lists they are given.
- The entity class is not part of this model, so its equality and hash are an assumption: entities are taken to compare and hash by their `(name, label)` pair. The Step-3 test `entity != matched_entity` (utils/matcher.py:47) and the endpoint lookups (utils/matcher.py:58-61) depend on it. If entities compared field by field instead, a pair with the same key but different embeddings would enter the rename map. `EntityNameMapping`'s guarantee that no key maps to an entity with the same key would then not describe the program, and endpoints whose embeddings differ from the renamed entity's would not be rewritten.
- Cosine similarity and embedding vectors are not computed. Similarity is an abstract function compared with the threshold, and the NumPy reshaping is not modelled.
- Entity and relationship extraction by the language model (`iEntitiesExtractor`, `iRelationsExtractor`, with their retries and sleeps) are abstract functions. Each is assumed to answer the same way for the same arguments.
- `KnowledgeGraph.remove_duplicates_entities` and `remove_duplicates_relationships` are not part of this model. They appear as abstract functions from graph to graph, applied in the source's order.
- Pydantic's `model_copy`, `model_dump` and `model_validate` are not modelled. A copy is a record value, and an entity's extra properties are reduced to its embedding vector.
- The `iText2KG` constructor, `save_graph`, `load_graph` (file and JSON I/O) and the `print` logging are not modelled.
- The driver script `mytest/ragtest.py` is not modelled. It loads PDFs, distils them with a language model and connects to a graph database, and it has no merge logic.
- Exceptions are not modelled. These include a cosine similarity that fails on mismatched or missing embeddings, and an extractor failure, which the source propagates.
- BuildGraph: a non-empty `sections` list is a precondition. On an empty list the source raises `IndexError` at `sections[0]` (itext2kg/itext2kg.py:77), and no caller shown guarantees a non-empty list.
- Default argument values are not modelled: `build_graph`'s thresholds, retry counts and name/label weights (itext2kg/itext2kg.py:38-44) and the reconciler's two thresholds (utils/matcher.py:7-8). Every value is passed explicitly, through `Settings` and the reconciler's parameters.
- BuildGraph: `if existing_knowledge_graph:` is modelled as "a graph was supplied". This assumes a supplied graph object is always truthy.
- ConvertNdarrayToList: tuples, sets and other containers are not in the value type. The source returns them unchanged, arrays inside included. Dict keys are strings, and array elements are numbers without a dtype.
- The model does not prove that every endpoint of a returned relationship is among the returned entities. Whether that holds depends on what `process_lists` returns, and its code is not part of this model.
