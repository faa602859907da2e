/** `iText2KG.build_graph`, which folds the sections of a document into one
    growing list of canonical entities and one of relationships, and
    `iText2KG.convert_ndarray_to_list`, which makes a dumped graph JSON-ready.
    The language-model extractors, the matcher and the knowledge graph's own
    duplicate-removal methods are left abstract and passed in as `Collaborators`. */
module IText2KG {
  import opened Graph
  import opened Matcher

  datatype Option<T> = None | Some(value: T)

  /** The tuning parameters of `build_graph`; the extractors get them unchanged. */
  datatype Settings = Settings(
    entThreshold: real,
    relThreshold: real,
    maxTries: int,
    maxTriesIsolatedEntities: int,
    entityNameWeight: real,
    entityLabelWeight: real)

  /** The code `build_graph` calls but that is not modelled:
      `extract_entities(context, entity_name_weight, entity_label_weight)`,
      `extract_verify_and_correct_relations(context, entities, ...)`, the
      matcher, and `KnowledgeGraph.remove_duplicates_entities` /
      `remove_duplicates_relationships` as functions from graph to graph. */
  datatype Collaborators = Collaborators(
    extractEntities: (string, real, real) -> seq<Entity>,
    extractRelations: (string, seq<Entity>, Settings) -> seq<Relationship>,
    matcher: MatchOracles,
    removeDuplicateEntities: KnowledgeGraph -> KnowledgeGraph,
    removeDuplicateRelationships: KnowledgeGraph -> KnowledgeGraph)

  /** A call `build_graph` makes to an extractor (naming the section it reads
      and, for relations, the entities it is given) or to the reconciler. */
  datatype Call =
    | EntityExtraction(section: nat)
    | RelationExtraction(section: nat, entities: seq<Entity>)
    | Reconciliation

  /** `global_entities`, `global_relationships` and the calls made so far. */
  datatype Accumulator = Accumulator(
    entities: seq<Entity>, relationships: seq<Relationship>, calls: seq<Call>)

  function ExtractEntities(section: string, settings: Settings, c: Collaborators): seq<Entity>
  {
    c.extractEntities(section, settings.entityNameWeight, settings.entityLabelWeight)
  }

  /** Both lists come from the first section, the relations from its raw entities. */
  function Seed(first: string, settings: Settings, c: Collaborators): Accumulator
  {
    var entities := ExtractEntities(first, settings, c);
    Accumulator(entities, c.extractRelations(first, entities, settings),
                [EntityExtraction(0), RelationExtraction(0, entities)])
  }

  /** One pass of the loop body, for section number `i`. */
  function Absorb(acc: Accumulator, i: nat, section: string, settings: Settings, c: Collaborators): Accumulator
  {
    var entities := ExtractEntities(section, settings, c);
    if entities == [] then acc.(calls := acc.calls + [EntityExtraction(i)])
    else
      var (processedEntities, globalEntities) :=
        c.matcher.processEntities(entities, acc.entities, settings.entThreshold);
      var relationships := c.extractRelations(section, processedEntities, settings);
      var (processedRelationships, _) :=
        c.matcher.processRelationships(relationships, acc.relationships, settings.relThreshold);
      Accumulator(globalEntities, acc.relationships + processedRelationships,
                  acc.calls + [EntityExtraction(i), RelationExtraction(i, processedEntities)])
  }

  /** The state once the loop has visited sections 1 to `n` - 1. */
  function Accumulate(sections: seq<string>, n: nat, settings: Settings, c: Collaborators): Accumulator
    requires 1 <= n <= |sections|
    decreases n
  {
    if n == 1 then Seed(sections[0], settings, c)
    else Absorb(Accumulate(sections, n - 1, settings, c), n - 1, sections[n - 1], settings, c)
  }

  /** Graph construction followed by the two duplicate-removal calls. */
  function Finish(entities: seq<Entity>, relationships: seq<Relationship>, c: Collaborators): KnowledgeGraph
  {
    c.removeDuplicateRelationships(c.removeDuplicateEntities(KnowledgeGraph(entities, relationships)))
  }

  /** `build_graph`. The `ghost` out-parameter `calls` records the calls it makes
      to the extractors and to the reconciler, in order. */
  method BuildGraph(
    sections: seq<string>, existingKnowledgeGraph: Option<KnowledgeGraph>,
    settings: Settings, c: Collaborators)
    returns (kg: KnowledgeGraph, ghost calls: seq<Call>)
    requires |sections| > 0
    ensures var acc := Accumulate(sections, |sections|, settings, c);
            kg == match existingKnowledgeGraph
                  case None => Finish(acc.entities, acc.relationships, c)
                  case Some(existing) =>
                    var (entities, relationships) :=
                      Reconcile(acc.entities, existing.entities, acc.relationships, existing.relationships,
                                settings.relThreshold, settings.entThreshold, c.matcher);
                    Finish(entities, relationships, c)
    ensures calls == Accumulate(sections, |sections|, settings, c).calls +
                     if existingKnowledgeGraph.Some? then [Reconciliation] else []
  {
    var globalEntities := ExtractEntities(sections[0], settings, c);
    var globalRelationships := c.extractRelations(sections[0], globalEntities, settings);
    calls := [EntityExtraction(0), RelationExtraction(0, globalEntities)];
    for i := 1 to |sections|
      invariant Accumulate(sections, i, settings, c) ==
                Accumulator(globalEntities, globalRelationships, calls)
    {
      var entities := ExtractEntities(sections[i], settings, c);
      calls := calls + [EntityExtraction(i)];
      if entities == [] {
        continue;
      }
      var (processedEntities, matchedGlobal) :=
        c.matcher.processEntities(entities, globalEntities, settings.entThreshold);
      globalEntities := matchedGlobal;
      var relationships := c.extractRelations(sections[i], processedEntities, settings);
      calls := calls + [RelationExtraction(i, processedEntities)];
      var (processedRelationships, _) :=
        c.matcher.processRelationships(relationships, globalRelationships, settings.relThreshold);
      globalRelationships := globalRelationships + processedRelationships;
    }
    if existingKnowledgeGraph.Some? {
      var existing := existingKnowledgeGraph.value;
      globalEntities, globalRelationships := MatchEntitiesAndUpdateRelationships(
        globalEntities, existing.entities, globalRelationships, existing.relationships,
        settings.relThreshold, settings.entThreshold, c.matcher);
      calls := calls + [Reconciliation];
    }
    kg := KnowledgeGraph(globalEntities, globalRelationships);
    kg := c.removeDuplicateEntities(kg);
    kg := c.removeDuplicateRelationships(kg);
  }

  // ---------------------------------------------------------------------------
  // Properties of the section fold

  /** Inside the loop the relationship list is only ever extended at its end,
      and calls are only ever appended to. */
  lemma {:induction false} RelationshipsOnlyGrow(
    sections: seq<string>, m: nat, n: nat, settings: Settings, c: Collaborators)
    requires 1 <= m <= n <= |sections|
    ensures Accumulate(sections, m, settings, c).relationships <= Accumulate(sections, n, settings, c).relationships
    ensures Accumulate(sections, m, settings, c).calls <= Accumulate(sections, n, settings, c).calls
    decreases n
  {
    if m < n {
      RelationshipsOnlyGrow(sections, m, n - 1, settings, c);
    }
  }

  /** A section whose entity extraction comes back empty leaves both lists as
      they were; only its entity extraction is recorded. */
  lemma SkippedSectionChangesNothing(sections: seq<string>, i: nat, settings: Settings, c: Collaborators)
    requires 1 <= i < |sections|
    requires ExtractEntities(sections[i], settings, c) == []
    ensures Accumulate(sections, i + 1, settings, c).entities == Accumulate(sections, i, settings, c).entities
    ensures Accumulate(sections, i + 1, settings, c).relationships ==
            Accumulate(sections, i, settings, c).relationships
    ensures Accumulate(sections, i + 1, settings, c).calls ==
            Accumulate(sections, i, settings, c).calls + [EntityExtraction(i)]
  {
  }

  /** The section numbers of the entity-extraction calls, in call order. */
  function EntitySections(calls: seq<Call>): seq<nat>
  {
    if calls == [] then []
    else
      var last := calls[|calls| - 1];
      EntitySections(calls[..|calls| - 1]) + if last.EntityExtraction? then [last.section] else []
  }

  lemma {:induction false} EntitySectionsAppend(a: seq<Call>, b: seq<Call>)
    ensures EntitySections(a + b) == EntitySections(a) + EntitySections(b)
    decreases |b|
  {
    if b == [] {
      assert a + b == a;
    } else {
      var n := |b| - 1;
      EntitySectionsAppend(a, b[..n]);
      assert (a + b)[..|a + b| - 1] == a + b[..n];
    }
  }

  lemma EntitySectionsOfOne(call: Call)
    ensures EntitySections([call]) == if call.EntityExtraction? then [call.section] else []
  {
    assert [call][..0] == [];
  }

  /** One pass of the loop records exactly one entity extraction, for its own
      section, possibly followed by a relation extraction. */
  lemma EntitySectionsOfPass(prev: seq<Call>, i: nat, rest: seq<Call>)
    requires EntitySections(prev) == seq(i, j => j)
    requires rest == [] || (|rest| == 1 && rest[0].RelationExtraction?)
    ensures EntitySections(prev + ([EntityExtraction(i)] + rest)) == seq(i + 1, j => j)
  {
    EntitySectionsOfStep(i, rest);
    EntitySectionsAppend(prev, [EntityExtraction(i)] + rest);
    CountingUpSnoc(i);
  }

  lemma EntitySectionsOfStep(i: nat, rest: seq<Call>)
    requires rest == [] || (|rest| == 1 && rest[0].RelationExtraction?)
    ensures EntitySections([EntityExtraction(i)] + rest) == [i]
  {
    EntitySectionsOfOne(EntityExtraction(i));
    EntitySectionsAppend([EntityExtraction(i)], rest);
    if rest != [] {
      assert rest == [rest[0]];
      EntitySectionsOfOne(rest[0]);
    }
  }

  lemma SeedRecordsSectionZero(first: string, settings: Settings, c: Collaborators)
    ensures EntitySections(Seed(first, settings, c).calls) == [0]
  {
    var calls := Seed(first, settings, c).calls;
    assert calls == [EntityExtraction(0)] + [calls[1]];
    EntitySectionsOfStep(0, [calls[1]]);
  }

  lemma CountingUpSnoc(i: nat)
    ensures seq(i + 1, j => j) == seq(i, j => j) + [i]
  {
  }

  /** Entity extraction runs on sections 0, 1, ..., n - 1, once each and in
      that order. */
  lemma {:induction false} EachSectionExtractedOnceInOrder(
    sections: seq<string>, n: nat, settings: Settings, c: Collaborators)
    requires 1 <= n <= |sections|
    ensures EntitySections(Accumulate(sections, n, settings, c).calls) == seq(n, j => j)
    decreases n
  {
    if n == 1 {
      SeedRecordsSectionZero(sections[0], settings, c);
      CountingUpSnoc(0);
    } else {
      EachSectionExtractedOnceInOrder(sections, n - 1, settings, c);
      AccumulateAppendsCalls(sections, n, settings, c);
      var rest := PassRelationCall(sections, n - 1, settings, c);
      assert rest == [] || (|rest| == 1 && rest[0].RelationExtraction?);
      EntitySectionsOfPass(Accumulate(sections, n - 1, settings, c).calls, n - 1, rest);
    }
  }

  /** The loop never calls the reconciler. */
  lemma {:induction false} LoopNeverReconciles(
    sections: seq<string>, n: nat, settings: Settings, c: Collaborators)
    requires 1 <= n <= |sections|
    ensures Reconciliation !in Accumulate(sections, n, settings, c).calls
    decreases n
  {
    if n > 1 {
      LoopNeverReconciles(sections, n - 1, settings, c);
      AccumulateAppendsCalls(sections, n, settings, c);
    }
  }

  /** The entities relation extraction is given for section `i` >= 1: the
      matcher's canonical forms of that section's extracted entities. */
  function ProcessedEntities(sections: seq<string>, i: nat, settings: Settings, c: Collaborators): seq<Entity>
    requires 1 <= i < |sections|
  {
    c.matcher.processEntities(ExtractEntities(sections[i], settings, c),
                              Accumulate(sections, i, settings, c).entities, settings.entThreshold).0
  }

  /** The calls one pass of the loop appends for section `n` - 1: its entity
      extraction, then a relation extraction on the canonical entities unless
      the section yielded no entities. */
  lemma AccumulateAppendsCalls(sections: seq<string>, n: nat, settings: Settings, c: Collaborators)
    requires 2 <= n <= |sections|
    ensures Accumulate(sections, n, settings, c).calls ==
            Accumulate(sections, n - 1, settings, c).calls + ([EntityExtraction(n - 1)] + PassRelationCall(sections, n - 1, settings, c))
  {
  }

  /** The relation extraction a pass of the loop makes for section `i`, if any. */
  function PassRelationCall(sections: seq<string>, i: nat, settings: Settings, c: Collaborators): seq<Call>
    requires 1 <= i < |sections|
  {
    if ExtractEntities(sections[i], settings, c) == [] then []
    else [RelationExtraction(i, ProcessedEntities(sections, i, settings, c))]
  }

  /** A relation-extraction call for section 0 is given that section's raw
      entities; one for a later section happens only when that section's
      entities are non-empty, and is given their canonical forms. */
  ghost predicate GivenCanonicalEntities(
    sections: seq<string>, settings: Settings, c: Collaborators, call: Call)
  {
    call.RelationExtraction? ==>
      && call.section < |sections|
      && (call.section == 0 ==> call.entities == ExtractEntities(sections[0], settings, c))
      && (call.section > 0 ==>
            && ExtractEntities(sections[call.section], settings, c) != []
            && call.entities == ProcessedEntities(sections, call.section, settings, c))
  }

  /** Every relation extraction the loop makes reads a section already visited
      and is given the canonical entities, not the raw extracted ones (except
      for section 0). */
  lemma {:induction false} RelationExtractionSeesCanonicalEntities(
    sections: seq<string>, n: nat, settings: Settings, c: Collaborators)
    requires 1 <= n <= |sections|
    ensures forall call :: call in Accumulate(sections, n, settings, c).calls ==>
              && (call.RelationExtraction? ==> call.section < n)
              && GivenCanonicalEntities(sections, settings, c, call)
    decreases n
  {
    if n > 1 {
      RelationExtractionSeesCanonicalEntities(sections, n - 1, settings, c);
      AccumulateAppendsCalls(sections, n, settings, c);
      var prev := Accumulate(sections, n - 1, settings, c).calls;
      var calls := Accumulate(sections, n, settings, c).calls;
      var added := calls[|prev|..];
      assert calls == prev + added;
      forall call | call in calls
        ensures call.RelationExtraction? ==> call.section < n
        ensures GivenCanonicalEntities(sections, settings, c, call)
      {
        if call !in prev {
          assert call in added;
        }
      }
    }
  }

  /** Every section after the first whose entities are non-empty gets a relation
      extraction on its canonical entities. */
  lemma RelationExtractionForEveryNonEmptySection(
    sections: seq<string>, n: nat, i: nat, settings: Settings, c: Collaborators)
    requires 1 <= i < n <= |sections|
    requires ExtractEntities(sections[i], settings, c) != []
    ensures RelationExtraction(i, ProcessedEntities(sections, i, settings, c)) in
            Accumulate(sections, n, settings, c).calls
  {
    AccumulateAppendsCalls(sections, i + 1, settings, c);
    RelationshipsOnlyGrow(sections, i + 1, n, settings, c);
    var calls := Accumulate(sections, i + 1, settings, c).calls;
    assert calls[|calls| - 1] == RelationExtraction(i, ProcessedEntities(sections, i, settings, c));
  }

  // ---------------------------------------------------------------------------
  // convert_ndarray_to_list

  /** The values `model_dump` produces, NumPy arrays among them. Dicts keep
      their entries in insertion order. A NumPy scalar is not an array. */
  datatype Value =
    | Null
    | Bool(b: bool)
    | Int(i: int)
    | Float(f: real)
    | Str(s: string)
    | NumpyScalar(x: real)
    | List(items: seq<Value>)
    | Dict(entries: seq<Entry>)
    | NdArray(data: ArrayData)

  datatype Entry = Entry(key: string, value: Value)

  /** The contents of an `np.ndarray`: a single element, or one axis of sub-arrays. */
  datatype ArrayData = Element(x: real) | Axis(rows: seq<ArrayData>)

  /** No `np.ndarray` occurs anywhere in `v`. */
  predicate ArrayFree(v: Value)
  {
    match v
    case NdArray(_) => false
    case List(items) => forall i :: 0 <= i < |items| ==> ArrayFree(items[i])
    case Dict(entries) => forall i :: 0 <= i < |entries| ==> ArrayFree(entries[i].value)
    case _ => true
  }

  /** `ndarray.tolist()`: nested Python lists of Python numbers. */
  function ToList(d: ArrayData): (r: Value)
    ensures ArrayFree(r)
  {
    match d
    case Element(x) => Float(x)
    case Axis(rows) => List(seq(|rows|, i requires 0 <= i < |rows| => ToList(rows[i])))
  }

  function Keys(entries: seq<Entry>): seq<string>
  {
    seq(|entries|, i requires 0 <= i < |entries| => entries[i].key)
  }

  /** `convert_ndarray_to_list`: arrays become lists, dicts and lists are
      converted entry by entry, every other value is returned unchanged. */
  function ConvertNdarrayToList(v: Value): (r: Value)
    ensures ArrayFree(r)
    ensures v.Dict? ==> r.Dict? && Keys(r.entries) == Keys(v.entries)
    ensures v.List? ==> r.List? && |r.items| == |v.items|
    ensures !v.NdArray? && !v.Dict? && !v.List? ==> r == v
  {
    match v
    case NdArray(data) => ToList(data)
    case Dict(entries) =>
      Dict(seq(|entries|, i requires 0 <= i < |entries| =>
                 Entry(entries[i].key, ConvertNdarrayToList(entries[i].value))))
    case List(items) =>
      List(seq(|items|, i requires 0 <= i < |items| => ConvertNdarrayToList(items[i])))
    case _ => v
  }

  /** A value without arrays is left exactly as it is. */
  lemma {:induction false} ArrayFreeIsUnchanged(v: Value)
    requires ArrayFree(v)
    ensures ConvertNdarrayToList(v) == v
  {
    match v
    case List(items) =>
      forall i | 0 <= i < |items| ensures ConvertNdarrayToList(items[i]) == items[i] {
        ArrayFreeIsUnchanged(items[i]);
      }
      assert ConvertNdarrayToList(v).items == items;
    case Dict(entries) =>
      forall i | 0 <= i < |entries| ensures ConvertNdarrayToList(entries[i].value) == entries[i].value {
        ArrayFreeIsUnchanged(entries[i].value);
      }
      assert ConvertNdarrayToList(v).entries == entries;
    case _ =>
  }

  /** Converting twice is the same as converting once. */
  lemma ConvertIsIdempotent(v: Value)
    ensures ConvertNdarrayToList(ConvertNdarrayToList(v)) == ConvertNdarrayToList(v)
  {
    ArrayFreeIsUnchanged(ConvertNdarrayToList(v));
  }
}
