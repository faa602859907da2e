/** The cross-graph reconciler: `match_entities_and_update_relationships`
    merges freshly built entities and relationships into an existing graph.
    The matcher's `process_lists` and cosine similarity are left abstract and
    passed in as `MatchOracles`. */
module Matcher {
  import opened Graph
  import opened KeyOrder

  /** `process_lists(list1, list2, threshold)`: returns list1 in canonical form
      and the grown global list. Nothing is assumed about either result. */
  type EntityMatcher = (seq<Entity>, seq<Entity>, real) -> (seq<Entity>, seq<Entity>)
  type RelationshipMatcher =
    (seq<Relationship>, seq<Relationship>, real) -> (seq<Relationship>, seq<Relationship>)

  /** The collaborators the reconciler calls but whose code is not modelled. */
  datatype MatchOracles = MatchOracles(
    processEntities: EntityMatcher,
    processRelationships: RelationshipMatcher,
    cosine: Similarity)

  // ---------------------------------------------------------------------------
  // Step 2: one entity per (name, label) key

  /** Position of the entity that the key-`k` slot of `unique_entities` holds
      after the loop has visited all of `es`: the first entity with key `k` is
      stored, and a later one with key `k` replaces the stored one exactly when
      its cosine similarity to it is strictly above `threshold`. */
  function SurvivorIndex(es: seq<Entity>, k: EntityKey, cosine: Similarity, threshold: real): (r: nat)
    requires k in EntityKeys(es)
    ensures r < |es| && es[r].Key() == k
    decreases |es|
  {
    var n := |es| - 1;
    assert EntityKeys(es) == EntityKeys(es[..n]) + [es[n].Key()];
    if k !in EntityKeys(es[..n]) then n
    else
      var p := SurvivorIndex(es[..n], k, cosine, threshold);
      if es[n].Key() == k && cosine(es[n].embeddings, es[p].embeddings) > threshold then n else p
  }

  /** `list(unique_entities.values())`: one entity per key, keys in the order
      they first occur in `es`, each slot holding its survivor. */
  function UniqueByKey(es: seq<Entity>, cosine: Similarity, threshold: real): (r: seq<Entity>)
    ensures EntityKeys(r) == Distinct(EntityKeys(es))
    ensures forall e :: e in r ==> e in es
  {
    var keys := Distinct(EntityKeys(es));
    seq(|keys|, j requires 0 <= j < |keys| => es[SurvivorIndex(es, keys[j], cosine, threshold)])
  }

  lemma EntityKeysAppend(es: seq<Entity>, e: Entity)
    ensures EntityKeys(es + [e]) == EntityKeys(es) + [e.Key()]
  {
  }

  /** Where the survivor of each key sits once one more entity has been seen. */
  lemma SurvivorIndexSnoc(es: seq<Entity>, e: Entity, k: EntityKey, cosine: Similarity, threshold: real)
    requires k in EntityKeys(es) || k == e.Key()
    ensures k in EntityKeys(es + [e])
    ensures SurvivorIndex(es + [e], k, cosine, threshold) ==
            if k !in EntityKeys(es) then |es|
            else if e.Key() == k &&
                    cosine(e.embeddings, es[SurvivorIndex(es, k, cosine, threshold)].embeddings) > threshold
            then |es|
            else SurvivorIndex(es, k, cosine, threshold)
  {
    EntityKeysAppend(es, e);
    assert (es + [e])[..|es|] == es;
  }

  /** The invariant of the Step-2 loop: the dict holds, for each key seen so
      far, that key's survivor, and its insertion order is the order in which
      the keys first occurred. */
  ghost predicate StoresSurvivors(
    order: seq<EntityKey>, table: map<EntityKey, Entity>, es: seq<Entity>,
    cosine: Similarity, threshold: real)
  {
    && order == Distinct(EntityKeys(es))
    && (forall k :: k in table <==> k in order)
    && (forall k :: k in table ==>
          k in EntityKeys(es) && table[k] == es[SurvivorIndex(es, k, cosine, threshold)])
  }

  /** Seeing a key for the first time appends it to the dict. */
  lemma StoresSurvivorsNewKey(
    order: seq<EntityKey>, table: map<EntityKey, Entity>, es: seq<Entity>, e: Entity,
    cosine: Similarity, threshold: real)
    requires StoresSurvivors(order, table, es, cosine, threshold)
    requires e.Key() !in table
    ensures StoresSurvivors(order + [e.Key()], table[e.Key() := e], es + [e], cosine, threshold)
  {
    EntityKeysAppend(es, e);
    DistinctSnoc(EntityKeys(es), e.Key());
    var table' := table[e.Key() := e];
    forall k | k in table'
      ensures k in EntityKeys(es + [e]) && table'[k] == (es + [e])[SurvivorIndex(es + [e], k, cosine, threshold)]
    {
      SurvivorIndexSnoc(es, e, k, cosine, threshold);
      if k != e.Key() {
        assert (es + [e])[SurvivorIndex(es, k, cosine, threshold)] == es[SurvivorIndex(es, k, cosine, threshold)];
      }
    }
  }

  /** Seeing a key again keeps its slot and stores the newer entity exactly when
      it scores strictly above the threshold against the stored one. */
  lemma StoresSurvivorsKnownKey(
    order: seq<EntityKey>, table: map<EntityKey, Entity>, es: seq<Entity>, e: Entity,
    cosine: Similarity, threshold: real)
    requires StoresSurvivors(order, table, es, cosine, threshold)
    requires e.Key() in table
    ensures var table' := if cosine(e.embeddings, table[e.Key()].embeddings) > threshold
                          then table[e.Key() := e] else table;
            StoresSurvivors(order, table', es + [e], cosine, threshold)
  {
    EntityKeysAppend(es, e);
    DistinctSnoc(EntityKeys(es), e.Key());
    var table' := if cosine(e.embeddings, table[e.Key()].embeddings) > threshold
                  then table[e.Key() := e] else table;
    forall k | k in table'
      ensures k in EntityKeys(es + [e]) && table'[k] == (es + [e])[SurvivorIndex(es + [e], k, cosine, threshold)]
    {
      SurvivorIndexSnoc(es, e, k, cosine, threshold);
      var p := SurvivorIndex(es, k, cosine, threshold);
      assert (es + [e])[p] == es[p];
    }
  }

  /** Step 2 of the reconciler: a dict keyed by (name, label), whose insertion
      order is kept in `order`; an update keeps the key's original slot. */
  method UniqueEntities(globalEntities: seq<Entity>, cosine: Similarity, threshold: real)
    returns (unique: seq<Entity>)
    ensures unique == UniqueByKey(globalEntities, cosine, threshold)
    ensures NoDuplicates(EntityKeys(unique))
    ensures forall k :: k in EntityKeys(unique) <==> k in EntityKeys(globalEntities)
  {
    var order: seq<EntityKey> := [];
    var table: map<EntityKey, Entity> := map[];
    for i := 0 to |globalEntities|
      invariant StoresSurvivors(order, table, globalEntities[..i], cosine, threshold)
    {
      var entity := globalEntities[i];
      var entityKey := entity.Key();
      assert globalEntities[..i + 1] == globalEntities[..i] + [entity];
      if entityKey !in table {
        StoresSurvivorsNewKey(order, table, globalEntities[..i], entity, cosine, threshold);
        table := table[entityKey := entity];
        order := order + [entityKey];
      } else {
        StoresSurvivorsKnownKey(order, table, globalEntities[..i], entity, cosine, threshold);
        var existingEntity := table[entityKey];
        if cosine(entity.embeddings, existingEntity.embeddings) > threshold {
          table := table[entityKey := entity];
        }
      }
    }
    assert globalEntities[..|globalEntities|] == globalEntities;
    unique := seq(|order|, j requires 0 <= j < |order| => table[order[j]]);
  }

  /** Once stored, an entity is never outscored: every later entity with the
      same key has cosine similarity at most `threshold` to the one kept. */
  lemma {:induction false} SurvivorNotOutscored(
    es: seq<Entity>, k: EntityKey, cosine: Similarity, threshold: real)
    requires k in EntityKeys(es)
    ensures var r := SurvivorIndex(es, k, cosine, threshold);
            forall i :: r < i < |es| && es[i].Key() == k ==>
              cosine(es[i].embeddings, es[r].embeddings) <= threshold
    decreases |es|
  {
    var n := |es| - 1;
    assert EntityKeys(es) == EntityKeys(es[..n]) + [es[n].Key()];
    if k in EntityKeys(es[..n]) {
      SurvivorNotOutscored(es[..n], k, cosine, threshold);
      var p := SurvivorIndex(es[..n], k, cosine, threshold);
      forall i | p < i < n && es[i].Key() == k
        ensures cosine(es[i].embeddings, es[p].embeddings) <= threshold
      {
        assert es[..n][i] == es[i];
      }
    }
  }

  /** A stored entity is either the first one with its key, or it displaced the
      entity stored before it with a similarity strictly above the threshold. */
  lemma {:induction false} SurvivorIsFirstOrScoredAbove(
    es: seq<Entity>, k: EntityKey, cosine: Similarity, threshold: real)
    requires k in EntityKeys(es)
    ensures var r := SurvivorIndex(es, k, cosine, threshold);
            r == FirstIndex(EntityKeys(es), k) ||
            (k in EntityKeys(es[..r]) &&
             cosine(es[r].embeddings, es[SurvivorIndex(es[..r], k, cosine, threshold)].embeddings) > threshold)
    decreases |es|
  {
    var n := |es| - 1;
    var keys := EntityKeys(es);
    assert keys == EntityKeys(es[..n]) + [es[n].Key()];
    var r := SurvivorIndex(es, k, cosine, threshold);
    if k !in EntityKeys(es[..n]) {
      forall j | 0 <= j < n ensures keys[j] != k {
        assert keys[j] == EntityKeys(es[..n])[j];
      }
      FirstIndexUnique(keys, k, n);
    } else {
      var p := SurvivorIndex(es[..n], k, cosine, threshold);
      if r != n {
        SurvivorIsFirstOrScoredAbove(es[..n], k, cosine, threshold);
        FirstIndexOfPrefix(EntityKeys(es[..n]), [es[n].Key()], k);
        assert es[..n][..p] == es[..p];
      } else {
        assert es[..r] == es[..n];
      }
    }
  }

  /** When no later entity with key `k` scores strictly above the threshold
      against the first one, the first entity with key `k` is the one kept. */
  lemma {:induction false} FirstKeptWhenNoneScoresAbove(
    es: seq<Entity>, k: EntityKey, cosine: Similarity, threshold: real)
    requires k in EntityKeys(es)
    requires var f := FirstIndex(EntityKeys(es), k);
             forall i :: f < i < |es| && es[i].Key() == k ==>
               cosine(es[i].embeddings, es[f].embeddings) <= threshold
    ensures SurvivorIndex(es, k, cosine, threshold) == FirstIndex(EntityKeys(es), k)
    decreases |es|
  {
    var n := |es| - 1;
    var prefix := es[..n];
    assert es == prefix + [es[n]];
    EntityKeysAppend(prefix, es[n]);
    SurvivorIndexSnoc(prefix, es[n], k, cosine, threshold);
    if k !in EntityKeys(prefix) {
      FirstIndexOfNew(EntityKeys(prefix), k);
    } else {
      var f := FirstIndex(EntityKeys(prefix), k);
      FirstIndexOfPrefix(EntityKeys(prefix), [es[n].Key()], k);
      forall i | f < i < n && prefix[i].Key() == k
        ensures cosine(prefix[i].embeddings, prefix[f].embeddings) <= threshold
      {
        assert prefix[i] == es[i] && prefix[f] == es[f];
      }
      FirstKeptWhenNoneScoresAbove(prefix, k, cosine, threshold);
    }
  }

  // ---------------------------------------------------------------------------
  // Step 3: the rename map

  /** `zip(entities1, matched_entities1)`: position-wise pairs, as many as the
      shorter list has elements. */
  function Zip(a: seq<Entity>, b: seq<Entity>): seq<(Entity, Entity)>
  {
    var n := if |a| <= |b| then |a| else |b|;
    seq(n, i requires 0 <= i < n => (a[i], b[i]))
  }

  /** `entity_name_mapping`: the dict comprehension over the pairs whose two
      entities differ (entities compare by key); a later pair for the same key
      overwrites an earlier one. */
  function EntityNameMapping(pairs: seq<(Entity, Entity)>): (m: map<EntityKey, Entity>)
    ensures forall k :: k in m ==> m[k].Key() != k
    ensures forall i :: 0 <= i < |pairs| && pairs[i].0.Key() != pairs[i].1.Key() ==>
              pairs[i].0.Key() in m
    decreases |pairs|
  {
    if pairs == [] then map[]
    else
      var n := |pairs| - 1;
      var m := EntityNameMapping(pairs[..n]);
      assert forall i :: 0 <= i < n ==> pairs[..n][i] == pairs[i];
      var (entity, matched) := pairs[n];
      if entity.Key() != matched.Key() then m[entity.Key() := matched] else m
  }

  /** Every entry of the rename map comes from one pair `(e, m)` with `e != m`,
      namely the last such pair for that key. */
  lemma {:induction false} MappingEntryIsLastRenaming(pairs: seq<(Entity, Entity)>, k: EntityKey)
    requires k in EntityNameMapping(pairs)
    ensures exists j :: 0 <= j < |pairs| && pairs[j].0.Key() == k && pairs[j].1.Key() != k &&
              pairs[j].1 == EntityNameMapping(pairs)[k] &&
              forall i :: j < i < |pairs| && pairs[i].0.Key() == k ==> pairs[i].1.Key() == k
    decreases |pairs|
  {
    var n := |pairs| - 1;
    var (entity, matched) := pairs[n];
    if entity.Key() == k && matched.Key() != k {
      assert pairs[n].0.Key() == k && pairs[n].1 == EntityNameMapping(pairs)[k];
    } else {
      MappingEntryIsLastRenaming(pairs[..n], k);
      var j :| 0 <= j < n && pairs[..n][j].0.Key() == k && pairs[..n][j].1.Key() != k &&
               pairs[..n][j].1 == EntityNameMapping(pairs[..n])[k] &&
               forall i :: j < i < n && pairs[..n][i].0.Key() == k ==> pairs[..n][i].1.Key() == k;
      assert pairs[j] == pairs[..n][j];
      forall i | j < i < |pairs| && pairs[i].0.Key() == k ensures pairs[i].1.Key() == k {
        if i < n { assert pairs[i] == pairs[..n][i]; }
      }
    }
  }

  // ---------------------------------------------------------------------------
  // Step 4: rewriting relationship endpoints

  /** The copy `updated_rel` of `rel` with each endpoint that is a key of the
      rename map replaced by the entity it maps to. */
  function Rewrite(rel: Relationship, mapping: map<EntityKey, Entity>): Relationship
  {
    var withStart :=
      if rel.startEntity.Key() in mapping then rel.(startEntity := mapping[rel.startEntity.Key()]) else rel;
    if rel.endEntity.Key() in mapping then withStart.(endEntity := mapping[rel.endEntity.Key()]) else withStart
  }

  function RewriteAll(rels: seq<Relationship>, mapping: map<EntityKey, Entity>): seq<Relationship>
  {
    seq(|rels|, i requires 0 <= i < |rels| => Rewrite(rels[i], mapping))
  }

  lemma RewriteAllSnoc(rels: seq<Relationship>, i: nat, mapping: map<EntityKey, Entity>)
    requires i < |rels|
    ensures RewriteAll(rels[..i + 1], mapping) == RewriteAll(rels[..i], mapping) + [Rewrite(rels[i], mapping)]
  {
  }

  /** Rewriting leaves the name and embeddings alone; an endpoint changes exactly
      when its key is renamed, and then into the matched entity of a pair. */
  lemma RewriteChangesOnlyRenamedEndpoints(rel: Relationship, pairs: seq<(Entity, Entity)>)
    ensures var m := EntityNameMapping(pairs);
            var r := Rewrite(rel, m);
            && r.name == rel.name && r.embeddings == rel.embeddings
            && (r.startEntity != rel.startEntity <==> rel.startEntity.Key() in m)
            && (r.endEntity != rel.endEntity <==> rel.endEntity.Key() in m)
            && (r.startEntity != rel.startEntity ==>
                  exists j :: 0 <= j < |pairs| && pairs[j].0.Key() == rel.startEntity.Key() &&
                              r.startEntity == pairs[j].1)
            && (r.endEntity != rel.endEntity ==>
                  exists j :: 0 <= j < |pairs| && pairs[j].0.Key() == rel.endEntity.Key() &&
                              r.endEntity == pairs[j].1)
  {
    var m := EntityNameMapping(pairs);
    if rel.startEntity.Key() in m {
      MappingEntryIsLastRenaming(pairs, rel.startEntity.Key());
    }
    if rel.endEntity.Key() in m {
      MappingEntryIsLastRenaming(pairs, rel.endEntity.Key());
    }
  }

  // ---------------------------------------------------------------------------
  // Steps 4 and 5: first-seen-wins deduplication by (name, start, end)

  /** The relationships of `rels` that are the first with their key, in order. */
  function Dedup(rels: seq<Relationship>): seq<Relationship>
    decreases |rels|
  {
    if rels == [] then []
    else
      var n := |rels| - 1;
      var p := Dedup(rels[..n]);
      if rels[n].Key() in RelationshipKeys(p) then p else p + [rels[n]]
  }

  lemma RelationshipKeysAppend(a: seq<Relationship>, b: seq<Relationship>)
    ensures RelationshipKeys(a + b) == RelationshipKeys(a) + RelationshipKeys(b)
  {
  }

  lemma RelationshipKeysSnoc(a: seq<Relationship>, rel: Relationship)
    ensures RelationshipKeys(a + [rel]) == RelationshipKeys(a) + [rel.Key()]
  {
  }

  /** One more relationship is kept exactly when its key is new. */
  lemma DedupSnoc(rels: seq<Relationship>, rel: Relationship)
    ensures Dedup(rels + [rel]) ==
            if rel.Key() in RelationshipKeys(Dedup(rels)) then Dedup(rels) else Dedup(rels) + [rel]
  {
    assert (rels + [rel])[..|rels|] == rels;
  }

  /** `Dedup` keeps, in order, exactly the first relationship of every key. */
  lemma {:induction false} DedupKeepsFirstOccurrences(rels: seq<Relationship>)
    ensures RelationshipKeys(Dedup(rels)) == Distinct(RelationshipKeys(rels))
    ensures forall j :: 0 <= j < |Dedup(rels)| ==>
              Dedup(rels)[j].Key() in RelationshipKeys(rels) &&
              Dedup(rels)[j] == rels[FirstIndex(RelationshipKeys(rels), Dedup(rels)[j].Key())]
    decreases |rels|
  {
    if rels != [] {
      var n := |rels| - 1;
      DedupKeepsFirstOccurrences(rels[..n]);
      DedupStep(rels, Dedup(rels[..n]));
    }
  }

  /** No key twice, no key lost, never longer than the input. */
  lemma DedupUniqueAndComplete(rels: seq<Relationship>)
    ensures NoDuplicates(RelationshipKeys(Dedup(rels)))
    ensures forall k :: k in RelationshipKeys(Dedup(rels)) <==> k in RelationshipKeys(rels)
    ensures |Dedup(rels)| <= |rels|
  {
    DedupKeepsFirstOccurrences(rels);
    assert |RelationshipKeys(Dedup(rels))| == |Dedup(rels)|;
  }

  /** The inductive step behind `Dedup`'s contract. */
  lemma DedupStep(rels: seq<Relationship>, p: seq<Relationship>)
    requires rels != []
    requires RelationshipKeys(p) == Distinct(RelationshipKeys(rels[..|rels| - 1]))
    requires forall j :: 0 <= j < |p| ==>
               p[j].Key() in RelationshipKeys(rels[..|rels| - 1]) &&
               p[j] == rels[..|rels| - 1][FirstIndex(RelationshipKeys(rels[..|rels| - 1]), p[j].Key())]
    ensures var r := if rels[|rels| - 1].Key() in RelationshipKeys(p) then p else p + [rels[|rels| - 1]];
            && RelationshipKeys(r) == Distinct(RelationshipKeys(rels))
            && forall j :: 0 <= j < |r| ==>
                 r[j].Key() in RelationshipKeys(rels) &&
                 r[j] == rels[FirstIndex(RelationshipKeys(rels), r[j].Key())]
  {
    var n := |rels| - 1;
    var a := RelationshipKeys(rels[..n]);
    var x := rels[n];
    assert RelationshipKeys(rels) == a + [x.Key()];
    assert RelationshipKeys(p + [x]) == RelationshipKeys(p) + [x.Key()];
    var r := if x.Key() in RelationshipKeys(p) then p else p + [x];
    forall j | 0 <= j < |r|
      ensures r[j].Key() in RelationshipKeys(rels) &&
              r[j] == rels[FirstIndex(RelationshipKeys(rels), r[j].Key())]
    {
      if j < |p| {
        assert r[j] == p[j];
        FirstIndexOfPrefix(a, [x.Key()], p[j].Key());
      } else {
        assert r[j] == x && x.Key() !in a;
        forall i | 0 <= i < n ensures RelationshipKeys(rels)[i] != x.Key() {
          assert RelationshipKeys(rels)[i] == a[i];
        }
        FirstIndexUnique(RelationshipKeys(rels), x.Key(), n);
      }
    }
  }

  /** Adding relationships at the end never disturbs the relationships kept
      from the front: they stay, in place, at the head of the result. */
  lemma {:induction false} DedupKeepsPrefix(a: seq<Relationship>, b: seq<Relationship>)
    ensures Dedup(a) <= Dedup(a + b)
    decreases |b|
  {
    if b == [] {
      assert a + b == a;
    } else {
      var n := |b| - 1;
      DedupKeepsPrefix(a, b[..n]);
      assert a + b == (a + b[..n]) + [b[n]];
      DedupSnoc(a + b[..n], b[n]);
    }
  }

  /** Deduplication is idempotent: a list without repeated keys is left as it is. */
  lemma {:induction false} DedupOfDuplicateFree(rels: seq<Relationship>)
    requires NoDuplicates(RelationshipKeys(rels))
    ensures Dedup(rels) == rels
    decreases |rels|
  {
    if rels != [] {
      var n := |rels| - 1;
      var keys := RelationshipKeys(rels);
      assert RelationshipKeys(rels[..n]) == keys[..n];
      DedupOfDuplicateFree(rels[..n]);
      assert rels[n].Key() !in RelationshipKeys(rels[..n]) by {
        forall i | 0 <= i < n ensures RelationshipKeys(rels[..n])[i] != rels[n].Key() {
          assert keys[i] != keys[n];
        }
      }
      assert rels == rels[..n] + [rels[n]];
      DedupSnoc(rels[..n], rels[n]);
    }
  }

  /** Running the deduplication twice gives what running it once gives. */
  lemma DedupIdempotent(rels: seq<Relationship>)
    ensures Dedup(Dedup(rels)) == Dedup(rels)
  {
    DedupUniqueAndComplete(rels);
    DedupOfDuplicateFree(Dedup(rels));
  }

  /** `update_relationships`: rewrite each relationship's endpoints through the
      rename map and keep the first relationship seen for each key. */
  method UpdateRelationships(relationships: seq<Relationship>, mapping: map<EntityKey, Entity>)
    returns (updated: seq<Relationship>)
    ensures updated == Dedup(RewriteAll(relationships, mapping))
    ensures NoDuplicates(RelationshipKeys(updated))
  {
    updated := [];
    var seen: set<RelationshipKey> := {};
    for i := 0 to |relationships|
      invariant updated == Dedup(RewriteAll(relationships[..i], mapping))
      invariant forall k :: k in seen <==> k in RelationshipKeys(updated)
    {
      var rel := relationships[i];
      var updatedRel := rel;
      if rel.startEntity.Key() in mapping {
        updatedRel := updatedRel.(startEntity := mapping[rel.startEntity.Key()]);
      }
      if rel.endEntity.Key() in mapping {
        updatedRel := updatedRel.(endEntity := mapping[rel.endEntity.Key()]);
      }
      var relKey := updatedRel.Key();
      assert updatedRel == Rewrite(rel, mapping);
      RewriteAllSnoc(relationships, i, mapping);
      DedupSnoc(RewriteAll(relationships[..i], mapping), updatedRel);
      RelationshipKeysSnoc(updated, updatedRel);
      if relKey !in seen {
        updated := updated + [updatedRel];
        seen := seen + {relKey};
      }
    }
    assert relationships[..|relationships|] == relationships;
    DedupUniqueAndComplete(RewriteAll(relationships, mapping));
  }

  /** Step 5: `relationships2 + updated_relations`, first seen wins. */
  method MergeRelationships(relationships2: seq<Relationship>, updatedRelations: seq<Relationship>)
    returns (finalRelationships: seq<Relationship>)
    ensures finalRelationships == Dedup(relationships2 + updatedRelations)
    ensures NoDuplicates(RelationshipKeys(finalRelationships))
    ensures forall k :: k in RelationshipKeys(finalRelationships) <==>
              k in RelationshipKeys(relationships2) || k in RelationshipKeys(updatedRelations)
    ensures Dedup(relationships2) <= finalRelationships
    ensures |finalRelationships| <= |relationships2| + |updatedRelations|
  {
    var all := relationships2 + updatedRelations;
    finalRelationships := [];
    var seen: set<RelationshipKey> := {};
    for i := 0 to |all|
      invariant finalRelationships == Dedup(all[..i])
      invariant forall k :: k in seen <==> k in RelationshipKeys(finalRelationships)
    {
      var rel := all[i];
      var relKey := rel.Key();
      assert all[..i + 1] == all[..i] + [rel];
      DedupSnoc(all[..i], rel);
      RelationshipKeysSnoc(finalRelationships, rel);
      if relKey !in seen {
        finalRelationships := finalRelationships + [rel];
        seen := seen + {relKey};
      }
    }
    assert all[..|all|] == all;
    RelationshipKeysAppend(relationships2, updatedRelations);
    DedupUniqueAndComplete(all);
    DedupKeepsPrefix(relationships2, updatedRelations);
  }

  // ---------------------------------------------------------------------------
  // The reconciler

  /** What `match_entities_and_update_relationships` returns, as a function of
      its inputs and of what the matcher answers. */
  function Reconcile(
    entities1: seq<Entity>, entities2: seq<Entity>,
    relationships1: seq<Relationship>, relationships2: seq<Relationship>,
    relThreshold: real, entThreshold: real, oracles: MatchOracles): (seq<Entity>, seq<Relationship>)
  {
    var (matchedEntities1, globalEntities) := oracles.processEntities(entities1, entities2, entThreshold);
    var (matchedRelations, _) := oracles.processRelationships(relationships1, relationships2, relThreshold);
    var mapping := EntityNameMapping(Zip(entities1, matchedEntities1));
    (UniqueByKey(globalEntities, oracles.cosine, entThreshold),
     Dedup(relationships2 + Dedup(RewriteAll(matchedRelations, mapping))))
  }

  /** `match_entities_and_update_relationships`, steps 1 to 5. */
  method MatchEntitiesAndUpdateRelationships(
    entities1: seq<Entity>, entities2: seq<Entity>,
    relationships1: seq<Relationship>, relationships2: seq<Relationship>,
    relThreshold: real, entThreshold: real, oracles: MatchOracles)
    returns (globalEntities: seq<Entity>, finalRelationships: seq<Relationship>)
    ensures (globalEntities, finalRelationships) ==
            Reconcile(entities1, entities2, relationships1, relationships2, relThreshold, entThreshold, oracles)
    ensures NoDuplicates(EntityKeys(globalEntities))
    ensures forall k :: k in EntityKeys(globalEntities) <==>
              k in EntityKeys(oracles.processEntities(entities1, entities2, entThreshold).1)
    ensures NoDuplicates(RelationshipKeys(finalRelationships))
    ensures forall k :: k in RelationshipKeys(relationships2) ==> k in RelationshipKeys(finalRelationships)
    ensures Dedup(relationships2) <= finalRelationships
    ensures |finalRelationships| <=
            |relationships2| + |oracles.processRelationships(relationships1, relationships2, relThreshold).0|
  {
    // Step 1
    var (matchedEntities1, matchedGlobal) := oracles.processEntities(entities1, entities2, entThreshold);
    var (matchedRelations, _) := oracles.processRelationships(relationships1, relationships2, relThreshold);
    // Step 2
    globalEntities := UniqueEntities(matchedGlobal, oracles.cosine, entThreshold);
    // Step 3
    var mapping := EntityNameMapping(Zip(entities1, matchedEntities1));
    // Steps 4 and 5
    var updatedRelations := UpdateRelationships(matchedRelations, mapping);
    finalRelationships := MergeRelationships(relationships2, updatedRelations);
    DedupUniqueAndComplete(RewriteAll(matchedRelations, mapping));
  }
}
