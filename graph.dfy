/** The records the graph is made of: entities, relationships between them,
    and the knowledge graph that holds both. Pydantic copies are plain values. */
module Graph {

  /** An embedding vector; its numeric contents are never inspected here. */
  type Embedding = seq<real>

  /** Cosine similarity of two embeddings, left abstract. */
  type Similarity = (Embedding, Embedding) -> real

  /** Exact-deduplication identity of an entity: the pair (name, label). */
  datatype EntityKey = EntityKey(name: string, typeLabel: string)

  /** A graph node; `typeLabel` is its label (its type). Equality and hashing of
      entities go through `Key()`. */
  datatype Entity = Entity(name: string, typeLabel: string, embeddings: Embedding)
  {
    function Key(): EntityKey
    {
      EntityKey(name, typeLabel)
    }
  }

  /** Exact-deduplication identity of a relationship: (name, start name, end name). */
  datatype RelationshipKey = RelationshipKey(name: string, startName: string, endName: string)

  /** A directed, named edge that holds its own copies of its two endpoints. */
  datatype Relationship = Relationship(
    name: string, startEntity: Entity, endEntity: Entity, embeddings: Embedding)
  {
    function Key(): RelationshipKey
    {
      RelationshipKey(name, startEntity.name, endEntity.name)
    }
  }

  datatype KnowledgeGraph = KnowledgeGraph(entities: seq<Entity>, relationships: seq<Relationship>)

  /** The (name, label) key of every entity, position by position. */
  function EntityKeys(es: seq<Entity>): seq<EntityKey>
  {
    seq(|es|, i requires 0 <= i < |es| => es[i].Key())
  }

  /** The (name, start, end) key of every relationship, position by position. */
  function RelationshipKeys(rs: seq<Relationship>): seq<RelationshipKey>
  {
    seq(|rs|, i requires 0 <= i < |rs| => rs[i].Key())
  }
}
