/**
 * The step metadata that the `document` command collects: which entity and
 * relationship `_type`s the integration steps declare, one record per
 * `_type`, first declaration wins.
 */
module StepMetadata {
  import opened FirstSeen

  /** An entity `_class`: one class name or a list of them (`string | string[]`). */
  datatype ClassTag = Single(name: string) | Many(names: seq<string>)

  datatype EntityMetadata = EntityMetadata(resourceName: string, typeName: string, entityClass: ClassTag)

  datatype RelationshipMetadata = RelationshipMetadata(
    typeName: string, relationshipClass: string, sourceType: string, targetType: string)

  /** An integration step, reduced to what the documentation reads from it. */
  datatype Step = Step(
    id: string, name: string, entities: seq<EntityMetadata>, relationships: seq<RelationshipMetadata>)

  datatype GraphObjectMetadata = GraphObjectMetadata(
    entities: seq<EntityMetadata>, relationships: seq<RelationshipMetadata>)

  /** The deduplication keys. */
  function EntityType(e: EntityMetadata): string { e.typeName }
  function RelationshipType(r: RelationshipMetadata): string { r.typeName }

  /** Some step has identifier `id`. */
  predicate HasStep(steps: seq<Step>, id: string)
  {
    exists i :: 0 <= i < |steps| && steps[i].id == id
  }

  /** Every identifier of the dependency order names a step. */
  predicate AllDeclared(steps: seq<Step>, order: seq<string>)
  {
    forall k :: 0 <= k < |order| ==> HasStep(steps, order[k])
  }

  /** The index of the last step with identifier `id`. */
  function LastIndexOfId(steps: seq<Step>, id: string): (i: nat)
    requires HasStep(steps, id)
    ensures i < |steps| && steps[i].id == id
    ensures forall j :: i < j < |steps| ==> steps[j].id != id
  {
    var n := |steps| - 1;
    if steps[n].id == id then n
    else
      assert HasStep(steps[..n], id) by {
        var i :| 0 <= i < |steps| && steps[i].id == id;
        assert steps[..n][i] == steps[i];
      }
      LastIndexOfId(steps[..n], id)
  }

  /** The step registered under `id` once all steps are registered in order. */
  function StepWithId(steps: seq<Step>, id: string): Step
    requires HasStep(steps, id)
  {
    steps[LastIndexOfId(steps, id)]
  }

  /**
   * `integrationStepsToMap`: registers every step under its identifier; a
   * later step with the same identifier replaces an earlier one.
   */
  method IntegrationStepsToMap(steps: seq<Step>) returns (m: map<string, Step>)
    ensures forall id :: id in m <==> HasStep(steps, id)
    ensures forall id :: id in m ==> m[id] == StepWithId(steps, id)
  {
    m := map[];
    for k := 0 to |steps|
      invariant forall id :: id in m <==> HasStep(steps[..k], id)
      invariant forall id :: id in m ==> HasStep(steps[..k], id) && m[id] == StepWithId(steps[..k], id)
    {
      var step := steps[k];
      ghost var before := steps[..k];
      ghost var after := steps[..k + 1];
      assert after[..k] == before;
      assert after[k] == step;
      m := m[step.id := step];
      forall id | HasStep(after, id)
        ensures id in m
      {
        var i :| 0 <= i < |after| && after[i].id == id;
        if i < k { assert before[i] == after[i]; }
      }
      forall id | id in m
        ensures HasStep(after, id) && m[id] == StepWithId(after, id)
      {
        if id == step.id {
          assert after[k].id == id;
        } else {
          var i :| 0 <= i < |before| && before[i].id == id;
          assert after[i] == before[i];
        }
      }
    }
    assert steps[..|steps|] == steps;
  }

  /** The entity declarations met when the steps are visited in `order`. */
  function EntityWalk(steps: seq<Step>, order: seq<string>): seq<EntityMetadata>
    requires AllDeclared(steps, order)
  {
    if order == [] then []
    else StepWithId(steps, order[0]).entities + EntityWalk(steps, order[1..])
  }

  /** The relationship declarations met when the steps are visited in `order`. */
  function RelationshipWalk(steps: seq<Step>, order: seq<string>): seq<RelationshipMetadata>
    requires AllDeclared(steps, order)
  {
    if order == [] then []
    else StepWithId(steps, order[0]).relationships + RelationshipWalk(steps, order[1..])
  }

  lemma AllDeclaredSuffix(steps: seq<Step>, order: seq<string>, i: nat)
    requires AllDeclared(steps, order) && i <= |order|
    ensures AllDeclared(steps, order[i..])
  {
    forall k | 0 <= k < |order[i..]| ensures HasStep(steps, order[i..][k]) {
      assert order[i..][k] == order[i + k];
    }
  }

  /** Visiting the i-th step of the order, then the rest. */
  lemma WalkStep(steps: seq<Step>, order: seq<string>, i: nat)
    requires AllDeclared(steps, order) && i < |order|
    ensures AllDeclared(steps, order[i..]) && AllDeclared(steps, order[i + 1..])
    ensures EntityWalk(steps, order[i..]) == StepWithId(steps, order[i]).entities + EntityWalk(steps, order[i + 1..])
    ensures RelationshipWalk(steps, order[i..])
         == StepWithId(steps, order[i]).relationships + RelationshipWalk(steps, order[i + 1..])
  {
    AllDeclaredSuffix(steps, order, i);
    AllDeclaredSuffix(steps, order, i + 1);
    assert order[i..][0] == order[i] && order[i..][1..] == order[i + 1..];
  }

  /**
   * `collectGraphObjectMetadataFromSteps`, given the dependency order: walk
   * the steps in that order and keep each entity and each relationship
   * declaration whose `_type` was not kept before. The two kinds are
   * deduplicated separately: each result depends only on its own walk.
   */
  method CollectGraphObjectMetadataFromSteps(steps: seq<Step>, order: seq<string>)
    returns (metadata: GraphObjectMetadata)
    requires AllDeclared(steps, order)
    ensures metadata.entities == Dedup(EntityWalk(steps, order), EntityType)
    ensures metadata.relationships == Dedup(RelationshipWalk(steps, order), RelationshipType)
  {
    var integrationStepMap := IntegrationStepsToMap(steps);
    var entities: seq<EntityMetadata> := [];
    var relationships: seq<RelationshipMetadata> := [];
    var entityTypeSet: set<string> := {};
    var relationshipTypeSet: set<string> := {};
    ghost var entityTarget := Dedup(EntityWalk(steps, order), EntityType);
    ghost var relationshipTarget := Dedup(RelationshipWalk(steps, order), RelationshipType);
    assert order[0..] == order;

    for i := 0 to |order|
      invariant AllDeclared(steps, order[i..])
      invariant entities + DedupFrom(EntityWalk(steps, order[i..]), EntityType, entityTypeSet) == entityTarget
      invariant relationships + DedupFrom(RelationshipWalk(steps, order[i..]), RelationshipType, relationshipTypeSet)
        == relationshipTarget
    {
      WalkStep(steps, order, i);
      var step := integrationStepMap[order[i]];
      assert step == StepWithId(steps, order[i]);
      WalkOn(entities, entityTypeSet, step.entities, EntityWalk(steps, order[i + 1..]), EntityType, entityTarget);
      WalkOn(relationships, relationshipTypeSet, step.relationships, RelationshipWalk(steps, order[i + 1..]),
        RelationshipType, relationshipTarget);
      entities, entityTypeSet := KeepFirstSeen(entities, entityTypeSet, step.entities, EntityType);
      relationships, relationshipTypeSet :=
        KeepFirstSeen(relationships, relationshipTypeSet, step.relationships, RelationshipType);
    }
    metadata := GraphObjectMetadata(entities, relationships);
  }

  /**
   * What the collected lists promise: in each list no two records share a
   * `_type`; a `_type` is listed exactly when some step of the walk declares
   * it; the record listed is the first declaration met; and the records
   * follow the order in which their `_type`s are first met. Each list is
   * deduplicated on its own, so one `_type` can be listed once in each.
   */
  lemma CollectedMetadataIsFirstSeen(steps: seq<Step>, order: seq<string>)
    requires AllDeclared(steps, order)
    ensures var walk, kept := EntityWalk(steps, order), Dedup(EntityWalk(steps, order), EntityType);
      && UniqueKeys(kept, EntityType)
      && (forall t :: Declares(kept, EntityType, t) <==> Declares(walk, EntityType, t))
      && KeptAtFirstOccurrence(walk, EntityType, kept)
      && InFirstSeenOrder(walk, EntityType, kept)
    ensures var walk, kept := RelationshipWalk(steps, order), Dedup(RelationshipWalk(steps, order), RelationshipType);
      && UniqueKeys(kept, RelationshipType)
      && (forall t :: Declares(kept, RelationshipType, t) <==> Declares(walk, RelationshipType, t))
      && KeptAtFirstOccurrence(walk, RelationshipType, kept)
      && InFirstSeenOrder(walk, RelationshipType, kept)
  {
    DedupIsFirstSeen(EntityWalk(steps, order), EntityType);
    DedupIsFirstSeen(RelationshipWalk(steps, order), RelationshipType);
  }
}
