/** The knowledge graph behind the `memory_*` tools: entities with
    observations, and directed typed relations between them, one graph per
    user. Each operation here is the in-memory part of a tool, from the
    loaded graph to the graph saved (or returned). Entity names are compared
    the way the tools' dictionaries and sets compare them: ignoring case for
    entity lookups, exactly for relation triples and for the name sets built
    with the default comparer. */
module Memory {
  import opened Wrappers
  import opened Seqs
  import opened Text

  datatype Entity = Entity(name: string, kind: string, observations: seq<string>)

  datatype Relation = Relation(from: string, to: string, kind: string)

  /** Contents to add to, or remove from, the entity named `entity`. */
  datatype Observation = Observation(entity: string, contents: seq<string>)

  datatype Graph = Graph(entities: seq<Entity>, relations: seq<Relation>)

  const EmptyGraph := Graph([], [])

  /** `ToDictionary(e => e.Name, StringComparer.OrdinalIgnoreCase)` throws on
      a repeated key: the stored graph has two entities whose names differ
      only in case. */
  datatype MemoryError = DuplicateEntityName(name: string)

  /** No two entities share a name, ignoring case. */
  ghost predicate UniqueNames(es: seq<Entity>) {
    forall i, j :: 0 <= i < j < |es| ==> !EqualsIgnoreCase(es[i].name, es[j].name)
  }

  /** The case-insensitive keys of the entity dictionary. */
  function Keys(es: seq<Entity>): (r: seq<string>)
    ensures |r| == |es|
    ensures forall i :: 0 <= i < |es| ==> r[i] == Upper(es[i].name)
  {
    seq(|es|, i requires 0 <= i < |es| => Upper(es[i].name))
  }

  /** Building the dictionary: fails exactly when two names clash. */
  function CheckNames(es: seq<Entity>): (r: Result<seq<Entity>, MemoryError>)
    ensures r.Ok? <==> UniqueNames(es)
    ensures r.Ok? ==> r.value == es
  {
    match FirstRepeat(Keys(es), {})
    case Some(k) =>
      assert !Distinct(Keys(es));
      Err(DuplicateEntityName(k))
    case None =>
      assert Distinct(Keys(es));
      Ok(es)
  }

  /** `TryGetValue` on the dictionary: the position of the entity whose name
      equals `name` ignoring case (the first one, should there be several). */
  function Find(es: seq<Entity>, name: string): (r: Option<nat>)
    ensures r.Some? ==> r.value < |es| && EqualsIgnoreCase(es[r.value].name, name)
    ensures r.Some? ==> forall i :: 0 <= i < r.value ==> !EqualsIgnoreCase(es[i].name, name)
    ensures r.None? ==> forall i :: 0 <= i < |es| ==> !EqualsIgnoreCase(es[i].name, name)
    decreases |es|
  {
    if |es| == 0 then None
    else if EqualsIgnoreCase(es[0].name, name) then Some(0)
    else
      match Find(es[1..], name)
      case None => None
      case Some(i) => Some(i + 1)
  }

  /** The dictionary's view of the entities: the entity stored for `name`. */
  function Get(es: seq<Entity>, name: string): (r: Option<Entity>)
    ensures r.Some? <==> exists i :: 0 <= i < |es| && EqualsIgnoreCase(es[i].name, name)
    ensures r.Some? ==> r.value in es && EqualsIgnoreCase(r.value.name, name)
  {
    match Find(es, name)
    case Some(i) => Some(es[i])
    case None => None
  }

  /** Entity lists whose names agree position by position, ignoring case,
      look every name up at the same position. */
  lemma FindSameNames(a: seq<Entity>, b: seq<Entity>)
    requires |a| == |b|
    requires forall i :: 0 <= i < |a| ==> EqualsIgnoreCase(a[i].name, b[i].name)
    ensures forall n :: Find(a, n) == Find(b, n)
  {
    forall n ensures Find(a, n) == Find(b, n) {
      FindSameNamesAt(a, b, n);
    }
  }

  lemma {:induction false} FindSameNamesAt(a: seq<Entity>, b: seq<Entity>, n: string)
    requires |a| == |b|
    requires forall i :: 0 <= i < |a| ==> EqualsIgnoreCase(a[i].name, b[i].name)
    ensures Find(a, n) == Find(b, n)
    decreases |a|
  {
    if |a| > 0 {
      assert Upper(a[0].name) == Upper(b[0].name);
      assert forall i :: 0 <= i < |a| - 1 ==> a[1..][i] == a[i + 1] && b[1..][i] == b[i + 1];
      FindSameNamesAt(a[1..], b[1..], n);
    }
  }

  /** Names equal ignoring case are looked up alike. */
  lemma {:induction false} FindSameKey(es: seq<Entity>, n: string, m: string)
    requires EqualsIgnoreCase(n, m)
    ensures Find(es, n) == Find(es, m)
    decreases |es|
  {
    if |es| > 0 {
      FindSameKey(es[1..], n, m);
    }
  }

  /** `existing.Observations.Union(entity.Observations).Distinct()` with the
      incoming entity's name and type. */
  function Merged(existing: Entity, incoming: Entity): (r: Entity)
    ensures r.name == incoming.name && r.kind == incoming.kind
    ensures Distinct(r.observations)
    ensures forall o :: o in r.observations <==> o in existing.observations || o in incoming.observations
    ensures r.observations ==
      Dedup(existing.observations) + DedupFrom(incoming.observations, Elems(existing.observations))
    ensures Distinct(existing.observations) ==>
      r.observations == existing.observations + DedupFrom(incoming.observations, Elems(existing.observations))
  {
    DedupFromAppend(existing.observations, incoming.observations, {});
    assert {} + Elems(existing.observations) == Elems(existing.observations);
    assert Distinct(existing.observations) ==>
      Dedup(existing.observations + incoming.observations)
        == existing.observations + DedupFrom(incoming.observations, Elems(existing.observations)) by {
      if Distinct(existing.observations) {
        UnionKeepsOldFirst(existing.observations, incoming.observations);
      }
    }
    incoming.(observations := Dedup(existing.observations + incoming.observations))
  }

  /** What the dictionary holds for an incoming entity's name afterwards:
      the incoming entity, merged with the previous one if there was one. */
  function Incoming(prev: Option<Entity>, e: Entity): (r: Entity)
    ensures r.name == e.name && r.kind == e.kind
    ensures forall o :: o in r.observations <==> (prev.Some? && o in prev.value.observations) || o in e.observations
  {
    match prev
    case Some(p) => Merged(p, e)
    case None => e
  }

  /** One iteration of `CreateEntities`: an entity whose name is already
      present replaces it in place, with the observations merged; a new name
      is added at the end. */
  function Upsert(es: seq<Entity>, e: Entity): (r: seq<Entity>)
    requires UniqueNames(es)
    ensures UniqueNames(r)
    ensures |r| == if Find(es, e.name).Some? then |es| else |es| + 1
    ensures forall i :: 0 <= i < |es| ==> EqualsIgnoreCase(r[i].name, es[i].name)
    ensures Get(r, e.name) == Some(Incoming(Get(es, e.name), e))
  {
    match Find(es, e.name)
    case Some(i) =>
      var r := es[i := Merged(es[i], e)];
      FindSameNames(r, es);
      r
    case None =>
      var r := es + [e];
      assert Find(r, e.name) == Some(|es|) by {
        assert EqualsIgnoreCase(r[|es|].name, e.name);
      }
      r
  }

  /** The entity stored for any name after one upsert. */
  lemma UpsertGet(es: seq<Entity>, e: Entity, n: string)
    requires UniqueNames(es)
    ensures Get(Upsert(es, e), n) ==
      if EqualsIgnoreCase(n, e.name) then Some(Incoming(Get(es, n), e)) else Get(es, n)
  {
    var r := Upsert(es, e);
    if EqualsIgnoreCase(n, e.name) {
      FindSameKey(r, n, e.name);
      FindSameKey(es, n, e.name);
    } else {
      match Find(es, e.name)
      case Some(i) =>
        FindSameNames(r, es);
        if Find(es, n).Some? {
          assert Find(es, n).value != i;
        }
      case None =>
        assert forall k :: 0 <= k < |es| ==> r[k] == es[k];
        if Find(es, n).None? {
          assert !EqualsIgnoreCase(r[|es|].name, n);
        }
    }
  }

  /** The entity loop of `CreateEntities`, in batch order. */
  function UpsertAll(es: seq<Entity>, batch: seq<Entity>): (r: seq<Entity>)
    requires UniqueNames(es)
    ensures UniqueNames(r)
    ensures |r| >= |es|
    ensures forall i :: 0 <= i < |es| ==> EqualsIgnoreCase(r[i].name, es[i].name)
    decreases |batch|
  {
    if |batch| == 0 then es else UpsertAll(Upsert(es, batch[0]), batch[1..])
  }

  /** Some entity of the batch has name `n`, ignoring case. */
  predicate Mentions(batch: seq<Entity>, n: string) {
    exists k :: 0 <= k < |batch| && EqualsIgnoreCase(batch[k].name, n)
  }

  /** Some entity of the batch with name `n` brings observation `x`. */
  predicate Brings(batch: seq<Entity>, n: string, x: string) {
    exists k :: 0 <= k < |batch| && EqualsIgnoreCase(batch[k].name, n) && x in batch[k].observations
  }

  /** Batch entry `k` is the last one with a name equal to `n`. */
  predicate LastNamed(batch: seq<Entity>, k: int, n: string)
    requires 0 <= k < |batch|
  {
    EqualsIgnoreCase(batch[k].name, n) && forall j :: k < j < |batch| ==> !EqualsIgnoreCase(batch[j].name, n)
  }

  lemma BatchStep(batch: seq<Entity>, n: string, x: string)
    requires |batch| > 0
    ensures Mentions(batch, n) <==> EqualsIgnoreCase(batch[0].name, n) || Mentions(batch[1..], n)
    ensures Brings(batch, n, x) <==>
      (EqualsIgnoreCase(batch[0].name, n) && x in batch[0].observations) || Brings(batch[1..], n, x)
  {
    var rest := batch[1..];
    if Mentions(batch, n) && !EqualsIgnoreCase(batch[0].name, n) {
      var k :| 0 <= k < |batch| && EqualsIgnoreCase(batch[k].name, n);
      assert rest[k - 1] == batch[k];
    }
    if Mentions(rest, n) {
      var k :| 0 <= k < |rest| && EqualsIgnoreCase(rest[k].name, n);
      assert batch[k + 1] == rest[k];
    }
    if Brings(batch, n, x) && !(EqualsIgnoreCase(batch[0].name, n) && x in batch[0].observations) {
      var k :| 0 <= k < |batch| && EqualsIgnoreCase(batch[k].name, n) && x in batch[k].observations;
      assert rest[k - 1] == batch[k];
    }
    if Brings(rest, n, x) {
      var k :| 0 <= k < |rest| && EqualsIgnoreCase(rest[k].name, n) && x in rest[k].observations;
      assert batch[k + 1] == rest[k];
    }
  }

  /** A name the batch does not mention keeps its entity. */
  lemma {:induction false} UpsertAllUntouched(es: seq<Entity>, batch: seq<Entity>, n: string)
    requires UniqueNames(es)
    requires !Mentions(batch, n)
    ensures Get(UpsertAll(es, batch), n) == Get(es, n)
    decreases |batch|
  {
    if |batch| > 0 {
      BatchStep(batch, n, "");
      UpsertGet(es, batch[0], n);
      UpsertAllUntouched(Upsert(es, batch[0]), batch[1..], n);
    }
  }

  /** After `CreateEntities` a name has an entity iff it had one or the
      batch mentions it. */
  lemma {:induction false} UpsertAllPresent(es: seq<Entity>, batch: seq<Entity>, n: string)
    requires UniqueNames(es)
    ensures Get(UpsertAll(es, batch), n).Some? <==> Get(es, n).Some? || Mentions(batch, n)
    decreases |batch|
  {
    if |batch| > 0 {
      BatchStep(batch, n, "");
      UpsertGet(es, batch[0], n);
      UpsertAllPresent(Upsert(es, batch[0]), batch[1..], n);
    }
  }

  /** The last incoming entity with a name gives the stored entity its name
      and type. */
  lemma {:induction false} UpsertAllLast(es: seq<Entity>, batch: seq<Entity>, k: int, n: string)
    requires UniqueNames(es)
    requires 0 <= k < |batch| && LastNamed(batch, k, n)
    ensures Get(UpsertAll(es, batch), n).Some?
    ensures Get(UpsertAll(es, batch), n).value.name == batch[k].name
    ensures Get(UpsertAll(es, batch), n).value.kind == batch[k].kind
    decreases |batch|
  {
    var next := Upsert(es, batch[0]);
    var rest := batch[1..];
    if k == 0 {
      assert !Mentions(rest, n) by {
        assert forall j :: 0 <= j < |rest| ==> rest[j] == batch[j + 1];
      }
      UpsertGet(es, batch[0], n);
      UpsertAllUntouched(next, rest, n);
    } else {
      assert LastNamed(rest, k - 1, n) by {
        assert forall j :: k - 1 < j < |rest| ==> rest[j] == batch[j + 1];
      }
      UpsertAllLast(next, rest, k - 1, n);
    }
  }

  /** The observations stored for a name after `CreateEntities`: those it
      had and those every incoming entity with that name brings. */
  lemma {:induction false} UpsertAllObservations(es: seq<Entity>, batch: seq<Entity>, n: string, x: string)
    requires UniqueNames(es)
    requires Get(UpsertAll(es, batch), n).Some?
    ensures x in Get(UpsertAll(es, batch), n).value.observations <==>
      (Get(es, n).Some? && x in Get(es, n).value.observations) || Brings(batch, n, x)
    decreases |batch|
  {
    if |batch| > 0 {
      var next := Upsert(es, batch[0]);
      BatchStep(batch, n, x);
      UpsertGet(es, batch[0], n);
      UpsertAllObservations(next, batch[1..], n, x);
    }
  }

  /** `CreateEntities`: upserts the batch into the entity dictionary (which
      fails if the stored names clash) and keeps the relations. Existing
      entities keep their positions, new names follow in batch order. */
  function CreateEntities(g: Graph, batch: seq<Entity>): (r: Result<Graph, MemoryError>)
    ensures r.Ok? <==> UniqueNames(g.entities)
    ensures r.Ok? ==> r.value.relations == g.relations
    ensures r.Ok? ==> UniqueNames(r.value.entities) && |r.value.entities| >= |g.entities|
    ensures r.Ok? ==> forall i :: 0 <= i < |g.entities| ==>
      EqualsIgnoreCase(r.value.entities[i].name, g.entities[i].name)
    ensures r.Ok? ==> forall n :: Get(r.value.entities, n).Some? <==> Get(g.entities, n).Some? || Mentions(batch, n)
    ensures r.Ok? ==> r.value.entities == UpsertAll(g.entities, batch)
  {
    match CheckNames(g.entities)
    case Err(e) => Err(e)
    case Ok(es) =>
      var r := UpsertAll(es, batch);
      assert forall n :: Get(r, n).Some? <==> Get(es, n).Some? || Mentions(batch, n) by {
        forall n ensures Get(r, n).Some? <==> Get(es, n).Some? || Mentions(batch, n) {
          UpsertAllPresent(es, batch, n);
        }
      }
      Ok(Graph(r, g.relations))
  }

  /** Creating an entity whose observations have no repeats a second time
      changes nothing. */
  lemma UpsertIdempotent(es: seq<Entity>, e: Entity)
    requires UniqueNames(es)
    requires Distinct(e.observations)
    ensures Upsert(Upsert(es, e), e) == Upsert(es, e)
  {
    var once := Upsert(es, e);
    var i := Find(once, e.name).value;
    var first := once[i];
    assert first == Incoming(Get(es, e.name), e);
    DedupFromAppend(first.observations, e.observations, {});
    DedupFromAllSeen(e.observations, {} + Elems(first.observations));
    if Get(es, e.name).Some? {
      DedupFromDistinct(first.observations, {});
    } else {
      DedupFromDistinct(e.observations, {});
    }
    assert Merged(first, e) == first;
  }

  /** Where an observation batch entry lands: the position of its entity. */
  predicate Targets(es: seq<Entity>, o: Observation, i: int) {
    Find(es, o.entity) == Some(i)
  }

  /** Some batch entry targets entity `i`. */
  predicate Targeted(es: seq<Entity>, batch: seq<Observation>, i: int) {
    exists k :: 0 <= k < |batch| && Targets(es, batch[k], i)
  }

  /** Some batch entry that targets entity `i` lists `x`. */
  predicate Lists(es: seq<Entity>, batch: seq<Observation>, i: int, x: string) {
    exists k :: 0 <= k < |batch| && Targets(es, batch[k], i) && x in batch[k].contents
  }

  /** The entries after the first target what they targeted before, when
      the first one changed no names. */
  lemma ObservationStep(es: seq<Entity>, next: seq<Entity>, batch: seq<Observation>, i: int, x: string)
    requires |batch| > 0
    requires |next| == |es| && forall j :: 0 <= j < |es| ==> next[j].name == es[j].name
    ensures Targeted(es, batch, i) <==> Targets(es, batch[0], i) || Targeted(next, batch[1..], i)
    ensures Lists(es, batch, i, x) <==>
      (Targets(es, batch[0], i) && x in batch[0].contents) || Lists(next, batch[1..], i, x)
  {
    FindSameNames(next, es);
    TargetedStep(es, next, batch, i);
    ListsStep(es, next, batch, i, x);
  }

  lemma TargetedStep(es: seq<Entity>, next: seq<Entity>, batch: seq<Observation>, i: int)
    requires |batch| > 0
    requires forall n :: Find(next, n) == Find(es, n)
    ensures Targeted(es, batch, i) <==> Targets(es, batch[0], i) || Targeted(next, batch[1..], i)
  {
    var rest := batch[1..];
    if Targeted(es, batch, i) && !Targets(es, batch[0], i) {
      var k :| 0 <= k < |batch| && Targets(es, batch[k], i);
      assert rest[k - 1] == batch[k];
    }
    if Targeted(next, rest, i) {
      var k :| 0 <= k < |rest| && Targets(next, rest[k], i);
      assert batch[k + 1] == rest[k];
    }
  }

  lemma ListsStep(es: seq<Entity>, next: seq<Entity>, batch: seq<Observation>, i: int, x: string)
    requires |batch| > 0
    requires forall n :: Find(next, n) == Find(es, n)
    ensures Lists(es, batch, i, x) <==>
      (Targets(es, batch[0], i) && x in batch[0].contents) || Lists(next, batch[1..], i, x)
  {
    var rest := batch[1..];
    if Lists(es, batch, i, x) && !(Targets(es, batch[0], i) && x in batch[0].contents) {
      var k :| 0 <= k < |batch| && Targets(es, batch[k], i) && x in batch[k].contents;
      assert rest[k - 1] == batch[k];
    }
    if Lists(next, rest, i, x) {
      var k :| 0 <= k < |rest| && Targets(next, rest[k], i) && x in rest[k].contents;
      assert batch[k + 1] == rest[k];
    }
  }

  /** One iteration of `AddObservations`: a known entity gets the contents
      merged into its observations; an unknown one is ignored. */
  function AddOne(es: seq<Entity>, o: Observation): (r: seq<Entity>)
    ensures |r| == |es|
    ensures forall i :: 0 <= i < |es| ==> r[i].name == es[i].name && r[i].kind == es[i].kind
  {
    match Find(es, o.entity)
    case Some(i) => es[i := es[i].(observations := Dedup(es[i].observations + o.contents))]
    case None => es
  }

  function AddObservations(es: seq<Entity>, batch: seq<Observation>): (r: seq<Entity>)
    ensures |r| == |es|
    ensures forall i :: 0 <= i < |es| ==> r[i].name == es[i].name && r[i].kind == es[i].kind
    decreases |batch|
  {
    if |batch| == 0 then es else AddObservations(AddOne(es, batch[0]), batch[1..])
  }

  /** An entity no entry targets is left as it was. */
  lemma {:induction false} AddObservationsUntargeted(es: seq<Entity>, batch: seq<Observation>, i: int)
    requires 0 <= i < |es| && !Targeted(es, batch, i)
    ensures AddObservations(es, batch)[i] == es[i]
    decreases |batch|
  {
    if |batch| > 0 {
      var next := AddOne(es, batch[0]);
      ObservationStep(es, next, batch, i, "");
      AddObservationsUntargeted(next, batch[1..], i);
    }
  }

  /** A targeted entity ends with exactly its old observations and the
      contents of the entries that target it, without repeats. */
  lemma {:induction false} AddObservationsContents(es: seq<Entity>, batch: seq<Observation>, i: int, x: string)
    requires 0 <= i < |es|
    ensures x in AddObservations(es, batch)[i].observations <==> x in es[i].observations || Lists(es, batch, i, x)
    ensures Targeted(es, batch, i) ==> Distinct(AddObservations(es, batch)[i].observations)
    decreases |batch|
  {
    if |batch| > 0 {
      var next := AddOne(es, batch[0]);
      ObservationStep(es, next, batch, i, x);
      AddObservationsContents(next, batch[1..], i, x);
      if !Targeted(next, batch[1..], i) {
        AddObservationsUntargeted(next, batch[1..], i);
      }
    }
  }

  /** One iteration of `DeleteObservations`: a known entity keeps the
      observations not listed, without repeats (`Except`). */
  function RemoveOne(es: seq<Entity>, o: Observation): (r: seq<Entity>)
    ensures |r| == |es|
    ensures forall i :: 0 <= i < |es| ==> r[i].name == es[i].name && r[i].kind == es[i].kind
  {
    match Find(es, o.entity)
    case Some(i) => es[i := es[i].(observations := DedupFrom(es[i].observations, Elems(o.contents)))]
    case None => es
  }

  function DeleteObservations(es: seq<Entity>, batch: seq<Observation>): (r: seq<Entity>)
    ensures |r| == |es|
    ensures forall i :: 0 <= i < |es| ==> r[i].name == es[i].name && r[i].kind == es[i].kind
    decreases |batch|
  {
    if |batch| == 0 then es else DeleteObservations(RemoveOne(es, batch[0]), batch[1..])
  }

  lemma {:induction false} DeleteObservationsUntargeted(es: seq<Entity>, batch: seq<Observation>, i: int)
    requires 0 <= i < |es| && !Targeted(es, batch, i)
    ensures DeleteObservations(es, batch)[i] == es[i]
    decreases |batch|
  {
    if |batch| > 0 {
      var next := RemoveOne(es, batch[0]);
      ObservationStep(es, next, batch, i, "");
      DeleteObservationsUntargeted(next, batch[1..], i);
    }
  }

  /** A targeted entity keeps, without repeats, exactly the observations no
      entry targeting it lists. */
  lemma {:induction false} DeleteObservationsContents(es: seq<Entity>, batch: seq<Observation>, i: int, x: string)
    requires 0 <= i < |es|
    ensures x in DeleteObservations(es, batch)[i].observations <==> x in es[i].observations && !Lists(es, batch, i, x)
    ensures Targeted(es, batch, i) ==> Distinct(DeleteObservations(es, batch)[i].observations)
    decreases |batch|
  {
    if |batch| > 0 {
      var next := RemoveOne(es, batch[0]);
      ObservationStep(es, next, batch, i, x);
      DeleteObservationsContents(next, batch[1..], i, x);
      if !Targeted(next, batch[1..], i) {
        DeleteObservationsUntargeted(next, batch[1..], i);
      }
    }
  }

  /** `AddObservations` and `DeleteObservations` as tools: they go through
      the entity dictionary, so clashing stored names make them fail. */
  function AddObservationsTo(g: Graph, batch: seq<Observation>): (r: Result<Graph, MemoryError>)
    ensures r.Ok? <==> UniqueNames(g.entities)
    ensures r.Ok? ==> r.value.relations == g.relations && UniqueNames(r.value.entities)
    ensures r.Ok? ==> r.value.entities == AddObservations(g.entities, batch)
  {
    match CheckNames(g.entities)
    case Err(e) => Err(e)
    case Ok(es) => Ok(Graph(AddObservations(es, batch), g.relations))
  }

  function DeleteObservationsFrom(g: Graph, batch: seq<Observation>): (r: Result<Graph, MemoryError>)
    ensures r.Ok? <==> UniqueNames(g.entities)
    ensures r.Ok? ==> r.value.relations == g.relations && UniqueNames(r.value.entities)
    ensures r.Ok? ==> r.value.entities == DeleteObservations(g.entities, batch)
  {
    match CheckNames(g.entities)
    case Err(e) => Err(e)
    case Ok(es) => Ok(Graph(DeleteObservations(es, batch), g.relations))
  }

  /** `CreateRelations`: a relation is appended unless its exact triple is
      already stored or came earlier in the batch. */
  function CreateRelations(g: Graph, batch: seq<Relation>): (r: Graph)
    ensures r.entities == g.entities
    ensures |r.relations| >= |g.relations| && r.relations[..|g.relations|] == g.relations
    ensures forall x :: x in r.relations <==> x in g.relations || x in batch
    ensures Distinct(r.relations[|g.relations|..])
    ensures forall x :: x in r.relations[|g.relations|..] ==> x !in g.relations
    ensures SubsequenceOf(r.relations[|g.relations|..], batch)
    ensures r.relations[|g.relations|..] == DedupFrom(batch, Elems(g.relations))
  {
    var added := DedupFrom(batch, Elems(g.relations));
    DedupFromKeepsOrder(batch, Elems(g.relations));
    var r := g.relations + added;
    assert r[|g.relations|..] == added;
    Graph(g.entities, r)
  }

  /** The name is one of `names`, ignoring case. */
  predicate Named(name: string, names: seq<string>) {
    exists k :: 0 <= k < |names| && EqualsIgnoreCase(names[k], name)
  }

  /** `DeleteEntities`: drops the entities named (ignoring case) and every
      relation from or to such a name, keeping the rest in order. */
  function DeleteEntities(g: Graph, names: seq<string>): (r: Graph)
    ensures forall e :: e in r.entities <==> e in g.entities && !Named(e.name, names)
    ensures forall x :: x in r.relations <==> x in g.relations && !Named(x.from, names) && !Named(x.to, names)
    ensures |r.entities| <= |g.entities| && |r.relations| <= |g.relations|
    ensures SubsequenceOf(r.entities, g.entities) && SubsequenceOf(r.relations, g.relations)
    ensures forall e :: multiset(r.entities)[e] == if Named(e.name, names) then 0 else multiset(g.entities)[e]
    ensures forall x ::
      multiset(r.relations)[x] == if Named(x.from, names) || Named(x.to, names) then 0 else multiset(g.relations)[x]
  {
    var keepEntity := (e: Entity) => !Named(e.name, names);
    var keepRelation := (x: Relation) => !Named(x.from, names) && !Named(x.to, names);
    FilterKeepsOrder(g.entities, keepEntity);
    FilterKeepsOrder(g.relations, keepRelation);
    Graph(Filter(g.entities, keepEntity), Filter(g.relations, keepRelation))
  }

  /** Deleting the same names again changes nothing. */
  lemma DeleteEntitiesIdempotent(g: Graph, names: seq<string>)
    ensures DeleteEntities(DeleteEntities(g, names), names) == DeleteEntities(g, names)
  {
    var once := DeleteEntities(g, names);
    FilterKeepsAll(once.entities, (e: Entity) => !Named(e.name, names));
    FilterKeepsAll(once.relations, (x: Relation) => !Named(x.from, names) && !Named(x.to, names));
  }

  /** Deleting entities keeps the names unique. */
  lemma DeleteEntitiesKeepsUnique(g: Graph, names: seq<string>)
    requires UniqueNames(g.entities)
    ensures UniqueNames(DeleteEntities(g, names).entities)
  {
    FilterSubsequence(g.entities, (e: Entity) => !Named(e.name, names));
  }

  /** A filtered list is a subsequence: its positions map increasingly into
      the original. */
  lemma {:induction false} FilterSubsequence(s: seq<Entity>, p: Entity -> bool)
    requires UniqueNames(s)
    ensures UniqueNames(Filter(s, p))
    decreases |s|
  {
    if |s| > 0 {
      var rest := s[1..];
      assert UniqueNames(rest) by {
        forall i, j | 0 <= i < j < |rest| ensures !EqualsIgnoreCase(rest[i].name, rest[j].name) {
          assert rest[i] == s[i + 1] && rest[j] == s[j + 1];
        }
      }
      FilterSubsequence(rest, p);
      var f := Filter(rest, p);
      if p(s[0]) {
        forall x | x in f ensures !EqualsIgnoreCase(s[0].name, x.name) {
          var j :| 0 <= j < |rest| && rest[j] == x;
          assert s[j + 1] == x;
        }
        UniqueCons(s[0], f);
      }
    }
  }

  /** An entity whose name clashes with none of a list with unique names
      can be put in front of it. */
  lemma UniqueCons(e: Entity, f: seq<Entity>)
    requires UniqueNames(f)
    requires forall x :: x in f ==> !EqualsIgnoreCase(e.name, x.name)
    ensures UniqueNames([e] + f)
  {
    var r := [e] + f;
    forall i, j | 0 <= i < j < |r| ensures !EqualsIgnoreCase(r[i].name, r[j].name) {
      if i == 0 {
        assert r[j] == f[j - 1] && r[j] in f;
      } else {
        assert r[i] == f[i - 1] && r[j] == f[j - 1];
      }
    }
  }

  /** `DeleteRelations`: drops exactly the relations whose triple is listed. */
  function DeleteRelations(g: Graph, batch: seq<Relation>): (r: Graph)
    ensures r.entities == g.entities
    ensures forall x :: x in r.relations <==> x in g.relations && x !in batch
    ensures |r.relations| <= |g.relations|
    ensures SubsequenceOf(r.relations, g.relations)
    ensures forall x :: multiset(r.relations)[x] == if x in batch then 0 else multiset(g.relations)[x]
  {
    var keep := (x: Relation) => x !in batch;
    FilterKeepsOrder(g.relations, keep);
    Graph(g.entities, Filter(g.relations, keep))
  }

  /** Creating relations and then deleting the same batch leaves the stored
      relations that the batch does not list, in their order. */
  lemma CreateThenDeleteRelations(g: Graph, batch: seq<Relation>)
    ensures DeleteRelations(CreateRelations(g, batch), batch)
         == DeleteRelations(g, batch)
  {
    var added := DedupFrom(batch, Elems(g.relations));
    var keep := (x: Relation) => x !in batch;
    FilterAppend(g.relations, added, keep);
    FilterNone(added, keep);
    assert CreateRelations(g, batch).relations == g.relations + added;
  }

  /** `SearchNodes`: the entities whose name contains the query ignoring
      case, and the relations from or to one of their names (compared
      exactly: the name set uses the default comparer). */
  function SearchNodes(g: Graph, query: string): (r: Graph)
    ensures forall e :: e in r.entities <==> e in g.entities && ContainsIgnoreCase(e.name, query)
    ensures forall x :: x in r.relations <==> (x in g.relations &&
      exists e :: e in r.entities && (e.name == x.from || e.name == x.to))
  {
    var entities := Filter(g.entities, (e: Entity) => ContainsIgnoreCase(e.name, query));
    var names := set e | e in entities :: e.name;
    Graph(entities, Filter(g.relations, (x: Relation) => x.from in names || x.to in names))
  }

  /** An empty query matches every entity. */
  lemma SearchEmptyQueryFindsAll(g: Graph)
    ensures SearchNodes(g, "").entities == g.entities
  {
    forall e | e in g.entities ensures ContainsIgnoreCase(e.name, "") {
      assert OccursAt(Upper(e.name), Upper(""), 0);
    }
    FilterKeepsAll(g.entities, (e: Entity) => ContainsIgnoreCase(e.name, ""));
  }

  /** `OpenNodes`: the relations from or to one of the names (ignoring case),
      and the entities that are named, or whose exact name is an endpoint of
      one of those relations. */
  function OpenNodes(g: Graph, names: seq<string>): (r: Graph)
    ensures forall x :: x in r.relations <==> x in g.relations && (Named(x.from, names) || Named(x.to, names))
    ensures forall e :: e in r.entities <==> (e in g.entities &&
      (Named(e.name, names) || exists x :: x in r.relations && (x.from == e.name || x.to == e.name)))
  {
    var matched := Filter(g.entities, (e: Entity) => Named(e.name, names));
    var relations := Filter(g.relations, (x: Relation) => Named(x.from, names) || Named(x.to, names));
    var named := set e | e in matched :: e.name;
    assert forall e :: e in g.entities ==> (e.name in named <==> Named(e.name, names)) by {
      forall e | e in g.entities ensures e.name in named <==> Named(e.name, names) {
        if e.name in named {
          var m :| m in matched && m.name == e.name;
        }
      }
    }
    var related := named + (set x | x in relations :: x.from) + (set x | x in relations :: x.to);
    Graph(Filter(g.entities, (e: Entity) => e.name in related), relations)
  }

  /** The subgraph `OpenNodes` returns is closed: each relation's endpoint
      entities, when stored under exactly that name, come with it. */
  lemma OpenNodesClosed(g: Graph, names: seq<string>)
    ensures var r := OpenNodes(g, names);
      forall x, e :: x in r.relations && e in g.entities && (e.name == x.from || e.name == x.to) ==> e in r.entities
  {
  }

  /** Every operation that writes the graph keeps entity names unique, so a
      graph written only by these tools can always be loaded into the
      dictionary. */
  lemma WritesKeepNamesUnique(g: Graph, entities: seq<Entity>, relations: seq<Relation>,
                              observations: seq<Observation>, names: seq<string>)
    requires UniqueNames(g.entities)
    ensures UniqueNames(CreateEntities(g, entities).value.entities)
    ensures UniqueNames(CreateRelations(g, relations).entities)
    ensures UniqueNames(AddObservationsTo(g, observations).value.entities)
    ensures UniqueNames(DeleteObservationsFrom(g, observations).value.entities)
    ensures UniqueNames(DeleteEntities(g, names).entities)
    ensures UniqueNames(DeleteRelations(g, relations).entities)
  {
    DeleteEntitiesKeepsUnique(g, names);
  }
}

/** `MemoryChatClient`: the chat client stage that registers the `memory_*`
    tools for a request made on behalf of a user, and runs those tools
    against that user's stored graph. The per-user JSON files are a map from
    user id to graph (a user without a file reads as the empty graph). */
module MemoryClient {
  import opened Wrappers
  import opened Text
  import opened Chat
  import opened ChatExtensions
  import opened SystemPromptExtensions
  import Memory

  /** The opening lines of the memory instructions added as a system prompt
      (the rest of the text is not modelled). */
  const MemoryPromptHeading := "# Knowledge Graph Memory Management:"
  const MemoryPrompt := MemoryPromptHeading + "\n\nFollow these steps for each interaction:\n\n1. User Identification:"

  const ReadGraphTool := "memory_read_graph"

  /** The tools registered, in registration order. */
  const MemoryTools: seq<Tool> := [
    Tool(ReadGraphTool), Tool("memory_search_nodes"), Tool("memory_create_entities"),
    Tool("memory_create_relations"), Tool("memory_add_observations"), Tool("memory_delete_entities"),
    Tool("memory_delete_observations"), Tool("memory_delete_relations"), Tool("memory_open_nodes")]

  /** `SetupTools`: for a request with a user, adds the memory prompt and,
      unless a tool named "memory_read_graph" is already there, appends the
      nine memory tools (creating the tool list if it is null). */
  function SetupTools(o: Option<ChatOptions>): (r: Option<ChatOptions>)
    ensures o.None? ==> r.None?
    ensures o.Some? && !HasEndUser(o.value) ==> r == o
    ensures o.Some? && HasEndUser(o.value) ==>
      && r.Some?
      && SystemPrompts(r.value).Some? && MemoryPrompt in SystemPrompts(r.value).value
      && EndUserId(r.value) == EndUserId(o.value)
      && HasTool(r.value.tools, ReadGraphTool)
      && r.value.toolMode == o.value.toolMode && r.value.conversationId == o.value.conversationId
      && (HasTool(o.value.tools, ReadGraphTool) ==> r.value.tools == o.value.tools)
      && (!HasTool(o.value.tools, ReadGraphTool) ==> r.value.tools == Some(o.value.tools.GetOr([]) + MemoryTools))
  {
    if o.None? || !HasEndUser(o.value) then o
    else
      var prompted := AddSystemPrompt(o.value, Some(MemoryPrompt));
      assert !IsNullOrWhiteSpace(Some(MemoryPrompt)) by {
        assert MemoryPrompt[0] == '#';
      }
      assert EndUserId(prompted) == EndUserId(o.value);
      var tools := prompted.tools.GetOr([]);
      if HasTool(Some(tools), ReadGraphTool) then Some(prompted.(tools := Some(tools)))
      else
        assert (tools + MemoryTools)[|tools|] == Tool(ReadGraphTool);
        Some(prompted.(tools := Some(tools + MemoryTools)))
  }

  /** Setting up the tools of a request twice is the same as once. */
  lemma SetupToolsIdempotent(o: Option<ChatOptions>)
    ensures SetupTools(SetupTools(o)) == SetupTools(o)
  {
    if o.Some? && HasEndUser(o.value) {
      var once := SetupTools(o).value;
      var prompted := AddSystemPrompt(o.value, Some(MemoryPrompt));
      AddSystemPromptIdempotent(o.value, Some(MemoryPrompt));
      assert once == prompted.(tools := once.tools);
      assert AddSystemPrompt(once, Some(MemoryPrompt)) == once;
    }
  }

  type Store = map<string, Memory.Graph>

  /** `LoadGraph`: a user without a file has the empty graph. */
  function Load(store: Store, user: string): Memory.Graph {
    if user in store then store[user] else Memory.EmptyGraph
  }

  /** The user the tools act for: `options?.EndUserId`, captured when the
      request is made (null when there are no options or no such string). */
  function CurrentUser(o: Option<ChatOptions>): (r: Option<string>)
    ensures o.Some? ==> r == EndUserId(o.value)
    ensures o.None? ==> r.None?
  {
    if o.None? then None else EndUserId(o.value)
  }

  /** A call of one of the nine tools with its arguments. */
  datatype Call =
    | ReadGraph
    | SearchNodes(query: string)
    | OpenNodes(names: seq<string>)
    | CreateEntities(entities: seq<Memory.Entity>)
    | CreateRelations(relations: seq<Memory.Relation>)
    | AddObservations(observations: seq<Memory.Observation>)
    | DeleteEntities(names: seq<string>)
    | DeleteObservations(observations: seq<Memory.Observation>)
    | DeleteRelations(relations: seq<Memory.Relation>)

  predicate IsQuery(c: Call) {
    c.ReadGraph? || c.SearchNodes? || c.OpenNodes?
  }

  /** A query returns a graph; a mutation returns nothing. */
  datatype Reply = Found(graph: Memory.Graph) | Done

  /** Saves the outcome of a mutation of the user's graph. */
  function Save(store: Store, user: string, g: Result<Memory.Graph, Memory.MemoryError>)
    : (r: (Store, Result<Reply, Memory.MemoryError>))
    ensures g.Ok? ==> r == (store[user := g.value], Ok(Done))
    ensures g.Err? ==> r == (store, Err(g.error))
  {
    match g
    case Ok(v) => (store[user := v], Ok(Done))
    case Err(e) => (store, Err(e))
  }

  /** The outcome a mutating tool computes from the user's stored graph `g`. */
  function Written(g: Memory.Graph, call: Call): Result<Memory.Graph, Memory.MemoryError>
    requires !IsQuery(call)
  {
    match call
    case CreateEntities(es) => Memory.CreateEntities(g, es)
    case CreateRelations(rs) => Ok(Memory.CreateRelations(g, rs))
    case AddObservations(os) => Memory.AddObservationsTo(g, os)
    case DeleteEntities(ns) => Ok(Memory.DeleteEntities(g, ns))
    case DeleteObservations(os) => Memory.DeleteObservationsFrom(g, os)
    case DeleteRelations(rs) => Ok(Memory.DeleteRelations(g, rs))
    case _ => Ok(g)
  }

  /** Runs a tool for `user`: with no user, queries give the empty graph and
      mutations do nothing; otherwise the user's graph is loaded, and a
      mutation saves its result over it. */
  function Invoke(store: Store, user: Option<string>, call: Call): (r: (Store, Result<Reply, Memory.MemoryError>))
    ensures user.None? ==> r == (store, Ok(if IsQuery(call) then Found(Memory.EmptyGraph) else Done))
    ensures IsQuery(call) ==> r.0 == store && r.1.Ok? && r.1.value.Found?
    ensures !IsQuery(call) ==> r.1.Err? || r.1 == Ok(Done)
    ensures r.1.Err? ==> r.0 == store
    ensures user.Some? ==> forall u :: u != user.value ==> (u in r.0 <==> u in store) && (u in store ==> r.0[u] == store[u])
    ensures user.Some? && IsQuery(call) ==> r.1.value.graph == match call
      case ReadGraph => Load(store, user.value)
      case SearchNodes(q) => Memory.SearchNodes(Load(store, user.value), q)
      case OpenNodes(ns) => Memory.OpenNodes(Load(store, user.value), ns)
    ensures user.Some? && !IsQuery(call) ==>
      var w := Written(Load(store, user.value), call);
      && (w.Ok? ==> r == (store[user.value := w.value], Ok(Done)))
      && (w.Err? ==> r == (store, Err(w.error)))
  {
    if user.None? then (store, Ok(if IsQuery(call) then Found(Memory.EmptyGraph) else Done))
    else
      var u := user.value;
      var g := Load(store, u);
      match call
      case ReadGraph => (store, Ok(Found(g)))
      case SearchNodes(q) => (store, Ok(Found(Memory.SearchNodes(g, q))))
      case OpenNodes(ns) => (store, Ok(Found(Memory.OpenNodes(g, ns))))
      case CreateEntities(es) => Save(store, u, Memory.CreateEntities(g, es))
      case CreateRelations(rs) => Save(store, u, Ok(Memory.CreateRelations(g, rs)))
      case AddObservations(os) => Save(store, u, Memory.AddObservationsTo(g, os))
      case DeleteEntities(ns) => Save(store, u, Ok(Memory.DeleteEntities(g, ns)))
      case DeleteObservations(os) => Save(store, u, Memory.DeleteObservationsFrom(g, os))
      case DeleteRelations(rs) => Save(store, u, Ok(Memory.DeleteRelations(g, rs)))
  }

  /** A user whose stored names are unique (as every graph written by the
      tools is) never sees a tool fail, and keeps unique names. */
  lemma InvokeKeepsNamesUnique(store: Store, user: string, call: Call)
    requires Memory.UniqueNames(Load(store, user).entities)
    ensures Invoke(store, Some(user), call).1.Ok?
    ensures Memory.UniqueNames(Load(Invoke(store, Some(user), call).0, user).entities)
  {
    var g := Load(store, user);
    match call
    case DeleteEntities(ns) => Memory.DeleteEntitiesKeepsUnique(g, ns);
    case _ =>
  }
}
