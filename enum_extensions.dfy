/** The walk over an OpenAPI document that removes enumeration members
  * repeated up to case: from every component schema and every schema an
  * operation mentions, it descends through properties, `Item`, `Items` and
  * `AdditionalPropertiesSchema`, deduplicating each schema it enters, and
  * keeps a set of entered schemas so that cycles end. */
module EnumExtensions {
  import opened Wrappers
  import opened EnumDeduplication

  /** A JSON schema object. Only the walk's view of it is kept: the two enum
    * lists it rewrites, the `$ref` target that `ActualSchema` follows, and
    * the child schemas it descends into. */
  class Schema {
    var enumeration: Option<seq<EnumValue>>
    var enumerationNames: Option<seq<Name>>
    /** The referenced schema, or null when this schema is not a reference. */
    var reference: Schema?
    /** `ActualProperties`: the property schemas, inherited ones included. */
    var properties: seq<Schema>
    var item: Schema?
    var items: Option<seq<Schema?>>
    var additionalPropertiesSchema: Schema?

    /** `ActualSchema`: the referenced schema, or the schema itself. */
    function Actual(): Schema
      reads this`reference
    {
      if reference == null then this else reference
    }

    /** The links of this schema, as the graph records them. */
    ghost function Linked(): Links
      reads this`reference, this`properties, this`item, this`items, this`additionalPropertiesSchema
    {
      Links(reference, properties, item, items, additionalPropertiesSchema)
    }

    function State(): EnumState
      reads this`enumeration, this`enumerationNames
    {
      EnumState(enumeration, enumerationNames)
    }
  }

  // ---------------------------------------------------------------------
  // The schema graph

  /** The links the walk follows out of one schema. */
  datatype Links = Links(reference: Schema?, properties: seq<Schema>, item: Schema?,
                         items: Option<seq<Schema?>>, additionalPropertiesSchema: Schema?)

  /** Every schema the walk can meet, with its links. The walk writes no
    * link, so one such map describes the graph from start to end. */
  type Graph = map<Schema, Links>

  /** `graph` records the links the schemas have now. */
  ghost predicate Shaped(graph: Graph)
    reads graph.Keys`reference, graph.Keys`properties, graph.Keys`item, graph.Keys`items,
          graph.Keys`additionalPropertiesSchema
  {
    forall x :: x in graph ==> graph[x] == x.Linked()
  }

  ghost predicate LinksWithin(l: Links, S: set<Schema>) {
    (l.reference != null ==> l.reference in S) &&
    (forall p :: p in l.properties ==> p in S) &&
    (l.item != null ==> l.item in S) &&
    (l.items.Some? ==> forall c: Schema :: c in l.items.value ==> c in S) &&
    (l.additionalPropertiesSchema != null ==> l.additionalPropertiesSchema in S)
  }

  /** Every schema a schema of `graph` links to is in `graph`. */
  ghost predicate Closed(graph: Graph) {
    forall x :: x in graph ==> LinksWithin(graph[x], graph.Keys)
  }

  /** `ActualSchema` on the recorded links. */
  ghost function ActualIn(graph: Graph, x: Schema): Schema
    requires x in graph
  {
    if graph[x].reference == null then x else graph[x].reference
  }

  /** Everything the walk enters from actual schema `a` is in `V`. */
  ghost predicate Expanded(graph: Graph, a: Schema, V: set<Schema>)
    requires a in graph && Closed(graph)
  {
    var l := graph[a];
    (forall p :: p in l.properties ==> ActualIn(graph, p) in V) &&
    (l.item != null ==> l.item in V) &&
    (l.items.Some? ==> forall c: Schema :: c in l.items.value ==> c in V) &&
    (l.additionalPropertiesSchema != null ==> l.additionalPropertiesSchema in V)
  }

  /** Every schema of `D` has had what it leads to entered into `V`. */
  ghost predicate Finished(graph: Graph, D: set<Schema>, V: set<Schema>)
    requires D <= graph.Keys && Closed(graph)
  {
    forall x :: x in D ==> Expanded(graph, ActualIn(graph, x), V)
  }

  /** The walk, once it has entered `x`, goes on to enter `y`. */
  ghost predicate Edge(graph: Graph, x: Schema, y: Schema)
    requires x in graph && Closed(graph)
  {
    var l := graph[ActualIn(graph, x)];
    (exists p :: p in l.properties && ActualIn(graph, p) == y) ||
    l.item == y ||
    (l.items.Some? && y in l.items.value) ||
    l.additionalPropertiesSchema == y
  }

  ghost predicate IsPath(graph: Graph, path: seq<Schema>)
    requires Closed(graph)
  {
    (forall k :: 0 <= k < |path| ==> path[k] in graph) &&
    (forall k :: 0 <= k < |path| - 1 ==> Edge(graph, path[k], path[k + 1]))
  }

  ghost function Snapshot(graph: Graph): map<Schema, EnumState>
    reads graph.Keys`enumeration, graph.Keys`enumerationNames
  {
    map x | x in graph :: x.State()
  }

  ghost function Actuals(graph: Graph, D: set<Schema>): set<Schema>
    requires D <= graph.Keys
  {
    set x | x in D :: ActualIn(graph, x)
  }

  /** From `before` to `after`, the actual schema of every schema of `D` was
    * deduplicated, and every other schema kept its lists. */
  ghost predicate Evolved(before: map<Schema, EnumState>, after: map<Schema, EnumState>,
                          D: set<Schema>, graph: Graph)
    requires D <= graph.Keys
  {
    graph.Keys <= before.Keys && graph.Keys <= after.Keys &&
    forall x :: x in graph ==>
      after[x] == if x in Actuals(graph, D) then Deduplicated(before[x]) else before[x]
  }

  predicate Distinct(s: seq<Schema>) {
    forall i, j :: 0 <= i < j < |s| ==> s[i] != s[j]
  }

  /** A closed graph is finished as a whole, so the walk can always be
    * started with `R` the whole graph. */
  lemma ClosedIsFinished(graph: Graph)
    requires Closed(graph)
    ensures Finished(graph, graph.Keys, graph.Keys)
  {
    forall x | x in graph ensures Expanded(graph, ActualIn(graph, x), graph.Keys) {
      assert LinksWithin(graph[ActualIn(graph, x)], graph.Keys);
    }
  }

  /** A schema every closed set holding `path[0]` holds. */
  lemma {:induction false} PathStaysInside(graph: Graph, V: set<Schema>, path: seq<Schema>)
    requires Closed(graph) && V <= graph.Keys && Finished(graph, V, V)
    requires |path| > 0 && IsPath(graph, path) && path[0] in V
    ensures path[|path| - 1] in V
    decreases |path|
  {
    if |path| > 1 {
      var init := path[..|path| - 1];
      assert IsPath(graph, init);
      PathStaysInside(graph, V, init);
      var x, y := path[|path| - 2], path[|path| - 1];
      assert Edge(graph, x, y);
      var l := graph[ActualIn(graph, x)];
      assert Expanded(graph, ActualIn(graph, x), V);
      if exists p :: p in l.properties && ActualIn(graph, p) == y {
        var p :| p in l.properties && ActualIn(graph, p) == y;
      }
    }
  }

  // ---------------------------------------------------------------------
  // Deduplicating one schema

  /** `unique.Cast<string>().Any(u => comparer.Equals(u, value))`. */
  function AnyEqualIgnoreCase(unique: seq<string>, value: string): (r: bool)
    ensures r <==> exists k :: 0 <= k < |unique| && SameIgnoringCase(unique[k], value)
  {
    if |unique| == 0 then false
    else SameIgnoringCase(unique[|unique| - 1], value) || AnyEqualIgnoreCase(unique[..|unique| - 1], value)
  }

  /** A value is already among the first occurrences before it exactly when
    * it is not a first occurrence itself. */
  lemma SeenBeforeIffNotFirst(ts: seq<string>, i: nat)
    requires i < |ts|
    ensures AnyEqualIgnoreCase(Pick(ts, Survivors(ts, i)), ts[i]) <==> !IsFirst(ts, i)
  {
    var keep := Survivors(ts, i);
    var out := Pick(ts, keep);
    if !IsFirst(ts, i) {
      var j :| 0 <= j < i && SameIgnoringCase(ts[j], ts[i]);
      var f := FirstAt(ts, j, 0);
      FirstAtIsFirst(ts, j);
      SurvivorsExact(ts, i);
      assert f in keep;
      var k :| 0 <= k < |keep| && keep[k] == f;
      assert SameIgnoringCase(out[k], ts[i]);
    }
  }

  /** The loop that collects the first occurrences and their names. */
  method CollectUnique(values: seq<EnumValue>, names: Option<seq<Name>>)
    returns (unique: seq<string>, uniqueNames: seq<Name>)
    requires AllStrings(values)
    ensures unique == Pick(Texts(values), Survivors(Texts(values), |values|))
    ensures uniqueNames == if names.Some? then PickNames(names.value, Survivors(Texts(values), |values|)) else []
  {
    ghost var ts := Texts(values);
    unique, uniqueNames := [], [];
    for i := 0 to |values|
      invariant unique == Pick(ts, Survivors(ts, i))
      invariant uniqueNames == if names.Some? then PickNames(names.value, Survivors(ts, i)) else []
    {
      var value := values[i].text;
      SeenBeforeIffNotFirst(ts, i);
      SurvivorsStep(ts, if names.Some? then names.value else [], i);
      if !AnyEqualIgnoreCase(unique, value) {
        unique := unique + [value];
        if names.Some? && |names.value| > i {
          uniqueNames := uniqueNames + [names.value[i]];
        }
      }
    }
  }

  /** Rewrites one schema's enumeration and names in place. */
  method RemoveDuplicatesIn(s: Schema)
    modifies s`enumeration, s`enumerationNames
    ensures s.State() == Deduplicated(old(s.State()))
  {
    if s.enumeration.Some? && |s.enumeration.value| > 1 && AllStrings(s.enumeration.value) {
      var values := s.enumeration.value;
      var unique, uniqueNames := CollectUnique(values, s.enumerationNames);
      ghost var expected := Deduplicated(s.State());
      if |unique| != |values| {
        assert expected.values == Some(Strings(unique));
        assert s.enumerationNames.Some? ==> expected.names == Some(uniqueNames);
        s.enumeration := Some([]);
        for k := 0 to |unique|
          invariant s.enumeration == Some(Strings(unique[..k]))
          invariant s.enumerationNames == old(s.enumerationNames)
        {
          assert unique[..k + 1] == unique[..k] + [unique[k]];
          StringsAppend(unique[..k], unique[k]);
          s.enumeration := Some(s.enumeration.value + [EnumString(unique[k])]);
        }
        assert unique[..|unique|] == unique;
        if s.enumerationNames.Some? {
          s.enumerationNames := Some([]);
          for k := 0 to |uniqueNames|
            invariant s.enumerationNames == Some(uniqueNames[..k])
            invariant s.enumeration == Some(Strings(unique))
          {
            assert uniqueNames[..k + 1] == uniqueNames[..k] + [uniqueNames[k]];
            s.enumerationNames := Some(s.enumerationNames.value + [uniqueNames[k]]);
          }
          assert uniqueNames[..|uniqueNames|] == uniqueNames;
        }
      }
    }
  }

  // ---------------------------------------------------------------------
  // Bookkeeping of the walk

  /** Halfway through a walk that began with `start` entered: the schemas
    * entered since are `V - start`, listed once each in `entered`, all in
    * `R`; those not in `pending` are finished; and the lists moved from
    * `before` to `now` by deduplicating exactly their actual schemas. */
  ghost predicate Progress(start: set<Schema>, pending: set<Schema>, V: set<Schema>, entered: seq<Schema>,
                           before: map<Schema, EnumState>, now: map<Schema, EnumState>,
                           graph: Graph, R: set<Schema>)
    requires Closed(graph)
  {
    start + pending <= V <= graph.Keys && V - start <= R &&
    Distinct(entered) &&
    (forall x :: x in entered ==> x in V - start) && (forall x :: x in V - start ==> x in entered) &&
    Finished(graph, V - start - pending, V) &&
    Evolved(before, now, V - start, graph)
  }

  lemma ExpandedGrows(graph: Graph, a: Schema, V1: set<Schema>, V2: set<Schema>)
    requires a in graph && Closed(graph) && V1 <= V2
    requires Expanded(graph, a, V1)
    ensures Expanded(graph, a, V2)
  {
  }

  lemma DistinctAppend(a: seq<Schema>, b: seq<Schema>)
    requires Distinct(a) && Distinct(b)
    requires forall x :: x in a ==> x !in b
    ensures Distinct(a + b)
  {
    forall i, j | 0 <= i < j < |a + b| ensures (a + b)[i] != (a + b)[j] {
      if j >= |a| && i < |a| {
        assert (a + b)[j] == b[j - |a|];
        assert (a + b)[j] in b;
      }
    }
  }

  /** Two stretches of the walk compose. A schema reached both through a
    * reference and directly is deduplicated twice; that equals doing it
    * once because the deduplication is idempotent. */
  lemma ComposeEvolved(s0: map<Schema, EnumState>, s1: map<Schema, EnumState>, s2: map<Schema, EnumState>,
                       D1: set<Schema>, D2: set<Schema>, graph: Graph)
    requires D1 <= graph.Keys && D2 <= graph.Keys
    requires Evolved(s0, s1, D1, graph) && Evolved(s1, s2, D2, graph)
    ensures Evolved(s0, s2, D1 + D2, graph)
  {
    forall x | x in graph
      ensures s2[x] == if x in Actuals(graph, D1 + D2) then Deduplicated(s0[x]) else s0[x]
    {
      DeduplicatedIdempotent(s0[x]);
      assert x in Actuals(graph, D1 + D2) <==> x in Actuals(graph, D1) || x in Actuals(graph, D2);
    }
  }

  /** One finished visit of a child extends the walk's progress. */
  lemma Advance(start: set<Schema>, pending: set<Schema>,
                V1: set<Schema>, e1: seq<Schema>, V2: set<Schema>, log: seq<Schema>,
                s0: map<Schema, EnumState>, s1: map<Schema, EnumState>, s2: map<Schema, EnumState>,
                graph: Graph, R: set<Schema>)
    requires Closed(graph)
    requires Progress(start, pending, V1, e1, s0, s1, graph, R)
    requires V1 <= V2 <= graph.Keys && V2 - V1 <= R
    requires Distinct(log) && (forall x :: x in log ==> x in V2 - V1) && (forall x :: x in V2 - V1 ==> x in log)
    requires Finished(graph, V2 - V1, V2)
    requires Evolved(s1, s2, V2 - V1, graph)
    ensures Progress(start, pending, V2, e1 + log, s0, s2, graph, R)
  {
    DistinctAppend(e1, log);
    ComposeEvolved(s0, s1, s2, V1 - start, V2 - V1, graph);
    assert (V1 - start) + (V2 - V1) == V2 - start;
    forall x | x in V2 - start - pending ensures Expanded(graph, ActualIn(graph, x), V2) {
      if x in V1 {
        ExpandedGrows(graph, ActualIn(graph, x), V1, V2);
      }
    }
  }

  lemma CoveredGrows(list: seq<Schema?>, i: nat, V1: set<Schema>, V2: set<Schema>)
    requires i < |list| && V1 <= V2
    requires forall k :: 0 <= k < i && list[k] != null ==> list[k] in V1
    requires list[i] != null ==> list[i] in V2
    ensures forall k :: 0 <= k < i + 1 && list[k] != null ==> list[k] in V2
  {
  }

  lemma ActualsCoveredGrows(graph: Graph, list: seq<Schema>, i: nat, V1: set<Schema>, V2: set<Schema>)
    requires i < |list| && V1 <= V2
    requires forall k :: 0 <= k < |list| ==> list[k] in graph
    requires forall k :: 0 <= k < i ==> ActualIn(graph, list[k]) in V1
    requires ActualIn(graph, list[i]) in V2
    ensures forall k :: 0 <= k < i + 1 ==> ActualIn(graph, list[k]) in V2
  {
  }

  /** The four stages of the descent together expand `a`. */
  lemma ExpandedInStages(graph: Graph, a: Schema,
                         V1: set<Schema>, V2: set<Schema>, V3: set<Schema>, V4: set<Schema>)
    requires a in graph && Closed(graph) && V1 <= V2 <= V3 <= V4
    requires forall p :: p in graph[a].properties ==> ActualIn(graph, p) in V1
    requires graph[a].item != null ==> graph[a].item in V2
    requires graph[a].items.Some? ==> forall c: Schema :: c in graph[a].items.value ==> c in V3
    requires graph[a].additionalPropertiesSchema != null ==> graph[a].additionalPropertiesSchema in V4
    ensures Expanded(graph, a, V4)
  {
  }

  // ---------------------------------------------------------------------
  // The walk

  /** The private recursive `RemoveCaseInsensitiveEnumDuplicates(schema,
    * visited)`, with `visited` threaded through as a value. `graph` holds
    * every schema the walk can meet and `R` is any closed set holding
    * `schema`. The schema is entered as reached, before its reference is
    * followed; the work is then done on the actual schema. */
  method Visit(schema: Schema?, visited: set<Schema>, ghost graph: Graph, ghost R: set<Schema>)
    returns (visitedOut: set<Schema>, ghost entered: seq<Schema>)
    requires Shaped(graph) && Closed(graph) && visited <= graph.Keys
    requires R <= graph.Keys && Finished(graph, R, R)
    requires schema != null ==> schema in graph && schema in R
    modifies graph.Keys`enumeration, graph.Keys`enumerationNames
    decreases graph.Keys - visited, 0
    ensures Shaped(graph)
    ensures visited <= visitedOut <= graph.Keys
    ensures schema != null ==> schema in visitedOut
    ensures schema == null || schema in visited ==> visitedOut == visited
    ensures visitedOut - visited <= R
    ensures Distinct(entered)
    ensures (forall x :: x in entered ==> x in visitedOut - visited) && (forall x :: x in visitedOut - visited ==> x in entered)
    ensures Finished(graph, visitedOut - visited, visitedOut)
    ensures Evolved(old(Snapshot(graph)), Snapshot(graph), visitedOut - visited, graph)
  {
    if schema == null || schema in visited {
      return visited, [];
    }
    visitedOut, entered := visited + {schema}, [schema];
    ghost var s0 := Snapshot(graph);
    var a := schema.Actual();
    assert a == ActualIn(graph, schema);
    RemoveDuplicatesIn(a);
    assert Actuals(graph, {schema}) == {a};
    assert visitedOut - visited == {schema};
    assert visitedOut - visited - {schema} == {};
    visitedOut, entered := VisitChildren(a, visitedOut, entered, visited, schema, s0, graph, R);
    forall x | x in visitedOut - visited ensures Expanded(graph, ActualIn(graph, x), visitedOut) {
      if x != schema {
        assert x in visitedOut - visited - {schema};
      }
    }
  }

  /** The descent from the actual schema `a` of `schema`: its properties,
    * `Item`, `Items` and `AdditionalPropertiesSchema`, in that order. */
  method VisitChildren(a: Schema, V: set<Schema>, ghost entered: seq<Schema>,
                       ghost visited: set<Schema>, ghost schema: Schema, ghost s0: map<Schema, EnumState>,
                       ghost graph: Graph, ghost R: set<Schema>)
    returns (V': set<Schema>, ghost entered': seq<Schema>)
    requires Shaped(graph) && Closed(graph) && R <= graph.Keys && Finished(graph, R, R)
    requires Progress(visited, {schema}, V, entered, s0, Snapshot(graph), graph, R)
    requires schema in R && a == ActualIn(graph, schema)
    modifies graph.Keys`enumeration, graph.Keys`enumerationNames
    decreases graph.Keys - (visited + {schema}), 3
    ensures Shaped(graph)
    ensures Progress(visited, {schema}, V', entered', s0, Snapshot(graph), graph, R)
    ensures V <= V' && Expanded(graph, a, V')
  {
    var item, additional := a.item, a.additionalPropertiesSchema;
    assert Expanded(graph, a, R);
    V', entered' := VisitProperties(a, V, entered, visited, schema, s0, graph, R);
    ghost var afterProperties := V';
    if item != null {
      V', entered' := Descend(item, V', entered', visited, {schema}, s0, graph, R);
    }
    ghost var afterItem := V';
    V', entered' := VisitItems(a, V', entered', visited, schema, s0, graph, R);
    ghost var afterItems := V';
    if additional != null {
      V', entered' := Descend(additional, V', entered', visited, {schema}, s0, graph, R);
    }
    ExpandedInStages(graph, a, afterProperties, afterItem, afterItems, V');
  }

  /** The actual schema of every property. */
  method VisitProperties(a: Schema, V: set<Schema>, ghost entered: seq<Schema>,
                         ghost visited: set<Schema>, ghost schema: Schema, ghost s0: map<Schema, EnumState>,
                         ghost graph: Graph, ghost R: set<Schema>)
    returns (V': set<Schema>, ghost entered': seq<Schema>)
    requires Shaped(graph) && Closed(graph) && R <= graph.Keys && Finished(graph, R, R)
    requires Progress(visited, {schema}, V, entered, s0, Snapshot(graph), graph, R)
    requires schema in R && a == ActualIn(graph, schema)
    modifies graph.Keys`enumeration, graph.Keys`enumerationNames
    decreases graph.Keys - (visited + {schema}), 2
    ensures Shaped(graph)
    ensures Progress(visited, {schema}, V', entered', s0, Snapshot(graph), graph, R)
    ensures V <= V' && forall p :: p in graph[a].properties ==> ActualIn(graph, p) in V'
  {
    V', entered' := V, entered;
    var properties := a.properties;
    assert Expanded(graph, a, R);
    for i := 0 to |properties|
      invariant Shaped(graph)
      invariant Progress(visited, {schema}, V', entered', s0, Snapshot(graph), graph, R)
      invariant V <= V'
      invariant forall k :: 0 <= k < i ==> ActualIn(graph, properties[k]) in V'
    {
      var property := properties[i].Actual();
      assert property == ActualIn(graph, properties[i]);
      ghost var before := V';
      V', entered' := Descend(property, V', entered', visited, {schema}, s0, graph, R);
      ActualsCoveredGrows(graph, properties, i, before, V');
    }
  }

  /** Every schema of `Items`, when that list is not null. */
  method VisitItems(a: Schema, V: set<Schema>, ghost entered: seq<Schema>,
                    ghost visited: set<Schema>, ghost schema: Schema, ghost s0: map<Schema, EnumState>,
                    ghost graph: Graph, ghost R: set<Schema>)
    returns (V': set<Schema>, ghost entered': seq<Schema>)
    requires Shaped(graph) && Closed(graph) && R <= graph.Keys && Finished(graph, R, R)
    requires Progress(visited, {schema}, V, entered, s0, Snapshot(graph), graph, R)
    requires schema in R && a == ActualIn(graph, schema)
    modifies graph.Keys`enumeration, graph.Keys`enumerationNames
    decreases graph.Keys - (visited + {schema}), 2
    ensures Shaped(graph)
    ensures Progress(visited, {schema}, V', entered', s0, Snapshot(graph), graph, R)
    ensures V <= V' && (graph[a].items.Some? ==> forall c: Schema :: c in graph[a].items.value ==> c in V')
  {
    V', entered' := V, entered;
    assert Expanded(graph, a, R);
    if a.items.Some? {
      var items := a.items.value;
      for i := 0 to |items|
        invariant Shaped(graph)
        invariant Progress(visited, {schema}, V', entered', s0, Snapshot(graph), graph, R)
        invariant V <= V'
        invariant forall k :: 0 <= k < i && items[k] != null ==> items[k] in V'
      {
        ghost var before := V';
        V', entered' := Descend(items[i], V', entered', visited, {schema}, s0, graph, R);
        CoveredGrows(items, i, before, V');
      }
    }
  }

  /** One recursive call of the walk, with the bookkeeping that adds what it
    * entered to the progress of its caller. */
  method Descend(child: Schema?, V: set<Schema>, ghost entered: seq<Schema>,
                 ghost start: set<Schema>, ghost pending: set<Schema>, ghost s0: map<Schema, EnumState>,
                 ghost graph: Graph, ghost R: set<Schema>)
    returns (V': set<Schema>, ghost entered': seq<Schema>)
    requires Shaped(graph) && Closed(graph) && R <= graph.Keys && Finished(graph, R, R)
    requires Progress(start, pending, V, entered, s0, Snapshot(graph), graph, R)
    requires child != null ==> child in graph && child in R
    modifies graph.Keys`enumeration, graph.Keys`enumerationNames
    decreases graph.Keys - (start + pending), 1
    ensures Shaped(graph)
    ensures Progress(start, pending, V', entered', s0, Snapshot(graph), graph, R)
    ensures V <= V' && (child != null ==> child in V')
  {
    ghost var s1 := Snapshot(graph);
    ghost var log;
    V', log := Visit(child, V, graph, R);
    Advance(start, pending, V, entered, V', log, s0, s1, Snapshot(graph), graph, R);
    entered' := entered + log;
  }

  // ---------------------------------------------------------------------
  // The document

  /** A request body: the schema of each of its media types, when it has a
    * content map at all. */
  datatype RequestBody = RequestBody(content: Option<seq<Schema?>>)

  /** A response: the schema of each of its media types, when it has a
    * content map at all. */
  datatype Response = Response(content: Option<seq<Schema?>>)

  /** An operation after inheritance is applied (`ActualParameters`,
    * `ActualRequestBody`, `ActualResponses`). */
  datatype Operation = Operation(parameters: seq<Schema>, requestBody: Option<RequestBody>, responses: seq<Response>)

  /** A path item after inheritance is applied (`ActualOperations`). */
  datatype PathItem = PathItem(operations: seq<Operation>)

  /** The schemas of `Components.Schemas` and the path items of `Paths`. */
  datatype Document = Document(components: seq<Schema?>, paths: seq<PathItem>)

  ghost predicate ListWithin(list: seq<Schema?>, S: set<Schema>) {
    forall s: Schema :: s in list ==> s in S
  }

  ghost predicate ContentWithin(content: Option<seq<Schema?>>, S: set<Schema>) {
    content.Some? ==> ListWithin(content.value, S)
  }

  /** Every schema object the operation names is one of `S`. */
  ghost predicate OperationWithin(op: Operation, S: set<Schema>) {
    (forall p :: p in op.parameters ==> p in S) &&
    (op.requestBody.Some? ==> ContentWithin(op.requestBody.value.content, S)) &&
    (forall r :: r in op.responses ==> ContentWithin(r.content, S))
  }

  ghost predicate PathWithin(path: PathItem, S: set<Schema>) {
    forall op :: op in path.operations ==> OperationWithin(op, S)
  }

  /** Every schema object the document names is in the graph. */
  ghost predicate DocumentWithin(doc: Document, graph: Graph) {
    ListWithin(doc.components, graph.Keys) &&
    forall path :: path in doc.paths ==> PathWithin(path, graph.Keys)
  }

  /** Every schema the walk starts from in `op` is in `S`: the actual schema
    * of each parameter and the schema of each request and response media
    * type. */
  ghost predicate OperationCovered(graph: Graph, op: Operation, S: set<Schema>)
    requires OperationWithin(op, graph.Keys)
  {
    (forall p :: p in op.parameters ==> ActualIn(graph, p) in S) &&
    (op.requestBody.Some? ==> ContentWithin(op.requestBody.value.content, S)) &&
    (forall r :: r in op.responses ==> ContentWithin(r.content, S))
  }

  ghost predicate PathCovered(graph: Graph, path: PathItem, S: set<Schema>)
    requires PathWithin(path, graph.Keys)
  {
    forall op :: op in path.operations ==> OperationCovered(graph, op, S)
  }

  /** Every schema the walk starts from is in `S`. */
  ghost predicate Covered(graph: Graph, doc: Document, S: set<Schema>)
    requires DocumentWithin(doc, graph)
  {
    ListWithin(doc.components, S) &&
    forall path :: path in doc.paths ==> PathCovered(graph, path, S)
  }

  lemma OperationCoveredGrows(graph: Graph, op: Operation, V1: set<Schema>, V2: set<Schema>)
    requires OperationWithin(op, graph.Keys) && V1 <= V2
    requires OperationCovered(graph, op, V1)
    ensures OperationCovered(graph, op, V2)
  {
  }

  lemma PathCoveredGrows(graph: Graph, path: PathItem, V1: set<Schema>, V2: set<Schema>)
    requires PathWithin(path, graph.Keys) && V1 <= V2
    requires PathCovered(graph, path, V1)
    ensures PathCovered(graph, path, V2)
  {
    forall op | op in path.operations ensures OperationCovered(graph, op, V2) {
      OperationCoveredGrows(graph, op, V1, V2);
    }
  }

  lemma ContentsCoveredGrows(responses: seq<Response>, i: nat, V1: set<Schema>, V2: set<Schema>)
    requires i < |responses| && V1 <= V2
    requires forall m :: 0 <= m < i ==> ContentWithin(responses[m].content, V1)
    requires ContentWithin(responses[i].content, V2)
    ensures forall m :: 0 <= m < i + 1 ==> ContentWithin(responses[m].content, V2)
  {
  }

  /** The public `RemoveCaseInsensitiveEnumDuplicates(document)`. A null
    * document is left alone. Otherwise the walk starts from every component
    * schema, then, path by path and operation by operation, from the actual
    * schema of every parameter, the schema of every request body media type
    * and the schema of every response media type, all sharing one `visited`
    * set. `R` is any closed set holding every starting schema. */
  method RemoveCaseInsensitiveEnumDuplicates(document: Option<Document>, ghost graph: Graph, ghost R: set<Schema>)
    returns (visited: set<Schema>, ghost entered: seq<Schema>)
    requires Shaped(graph) && Closed(graph) && R <= graph.Keys && Finished(graph, R, R)
    requires document.Some? ==> DocumentWithin(document.value, graph) && Covered(graph, document.value, R)
    modifies graph.Keys`enumeration, graph.Keys`enumerationNames
    ensures Shaped(graph)
    ensures document.None? ==> visited == {} && Snapshot(graph) == old(Snapshot(graph))
    ensures document.Some? ==> Covered(graph, document.value, visited)
    ensures visited <= R
    ensures Distinct(entered) && (forall x :: x in entered ==> x in visited) && (forall x :: x in visited ==> x in entered)
    ensures Finished(graph, visited, visited)
    ensures Evolved(old(Snapshot(graph)), Snapshot(graph), visited, graph)
  {
    visited, entered := {}, [];
    ghost var s0 := Snapshot(graph);
    assert Actuals(graph, {}) == {};
    if document.None? {
      return;
    }
    var doc := document.value;
    visited, entered := VisitList(doc.components, visited, entered, s0, graph, R);
    ghost var afterComponents := visited;
    for i := 0 to |doc.paths|
      invariant Shaped(graph)
      invariant Progress({}, {}, visited, entered, s0, Snapshot(graph), graph, R)
      invariant afterComponents <= visited
      invariant forall m :: 0 <= m < i ==> PathCovered(graph, doc.paths[m], visited)
    {
      ghost var before := visited;
      visited, entered := VisitPath(doc.paths[i], visited, entered, s0, graph, R);
      forall m | 0 <= m < i ensures PathCovered(graph, doc.paths[m], visited) {
        PathCoveredGrows(graph, doc.paths[m], before, visited);
      }
    }
    assert visited - {} - {} == visited && visited - {} == visited;
  }

  /** The operations of one path item. */
  method VisitPath(path: PathItem, V: set<Schema>, ghost entered: seq<Schema>, ghost s0: map<Schema, EnumState>,
                   ghost graph: Graph, ghost R: set<Schema>)
    returns (V': set<Schema>, ghost entered': seq<Schema>)
    requires Shaped(graph) && Closed(graph) && R <= graph.Keys && Finished(graph, R, R)
    requires Progress({}, {}, V, entered, s0, Snapshot(graph), graph, R)
    requires PathWithin(path, graph.Keys) && PathCovered(graph, path, R)
    modifies graph.Keys`enumeration, graph.Keys`enumerationNames
    ensures Shaped(graph)
    ensures Progress({}, {}, V', entered', s0, Snapshot(graph), graph, R)
    ensures V <= V' && PathCovered(graph, path, V')
  {
    V', entered' := V, entered;
    var operations := path.operations;
    for j := 0 to |operations|
      invariant Shaped(graph)
      invariant Progress({}, {}, V', entered', s0, Snapshot(graph), graph, R)
      invariant V <= V'
      invariant forall m :: 0 <= m < j ==> OperationCovered(graph, operations[m], V')
    {
      ghost var before := V';
      V', entered' := VisitOperation(operations[j], V', entered', s0, graph, R);
      forall m | 0 <= m < j ensures OperationCovered(graph, operations[m], V') {
        OperationCoveredGrows(graph, operations[m], before, V');
      }
    }
  }

  /** The parameters, the request body contents and the response contents
    * of one operation. */
  method VisitOperation(operation: Operation, V: set<Schema>, ghost entered: seq<Schema>, ghost s0: map<Schema, EnumState>,
                        ghost graph: Graph, ghost R: set<Schema>)
    returns (V': set<Schema>, ghost entered': seq<Schema>)
    requires Shaped(graph) && Closed(graph) && R <= graph.Keys && Finished(graph, R, R)
    requires Progress({}, {}, V, entered, s0, Snapshot(graph), graph, R)
    requires OperationWithin(operation, graph.Keys) && OperationCovered(graph, operation, R)
    modifies graph.Keys`enumeration, graph.Keys`enumerationNames
    ensures Shaped(graph)
    ensures Progress({}, {}, V', entered', s0, Snapshot(graph), graph, R)
    ensures V <= V' && OperationCovered(graph, operation, V')
  {
    V', entered' := VisitParameters(operation.parameters, V, entered, s0, graph, R);
    ghost var afterParameters := V';
    var requestBody := operation.requestBody;
    if requestBody.Some? && requestBody.value.content.Some? {
      V', entered' := VisitList(requestBody.value.content.value, V', entered', s0, graph, R);
    }
    ghost var afterRequestBody := V';
    V', entered' := VisitResponses(operation.responses, V', entered', s0, graph, R);
    assert forall p :: p in operation.parameters ==> ActualIn(graph, p) in afterParameters;
  }

  /** The actual schema of every parameter. */
  method VisitParameters(parameters: seq<Schema>, V: set<Schema>, ghost entered: seq<Schema>, ghost s0: map<Schema, EnumState>,
                         ghost graph: Graph, ghost R: set<Schema>)
    returns (V': set<Schema>, ghost entered': seq<Schema>)
    requires Shaped(graph) && Closed(graph) && R <= graph.Keys && Finished(graph, R, R)
    requires Progress({}, {}, V, entered, s0, Snapshot(graph), graph, R)
    requires forall p :: p in parameters ==> p in graph.Keys && ActualIn(graph, p) in R
    modifies graph.Keys`enumeration, graph.Keys`enumerationNames
    ensures Shaped(graph)
    ensures Progress({}, {}, V', entered', s0, Snapshot(graph), graph, R)
    ensures V <= V' && forall p :: p in parameters ==> ActualIn(graph, p) in V'
  {
    V', entered' := V, entered;
    for k := 0 to |parameters|
      invariant Shaped(graph)
      invariant Progress({}, {}, V', entered', s0, Snapshot(graph), graph, R)
      invariant V <= V'
      invariant forall m :: 0 <= m < k ==> ActualIn(graph, parameters[m]) in V'
    {
      var schema := parameters[k].Actual();
      assert schema == ActualIn(graph, parameters[k]);
      ghost var before := V';
      V', entered' := Descend(schema, V', entered', {}, {}, s0, graph, R);
      ActualsCoveredGrows(graph, parameters, k, before, V');
    }
  }

  /** The media type schemas of every response. */
  method VisitResponses(responses: seq<Response>, V: set<Schema>, ghost entered: seq<Schema>, ghost s0: map<Schema, EnumState>,
                        ghost graph: Graph, ghost R: set<Schema>)
    returns (V': set<Schema>, ghost entered': seq<Schema>)
    requires Shaped(graph) && Closed(graph) && R <= graph.Keys && Finished(graph, R, R)
    requires Progress({}, {}, V, entered, s0, Snapshot(graph), graph, R)
    requires forall r :: r in responses ==> ContentWithin(r.content, graph.Keys) && ContentWithin(r.content, R)
    modifies graph.Keys`enumeration, graph.Keys`enumerationNames
    ensures Shaped(graph)
    ensures Progress({}, {}, V', entered', s0, Snapshot(graph), graph, R)
    ensures V <= V' && forall r :: r in responses ==> ContentWithin(r.content, V')
  {
    V', entered' := V, entered;
    for k := 0 to |responses|
      invariant Shaped(graph)
      invariant Progress({}, {}, V', entered', s0, Snapshot(graph), graph, R)
      invariant V <= V'
      invariant forall m :: 0 <= m < k ==> ContentWithin(responses[m].content, V')
    {
      ghost var before := V';
      var content := responses[k].content;
      assert ContentWithin(content, graph.Keys) && ContentWithin(content, R);
      if content.Some? {
        V', entered' := VisitList(content.value, V', entered', s0, graph, R);
      }
      ContentsCoveredGrows(responses, k, before, V');
    }
  }

  /** Every schema of a list, in order (component schemas, media type
    * schemas). */
  method VisitList(list: seq<Schema?>, V: set<Schema>, ghost entered: seq<Schema>, ghost s0: map<Schema, EnumState>,
                   ghost graph: Graph, ghost R: set<Schema>)
    returns (V': set<Schema>, ghost entered': seq<Schema>)
    requires Shaped(graph) && Closed(graph) && R <= graph.Keys && Finished(graph, R, R)
    requires Progress({}, {}, V, entered, s0, Snapshot(graph), graph, R)
    requires ListWithin(list, graph.Keys) && ListWithin(list, R)
    modifies graph.Keys`enumeration, graph.Keys`enumerationNames
    ensures Shaped(graph)
    ensures Progress({}, {}, V', entered', s0, Snapshot(graph), graph, R)
    ensures V <= V' && ListWithin(list, V')
  {
    V', entered' := V, entered;
    for i := 0 to |list|
      invariant Shaped(graph)
      invariant Progress({}, {}, V', entered', s0, Snapshot(graph), graph, R)
      invariant V <= V'
      invariant forall k :: 0 <= k < i && list[k] != null ==> list[k] in V'
    {
      ghost var before := V';
      V', entered' := Descend(list[i], V', entered', {}, {}, s0, graph, R);
      CoveredGrows(list, i, before, V');
    }
  }

  /** A later stretch of the walk that only enters schemas an earlier one
    * entered changes no list, because deduplication is idempotent. */
  lemma EvolvedAgainChangesNothing(s0: map<Schema, EnumState>, s1: map<Schema, EnumState>, s2: map<Schema, EnumState>,
                                   V1: set<Schema>, V2: set<Schema>, graph: Graph)
    requires V2 <= V1 <= graph.Keys
    requires Evolved(s0, s1, V1, graph) && Evolved(s1, s2, V2, graph)
    ensures forall x :: x in graph ==> s2[x] == s1[x]
  {
    forall x | x in graph ensures s2[x] == s1[x] {
      if x in Actuals(graph, V2) {
        var y :| y in V2 && ActualIn(graph, y) == x;
        assert x in Actuals(graph, V1);
        DeduplicatedIdempotent(s0[x]);
      }
    }
  }

  /** Running the public method a second time on the same document changes
    * no list: the second run enters only schemas the first one entered. */
  method RemoveTwice(document: Option<Document>, ghost graph: Graph, ghost R: set<Schema>)
    returns (visited: set<Schema>, ghost once: map<Schema, EnumState>)
    requires Shaped(graph) && Closed(graph) && R <= graph.Keys && Finished(graph, R, R)
    requires document.Some? ==> DocumentWithin(document.value, graph) && Covered(graph, document.value, R)
    modifies graph.Keys`enumeration, graph.Keys`enumerationNames
    ensures visited <= R
    ensures Evolved(old(Snapshot(graph)), once, visited, graph)
    ensures Snapshot(graph) == once
  {
    ghost var s0 := Snapshot(graph);
    ghost var entered;
    visited, entered := RemoveCaseInsensitiveEnumDuplicates(document, graph, R);
    once := Snapshot(graph);
    var again;
    again, entered := RemoveCaseInsensitiveEnumDuplicates(document, graph, visited);
    EvolvedAgainChangesNothing(s0, once, Snapshot(graph), visited, again, graph);
  }

  /** Every schema the walk can reach from a starting schema has had its
    * actual schema deduplicated once the walk is over; so, when its lists
    * passed the guard, no two of its values are equal up to case. */
  lemma ReachedSchemasDeduplicated(graph: Graph, V: set<Schema>,
                                   before: map<Schema, EnumState>, after: map<Schema, EnumState>,
                                   path: seq<Schema>)
    requires Closed(graph) && V <= graph.Keys && Finished(graph, V, V)
    requires Evolved(before, after, V, graph)
    requires |path| > 0 && IsPath(graph, path) && path[0] in V
    ensures var a := ActualIn(graph, path[|path| - 1]);
            after[a] == Deduplicated(before[a]) &&
            (Eligible(before[a]) ==> AllStrings(after[a].values.value) && !HasDuplicate(Texts(after[a].values.value)))
  {
    var x := path[|path| - 1];
    PathStaysInside(graph, V, path);
    var a := ActualIn(graph, x);
    assert a in Actuals(graph, V);
    if Eligible(before[a]) {
      DeduplicatedNoDuplicates(before[a]);
    }
  }
}
