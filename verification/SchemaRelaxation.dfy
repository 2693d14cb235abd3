/**
 * Dropping `additionalProperties: false` from every schema object a request body reaches: a depth-first
 * traversal that edits a possibly cyclic object graph in place.
 */
module SchemaRelaxation {
  import opened Wrappers
  import opened Texts
  import opened SchemaGraph

  const VERBS: seq<Verb> := [Get, Post, Put, Patch, Delete, Options, Head, Trace]

  const ADDITIONAL: Text := Ascii("additionalProperties")
  const REF: Text := Ascii("$ref")

  /** The name after the last slash of a reference; the whole reference without one. */
  function RefName(ref: Text): (name: Text)
    ensures SLASH !in name && |name| <= |ref| && name == ref[|ref| - |name|..]
    ensures |name| < |ref| ==> ref[|ref| - |name| - 1] == SLASH
  {
    if ref == [] || ref[|ref| - 1] == SLASH then []
    else RefName(ref[..|ref| - 1]) + [ref[|ref| - 1]]
  }

  // ----- The graph -----

  function ItemNodes(items: seq<Value>): set<Schema> {
    if items == [] then {}
    else
      var last := items[|items| - 1];
      ItemNodes(items[..|items| - 1]) + if last.Object? then {last.node} else {}
  }

  lemma {:induction false} ItemIn(items: seq<Value>, i: nat)
    requires i < |items| && items[i].Object?
    ensures items[i].node in ItemNodes(items)
  {
    if i < |items| - 1 {
      ItemIn(items[..|items| - 1], i);
    }
  }

  /** The schema objects directly inside a value: the object itself, or the objects among an array's items. */
  function ValueNodes(value: Value): set<Schema> {
    match value
    case Object(node) => {node}
    case Array(items) => ItemNodes(items)
    case _ => {}
  }

  function RefNodes(fields: Fields, components: Components): set<Schema> {
    if REF in fields && fields[REF].Str? && RefName(fields[REF].text) in components
    then {components[RefName(fields[REF].text)]}
    else {}
  }

  /** A property whose value holds the object. */
  predicate Holds(fields: Fields, name: Text, to: Schema) {
    name in fields && to in ValueNodes(fields[name])
  }

  ghost function PropertyNodes(fields: Fields): set<Schema> {
    set name, to | name in fields && to in ValueNodes(fields[name]) && Holds(fields, name, to) :: to
  }

  /** The objects one step away. */
  ghost function Links(fields: Fields, components: Components): set<Schema> {
    RefNodes(fields, components) + PropertyNodes(fields)
  }

  lemma ValueLinks(fields: Fields, name: Text, components: Components)
    requires name in fields
    ensures ValueNodes(fields[name]) <= Links(fields, components)
  {
    forall to | to in ValueNodes(fields[name]) {
      PropertyNode(fields, name, to);
    }
  }

  /** The objects in the named properties all lie in `nodes`. */
  ghost predicate AllWithin(fields: Fields, names: set<Text>, nodes: set<Schema>) {
    forall name :: name in names ==> name in fields && ValueNodes(fields[name]) <= nodes
  }

  lemma LinksWithin(fields: Fields, components: Components, nodes: set<Schema>)
    requires RefNodes(fields, components) <= nodes && AllWithin(fields, fields.Keys, nodes)
    ensures Links(fields, components) <= nodes
  {
    forall to | to in PropertyNodes(fields)
      ensures to in nodes
    {
      var name :| name in fields && Holds(fields, name, to);
    }
  }

  predicate Strict(fields: Fields) {
    ADDITIONAL in fields && fields[ADDITIONAL] == Bool(false)
  }

  /** The fields without a false `additionalProperties`; an explicit schema or `true` there stays. */
  function Relaxed(fields: Fields): Fields {
    if Strict(fields) then fields - {ADDITIONAL} else fields
  }

  lemma PropertyNode(fields: Fields, name: Text, to: Schema)
    requires Holds(fields, name, to)
    ensures to in PropertyNodes(fields)
  {
  }

  lemma HoldsWithout(fields: Fields, name: Text, other: Text, to: Schema)
    requires name in fields && ValueNodes(fields[name]) == {}
    ensures Holds(fields - {name}, other, to) <==> Holds(fields, other, to)
  {
    var fewer := fields - {name};
    if other in fewer {
      assert fewer[other] == fields[other];
    } else if other in fields {
      assert other == name;
    }
  }

  lemma FewerProperties(fields: Fields, name: Text)
    requires name in fields && ValueNodes(fields[name]) == {}
    ensures PropertyNodes(fields - {name}) == PropertyNodes(fields)
  {
    var fewer := fields - {name};
    forall to | to in PropertyNodes(fields)
      ensures to in PropertyNodes(fewer)
    {
      var other :| other in fields && Holds(fields, other, to);
      HoldsWithout(fields, name, other, to);
      PropertyNode(fewer, other, to);
    }
    forall to | to in PropertyNodes(fewer)
      ensures to in PropertyNodes(fields)
    {
      var other :| other in fewer && Holds(fewer, other, to);
      HoldsWithout(fields, name, other, to);
      PropertyNode(fields, other, to);
    }
  }

  /** A property that leads nowhere may go without any link going. */
  lemma DropLinks(fields: Fields, name: Text, components: Components)
    requires name in fields && name != REF && ValueNodes(fields[name]) == {}
    ensures Links(fields - {name}, components) == Links(fields, components)
  {
    FewerProperties(fields, name);
    assert RefNodes(fields - {name}, components) == RefNodes(fields, components);
  }

  lemma AdditionalIsNoRef()
    ensures ADDITIONAL != REF
  {
    assert ADDITIONAL[0] != REF[0];
  }

  /** Relaxing an object removes none of its links. */
  lemma RelaxedLinks(fields: Fields, components: Components)
    ensures Links(Relaxed(fields), components) == Links(fields, components)
  {
    if Strict(fields) {
      AdditionalIsNoRef();
      DropLinks(fields, ADDITIONAL, components);
    }
  }

  ghost predicate ClosedIn(nodes: set<Schema>, graph: Graph, components: Components) {
    nodes <= graph.Keys && forall n :: n in nodes ==> Links(graph[n], components) <= nodes
  }

  ghost function Neighbours(nodes: set<Schema>, graph: Graph, components: Components): set<Schema>
    requires nodes <= graph.Keys
  {
    set n, to | n in nodes && to in Links(graph[n], components) :: to
  }

  /** Everything reachable from `start`, breadth first: widen by whole levels until nothing is new. */
  ghost function Reach(start: set<Schema>, graph: Graph, components: Components): set<Schema>
    requires start <= graph.Keys && ClosedIn(graph.Keys, graph, components)
    decreases graph.Keys - start
  {
    var wider := start + Neighbours(start, graph, components);
    if wider == start then start else Reach(wider, graph, components)
  }

  /** `Reach` is the least set that holds the start and is closed under links. */
  lemma {:induction false} ReachLeast(start: set<Schema>, graph: Graph, components: Components, other: set<Schema>)
    requires start <= graph.Keys && ClosedIn(graph.Keys, graph, components)
    ensures var reach := Reach(start, graph, components);
            && start <= reach && ClosedIn(reach, graph, components)
            && (start <= other && ClosedIn(other, graph, components) ==> reach <= other)
    decreases graph.Keys - start
  {
    var neighbours := Neighbours(start, graph, components);
    var wider := start + neighbours;
    if wider == start {
      forall n | n in start
        ensures Links(graph[n], components) <= start
      {
        forall to | to in Links(graph[n], components)
          ensures to in start
        {
          assert to in neighbours;
        }
      }
    } else {
      ReachLeast(wider, graph, components, other);
    }
  }

  // ----- The traversal -----

  /** The closure state of one traversal: the objects visited so far. */
  class Relaxer {
    var visited: set<Schema>
    const components: Components

    constructor (components: Components)
      ensures visited == {} && this.components == components
    {
      visited := {};
      this.components := components;
    }

    /** Exactly the visited objects are relaxed. */
    ghost predicate Partway(graph: Graph)
      reads this, graph.Keys
    {
      && visited <= graph.Keys
      && forall n :: n in graph.Keys ==> n.fields == if n in visited then Relaxed(graph[n]) else graph[n]
    }

    /** Everything visited since `before`, except `open`, has all its links visited. */
    ghost predicate Settled(graph: Graph, before: set<Schema>, open: set<Schema>)
      reads this
      requires visited <= graph.Keys
    {
      forall n :: n in visited - before - open ==> Links(graph[n], components) <= visited
    }

    /**
     * Visit one object and all it leads to. `bound` is any closed set holding the object; the traversal
     * never leaves it.
     */
    method Visit(schema: Schema, ghost graph: Graph, ghost bound: set<Schema>)
      requires Partway(graph) && ClosedIn(graph.Keys, graph, components)
      requires ClosedIn(bound, graph, components) && schema in bound
      modifies this`visited, graph.Keys
      ensures Partway(graph) && old(visited) + {schema} <= visited <= old(visited) + bound
      ensures Settled(graph, old(visited), {})
      ensures forall n :: n in graph.Keys ==> Accepting(graph[n], n.fields, n in visited)
      decreases graph.Keys - visited, 0
    {
      if schema in visited {
        PartwayAccepts(graph);
        return;
      }
      ghost var before := visited;
      Enter(schema, graph);
      RelaxedLinks(graph[schema], components);
      var fields := schema.fields;
      if REF in fields && fields[REF].Str? && RefName(fields[REF].text) in components {
        assert components[RefName(fields[REF].text)] in Links(fields, components);
        Visit(components[RefName(fields[REF].text)], graph, bound);
      }
      VisitValues(schema, fields, graph, bound, before);
      PartwayAccepts(graph);
    }

    lemma PartwayAccepts(graph: Graph)
      requires Partway(graph)
      ensures forall n :: n in graph.Keys ==> Accepting(graph[n], n.fields, n in visited)
    {
      forall n | n in graph.Keys
        ensures Accepting(graph[n], n.fields, n in visited)
      {
        RelaxedAccepts(graph[n]);
      }
    }

    /** Mark an object visited and drop a false `additionalProperties` from it. */
    method Enter(schema: Schema, ghost graph: Graph)
      requires Partway(graph) && schema in graph.Keys && schema !in visited
      modifies this`visited, graph.Keys
      ensures Partway(graph) && visited == old(visited) + {schema}
      ensures schema.fields == Relaxed(graph[schema])
    {
      visited := visited + {schema};
      if ADDITIONAL in schema.fields && schema.fields[ADDITIONAL] == Bool(false) {
        schema.fields := schema.fields - {ADDITIONAL};
      }
    }

    /** The loop over an object's values, in any order. */
    method VisitValues(schema: Schema, fields: Fields, ghost graph: Graph, ghost bound: set<Schema>, ghost before: set<Schema>)
      requires Partway(graph) && ClosedIn(graph.Keys, graph, components) && ClosedIn(bound, graph, components)
      requires schema in bound && schema !in before && before + {schema} <= visited <= before + bound
      requires Settled(graph, before, {schema})
      requires Links(fields, components) == Links(graph[schema], components)
      requires RefNodes(fields, components) <= visited
      modifies this`visited, graph.Keys
      ensures Partway(graph) && old(visited) <= visited <= before + bound
      ensures Settled(graph, before, {})
      decreases graph.Keys - before - {schema}, 3
    {
      var rest := fields.Keys;
      while rest != {}
        invariant rest <= fields.Keys
        invariant Partway(graph) && old(visited) <= visited <= before + bound
        invariant Settled(graph, before, {schema})
        invariant AllWithin(fields, fields.Keys - rest, visited)
        decreases rest
      {
        var k :| k in rest;
        ValueLinks(fields, k, components);
        VisitValue(schema, fields[k], graph, bound, before);
        assert fields.Keys - (rest - {k}) == fields.Keys - rest + {k};
        rest := rest - {k};
      }
      assert fields.Keys - rest == fields.Keys;
      LinksWithin(fields, components, visited);
    }

    method VisitValue(schema: Schema, value: Value, ghost graph: Graph, ghost bound: set<Schema>, ghost before: set<Schema>)
      requires Partway(graph) && ClosedIn(graph.Keys, graph, components) && ClosedIn(bound, graph, components)
      requires schema in bound && schema !in before && before + {schema} <= visited <= before + bound
      requires Settled(graph, before, {schema})
      requires ValueNodes(value) <= bound
      modifies this`visited, graph.Keys
      ensures Partway(graph) && old(visited) + ValueNodes(value) <= visited <= before + bound
      ensures Settled(graph, before, {schema})
      decreases graph.Keys - before - {schema}, 2
    {
      match value
      case Array(items) => VisitItems(schema, items, graph, bound, before);
      case Object(node) =>
        assert graph.Keys - visited <= graph.Keys - before - {schema};
        Visit(node, graph, bound);
      case _ =>
    }

    /** The loop over an array's items. */
    method VisitItems(schema: Schema, items: seq<Value>, ghost graph: Graph, ghost bound: set<Schema>, ghost before: set<Schema>)
      requires Partway(graph) && ClosedIn(graph.Keys, graph, components) && ClosedIn(bound, graph, components)
      requires schema in bound && schema !in before && before + {schema} <= visited <= before + bound
      requires Settled(graph, before, {schema})
      requires ItemNodes(items) <= bound
      modifies this`visited, graph.Keys
      ensures Partway(graph) && old(visited) + ItemNodes(items) <= visited <= before + bound
      ensures Settled(graph, before, {schema})
      decreases graph.Keys - before - {schema}, 1
    {
      for i := 0 to |items|
        invariant Partway(graph) && old(visited) <= visited <= before + bound
        invariant Settled(graph, before, {schema})
        invariant ItemNodes(items[..i]) <= visited
      {
        assert items[..i + 1][..i] == items[..i];
        if items[i].Object? {
          ItemIn(items, i);
          assert graph.Keys - visited <= graph.Keys - before - {schema};
          Visit(items[i].node, graph, bound);
        }
      }
      assert items[..|items|] == items;
    }
  }

  // ----- The document -----

  /** The schemas the media types of one request body declare. */
  function DeclaredIn(content: Content): set<Schema> {
    set m | m in content && content[m].Some? :: content[m].value
  }

  /** The schemas declared for the verbs in `verbs`. */
  function DeclaredFor(item: map<Verb, Content>, verbs: seq<Verb>): set<Schema> {
    if verbs == [] then {}
    else
      var last := verbs[|verbs| - 1];
      DeclaredFor(item, verbs[..|verbs| - 1]) + if last in item then DeclaredIn(item[last]) else {}
  }

  lemma {:induction false} DeclaredForIn(item: map<Verb, Content>, verbs: seq<Verb>, i: nat)
    requires i < |verbs| && verbs[i] in item
    ensures DeclaredIn(item[verbs[i]]) <= DeclaredFor(item, verbs)
  {
    if i < |verbs| - 1 {
      DeclaredForIn(item, verbs[..|verbs| - 1], i);
    }
  }

  /** The schemas that request bodies declare. */
  function Roots(document: Document): set<Schema> {
    set p, node | p in document.paths && node in DeclaredFor(document.paths[p], VERBS) :: node
  }

  /** Between visits: the visited objects are relaxed, closed under links and within bounds. */
  ghost predicate Between(relaxer: Relaxer, graph: Graph, components: Components, bound: set<Schema>)
    reads relaxer, graph.Keys
  {
    && relaxer.components == components && relaxer.Partway(graph) && relaxer.visited <= bound
    && relaxer.Settled(graph, {}, {})
  }

  method VisitContent(relaxer: Relaxer, content: Content, ghost graph: Graph, ghost bound: set<Schema>)
    requires ClosedIn(graph.Keys, graph, relaxer.components) && ClosedIn(bound, graph, relaxer.components)
    requires Between(relaxer, graph, relaxer.components, bound) && DeclaredIn(content) <= bound
    modifies relaxer`visited, graph.Keys
    ensures Between(relaxer, graph, relaxer.components, bound)
    ensures old(relaxer.visited) + DeclaredIn(content) <= relaxer.visited
  {
    var rest := content.Keys;
    while rest != {}
      invariant rest <= content.Keys
      invariant Between(relaxer, graph, relaxer.components, bound)
      invariant old(relaxer.visited) <= relaxer.visited
      invariant forall m :: m in content.Keys - rest && content[m].Some? ==> content[m].value in relaxer.visited
      decreases rest
    {
      var m :| m in rest;
      rest := rest - {m};
      if content[m].Some? {
        assert content[m].value in DeclaredIn(content);
        relaxer.Visit(content[m].value, graph, bound);
      }
    }
  }

  method VisitItem(relaxer: Relaxer, item: map<Verb, Content>, verbs: seq<Verb>, ghost graph: Graph, ghost bound: set<Schema>)
    requires ClosedIn(graph.Keys, graph, relaxer.components) && ClosedIn(bound, graph, relaxer.components)
    requires Between(relaxer, graph, relaxer.components, bound) && DeclaredFor(item, verbs) <= bound
    modifies relaxer`visited, graph.Keys
    ensures Between(relaxer, graph, relaxer.components, bound)
    ensures old(relaxer.visited) + DeclaredFor(item, verbs) <= relaxer.visited
  {
    for i := 0 to |verbs|
      invariant Between(relaxer, graph, relaxer.components, bound)
      invariant old(relaxer.visited) <= relaxer.visited
      invariant DeclaredFor(item, verbs[..i]) <= relaxer.visited
    {
      assert verbs[..i + 1][..i] == verbs[..i];
      if verbs[i] in item {
        DeclaredForIn(item, verbs, i);
        VisitContent(relaxer, item[verbs[i]], graph, bound);
      }
    }
    assert verbs[..|verbs|] == verbs;
  }

  method VisitPaths(relaxer: Relaxer, document: Document, ghost graph: Graph, ghost bound: set<Schema>)
    requires ClosedIn(graph.Keys, graph, relaxer.components) && ClosedIn(bound, graph, relaxer.components)
    requires Between(relaxer, graph, relaxer.components, bound) && Roots(document) <= bound
    modifies relaxer`visited, graph.Keys
    ensures Between(relaxer, graph, relaxer.components, bound)
    ensures Roots(document) <= relaxer.visited
  {
    var rest := document.paths.Keys;
    while rest != {}
      invariant rest <= document.paths.Keys
      invariant Between(relaxer, graph, relaxer.components, bound)
      invariant forall p :: p in document.paths.Keys - rest ==>
                  DeclaredFor(document.paths[p], VERBS) <= relaxer.visited
      decreases rest
    {
      var p :| p in rest;
      rest := rest - {p};
      assert DeclaredFor(document.paths[p], VERBS) <= Roots(document);
      VisitItem(relaxer, document.paths[p], VERBS, graph, bound);
    }
  }

  // ----- In plain terms -----

  lemma {:induction false} ItemMeaning(items: seq<Value>, to: Schema)
    ensures to in ItemNodes(items) <==> exists i :: 0 <= i < |items| && items[i] == Object(to)
  {
    if items != [] {
      var init := items[..|items| - 1];
      ItemMeaning(init, to);
      if i :| 0 <= i < |init| && init[i] == Object(to) {
        assert items[i] == Object(to);
      }
      if i :| 0 <= i < |items| && items[i] == Object(to) {
        assert i < |init| ==> init[i] == Object(to);
      }
      if items[|items| - 1].Object? && items[|items| - 1].node == to {
        assert items[|items| - 1] == Object(to);
      }
    }
  }

  lemma SlashInside(ref: Text, short: Text, long: Text)
    requires |short| < |long| <= |ref| && ref[|ref| - |long|..] == long && ref[|ref| - |short| - 1] == SLASH
    ensures SLASH in long
  {
    assert long[|long| - |short| - 1] == ref[|ref| - |short| - 1];
  }

  lemma NamesRefName(ref: Text, name: Text)
    ensures Names(ref, name) <==> name == RefName(ref)
  {
    var last := RefName(ref);
    if Names(ref, name) && |name| < |last| {
      SlashInside(ref, name, last);
    } else if Names(ref, name) && |last| < |name| {
      SlashInside(ref, last, name);
    }
  }

  lemma ComponentTarget(fields: Fields, components: Components, name: Text)
    ensures Target(fields, components, ToComponent(name)) ==
            if REF in fields && fields[REF].Str? && name in components && name == RefName(fields[REF].text)
            then Some(components[name]) else None
  {
    if REF in fields && fields[REF].Str? {
      NamesRefName(fields[REF].text, name);
    }
  }

  lemma LinkTarget(fields: Fields, components: Components, to: Schema) returns (hop: Hop)
    requires to in Links(fields, components)
    ensures Target(fields, components, hop) == Some(to)
  {
    if to in RefNodes(fields, components) {
      hop := ToComponent(RefName(fields[REF].text));
      ComponentTarget(fields, components, hop.name);
    } else {
      var name :| name in fields && to in ValueNodes(fields[name]) && Holds(fields, name, to);
      hop := ValueTarget(fields, components, name, to);
    }
  }

  lemma ValueTarget(fields: Fields, components: Components, name: Text, to: Schema) returns (hop: Hop)
    requires name in fields && to in ValueNodes(fields[name])
    ensures Target(fields, components, hop) == Some(to)
  {
    if fields[name].Object? {
      hop := ToProperty(name);
    } else {
      ItemMeaning(fields[name].items, to);
      var i :| 0 <= i < |fields[name].items| && fields[name].items[i] == Object(to);
      hop := ToItem(name, i);
    }
  }

  lemma TargetLink(fields: Fields, components: Components, hop: Hop)
    requires Target(fields, components, hop).Some?
    ensures Target(fields, components, hop).value in Links(fields, components)
  {
    if hop.ToComponent? {
      ComponentTarget(fields, components, hop.name);
    } else {
      ValueLinks(fields, hop.name, components);
      if hop.ToItem? {
        ItemMeaning(fields[hop.name].items, Target(fields, components, hop).value);
      }
    }
  }

  /** The links of an object are what one step leads to. */
  lemma LinkMeaning(fields: Fields, components: Components, to: Schema)
    ensures to in Links(fields, components) <==> exists hop :: Target(fields, components, hop) == Some(to)
  {
    if to in Links(fields, components) {
      var hop := LinkTarget(fields, components, to);
    }
    if hop :| Target(fields, components, hop) == Some(to) {
      TargetLink(fields, components, hop);
    }
  }

  lemma {:induction false} DeclaredForMeaning(item: map<Verb, Content>, verbs: seq<Verb>, schema: Schema)
    ensures schema in DeclaredFor(item, verbs) <==>
            exists verb :: verb in verbs && verb in item && schema in DeclaredIn(item[verb])
  {
    if verbs != [] {
      var init, last := verbs[..|verbs| - 1], verbs[|verbs| - 1];
      DeclaredForMeaning(item, init, schema);
      assert forall verb :: verb in verbs <==> verb in init || verb == last by {
        assert verbs == init + [last];
      }
    }
  }

  lemma AllVerbs(verb: Verb)
    ensures verb in VERBS
  {
    assert VERBS[0] == Get && VERBS[1] == Post && VERBS[2] == Put && VERBS[3] == Patch;
    assert VERBS[4] == Delete && VERBS[5] == Options && VERBS[6] == Head && VERBS[7] == Trace;
  }

  lemma RootStart(document: Document, schema: Schema) returns (path: Text, verb: Verb, media: Text)
    requires schema in Roots(document)
    ensures Start(document, path, verb, media) == Some(schema)
  {
    path :| path in document.paths && schema in DeclaredFor(document.paths[path], VERBS);
    DeclaredForMeaning(document.paths[path], VERBS, schema);
    verb :| verb in VERBS && verb in document.paths[path] && schema in DeclaredIn(document.paths[path][verb]);
    media :| media in document.paths[path][verb] && document.paths[path][verb][media] == Some(schema);
  }

  lemma StartRoot(document: Document, path: Text, verb: Verb, media: Text)
    requires Start(document, path, verb, media).Some?
    ensures Start(document, path, verb, media).value in Roots(document)
  {
    AllVerbs(verb);
    assert Start(document, path, verb, media).value in DeclaredIn(document.paths[path][verb]);
    DeclaredForMeaning(document.paths[path], VERBS, Start(document, path, verb, media).value);
  }

  /** The roots are the schemas that some request body declares, whatever its verb. */
  lemma RootMeaning(document: Document, schema: Schema)
    ensures schema in Roots(document) <==> exists path, verb, media :: Start(document, path, verb, media) == Some(schema)
  {
    if schema in Roots(document) {
      var path, verb, media := RootStart(document, schema);
    }
    if path, verb, media :| Start(document, path, verb, media) == Some(schema) {
      StartRoot(document, path, verb, media);
    }
  }

  lemma Covered(graph: Graph, document: Document)
    requires Covers(graph, document)
    ensures Roots(document) <= graph.Keys && ClosedIn(graph.Keys, graph, document.components)
  {
    forall schema | schema in Roots(document)
      ensures schema in graph
    {
      var path, verb, media := RootStart(document, schema);
    }
    forall from, to | from in graph && to in Links(graph[from], document.components)
      ensures to in graph
    {
      var hop := LinkTarget(graph[from], document.components, to);
    }
  }

  lemma EndOn(graph: Graph, components: Components, from: Schema, hops: seq<Hop>, hop: Hop)
    requires End(graph, components, from, hops).Some? && End(graph, components, from, hops).value in graph
    ensures End(graph, components, from, hops + [hop]) == Target(graph[End(graph, components, from, hops).value], components, hop)
  {
    assert (hops + [hop])[..|hops|] == hops;
  }

  lemma ReachedOn(document: Document, graph: Graph, from: Schema, to: Schema)
    requires from in graph && Reached(document, graph, from) && to in Links(graph[from], document.components)
    ensures Reached(document, graph, to)
  {
    var path, verb, media, hops :| Start(document, path, verb, media).Some?
      && End(graph, document.components, Start(document, path, verb, media).value, hops) == Some(from);
    var hop := LinkTarget(graph[from], document.components, to);
    EndOn(graph, document.components, Start(document, path, verb, media).value, hops, hop);
  }

  lemma RootReached(document: Document, graph: Graph, schema: Schema)
    requires schema in Roots(document)
    ensures Reached(document, graph, schema)
  {
    var path, verb, media := RootStart(document, schema);
    assert End(graph, document.components, schema, []) == Some(schema);
  }

  /** What paths reach is closed under links, so `Reach` is within it. */
  lemma ReachHasPaths(document: Document, graph: Graph)
    requires Roots(document) <= graph.Keys && ClosedIn(graph.Keys, graph, document.components)
    ensures forall to :: to in Reach(Roots(document), graph, document.components) ==> Reached(document, graph, to)
  {
    var reached := set to | to in graph && Reached(document, graph, to);
    forall schema | schema in Roots(document)
      ensures schema in reached
    {
      RootReached(document, graph, schema);
    }
    forall from, to | from in reached && to in Links(graph[from], document.components)
      ensures to in reached
    {
      ReachedOn(document, graph, from, to);
    }
    ReachLeast(Roots(document), graph, document.components, reached);
  }

  /** Every path from within a closed set stays there. */
  lemma {:induction false} PathsStay(graph: Graph, components: Components, closed: set<Schema>, from: Schema, hops: seq<Hop>)
    requires ClosedIn(closed, graph, components) && from in closed && End(graph, components, from, hops).Some?
    ensures End(graph, components, from, hops).value in closed
    decreases |hops|
  {
    if hops != [] {
      var init := hops[..|hops| - 1];
      PathsStay(graph, components, closed, from, init);
      TargetLink(graph[End(graph, components, from, init).value], components, hops[|hops| - 1]);
    }
  }

  /** The breadth-first set is exactly what paths from declared schemas reach. */
  lemma {:induction false} ReachMeaning(document: Document, graph: Graph, to: Schema)
    requires Covers(graph, document)
    ensures Roots(document) <= graph.Keys && ClosedIn(graph.Keys, graph, document.components)
    ensures to in Reach(Roots(document), graph, document.components) <==> Reached(document, graph, to)
  {
    Covered(graph, document);
    ReachHasPaths(document, graph);
    if Reached(document, graph, to) {
      var path, verb, media, hops :| Start(document, path, verb, media).Some?
        && End(graph, document.components, Start(document, path, verb, media).value, hops) == Some(to);
      ReachLeast(Roots(document), graph, document.components, {});
      StartRoot(document, path, verb, media);
      PathsStay(graph, document.components, Reach(Roots(document), graph, document.components),
                Start(document, path, verb, media).value, hops);
    }
  }

  lemma RelaxedAccepts(before: Fields)
    ensures Accepting(before, Relaxed(before), true) && Accepting(before, before, false)
  {
  }

  /**
   * After the traversal exactly the objects that paths from request bodies reach have lost a false
   * `additionalProperties`, and everything else is as it was, in whatever order things were visited.
   * `graph` records the fields of every schema object beforehand.
   */
  method AcceptAdditionalRequestProperties(document: Document, ghost graph: Graph)
    requires forall n :: n in graph ==> n.fields == graph[n]
    requires Covers(graph, document)
    modifies graph.Keys
    ensures forall n :: n in graph ==> Accepting(graph[n], n.fields, Reached(document, graph, n))
  {
    Covered(graph, document);
    ghost var bound := Reach(Roots(document), graph, document.components);
    ReachLeast(Roots(document), graph, document.components, {});
    var relaxer := new Relaxer(document.components);
    VisitPaths(relaxer, document, graph, bound);
    ReachLeast(Roots(document), graph, document.components, relaxer.visited);
    forall n | n in graph
      ensures Accepting(graph[n], n.fields, Reached(document, graph, n))
    {
      ReachMeaning(document, graph, n);
      RelaxedAccepts(graph[n]);
    }
  }

  /** Relaxing is idempotent: a second traversal of the relaxed graph reaches the same objects and changes nothing. */
  lemma {:induction false} RelaxTwice(start: set<Schema>, graph: Graph, relaxed: Graph, components: Components)
    requires start <= graph.Keys && ClosedIn(graph.Keys, graph, components)
    requires relaxed.Keys == graph.Keys
    requires forall n :: n in graph ==>
               relaxed[n] == if n in Reach(start, graph, components) then Relaxed(graph[n]) else graph[n]
    ensures ClosedIn(relaxed.Keys, relaxed, components)
    ensures Reach(start, relaxed, components) == Reach(start, graph, components)
    ensures forall n :: n in relaxed && n in Reach(start, relaxed, components) ==> Relaxed(relaxed[n]) == relaxed[n]
  {
    forall n | n in graph
      ensures Links(relaxed[n], components) == Links(graph[n], components)
    {
      RelaxedLinks(graph[n], components);
    }
    SameLinksReach(start, graph, relaxed, components);
  }

  /** Graphs with the same links have the same reachable objects. */
  lemma {:induction false} SameLinksReach(start: set<Schema>, graph: Graph, other: Graph, components: Components)
    requires start <= graph.Keys && ClosedIn(graph.Keys, graph, components) && other.Keys == graph.Keys
    requires forall n :: n in graph ==> Links(other[n], components) == Links(graph[n], components)
    ensures ClosedIn(other.Keys, other, components)
    ensures Reach(start, other, components) == Reach(start, graph, components)
  {
    ReachLeast(start, graph, components, {});
    ReachLeast(start, other, components, Reach(start, graph, components));
    ReachLeast(start, graph, components, Reach(start, other, components));
  }
}
