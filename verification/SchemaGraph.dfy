/**
 * JSON schema objects that refer to each other, and what a document's request bodies reach in them: plain paths
 * from a declared schema along properties, array items and references.
 */
module SchemaGraph {
  import opened Wrappers
  import opened Texts

  /** A property value of a JSON schema object. */
  datatype Value =
    | Bool(b: bool)
    | Str(text: Text)
    | Other
    | Object(node: Schema)
    | Array(items: seq<Value>)

  type Fields = map<Text, Value>

  /** A schema object, identified by reference. */
  class Schema {
    var fields: Fields

    constructor (fields: Fields)
      ensures this.fields == fields
    {
      this.fields := fields;
    }
  }

  type Components = map<Text, Schema>

  datatype Verb = Get | Post | Put | Patch | Delete | Options | Head | Trace

  /** Per media type of a request body, the schema it declares, if any. */
  type Content = map<Text, Option<Schema>>

  datatype Document = Document(paths: map<Text, map<Verb, Content>>, components: Components)

  /** What each object's fields were at one moment. */
  type Graph = map<Schema, Fields>

  /** One step from an object: to a property's value, to an item of a property's array, or to a named component. */
  datatype Hop = ToProperty(name: Text) | ToItem(name: Text, index: nat) | ToComponent(name: Text)

  /** The text after the last slash of a reference, or all of a reference without one. */
  ghost predicate Names(ref: Text, name: Text) {
    && SLASH !in name && |name| <= |ref| && ref[|ref| - |name|..] == name
    && (|name| < |ref| ==> ref[|ref| - |name| - 1] == SLASH)
  }

  ghost function Inside(value: Value): Option<Schema> {
    if value.Object? then Some(value.node) else None
  }

  /** The object one step from an object with these fields leads to, if it leads to one. */
  ghost function Target(fields: Fields, components: Components, hop: Hop): Option<Schema> {
    match hop
    case ToProperty(name) => if name in fields then Inside(fields[name]) else None
    case ToItem(name, i) =>
      if name in fields && fields[name].Array? && i < |fields[name].items| then Inside(fields[name].items[i]) else None
    case ToComponent(name) =>
      if && Ascii("$ref") in fields && fields[Ascii("$ref")].Str?
         && name in components && Names(fields[Ascii("$ref")].text, name)
      then Some(components[name]) else None
  }

  /** Where a path of steps from an object ends. */
  ghost function End(graph: Graph, components: Components, from: Schema, hops: seq<Hop>): Option<Schema> {
    if hops == [] then Some(from)
    else
      var middle := End(graph, components, from, hops[..|hops| - 1]);
      if middle.Some? && middle.value in graph then Target(graph[middle.value], components, hops[|hops| - 1]) else None
  }

  /** The schema that a media type of some operation's request body declares. */
  ghost function Start(document: Document, path: Text, verb: Verb, media: Text): Option<Schema> {
    if path in document.paths && verb in document.paths[path] && media in document.paths[path][verb]
    then document.paths[path][verb][media] else None
  }

  /** Some path from a declared schema ends at the object. */
  ghost predicate Reached(document: Document, graph: Graph, to: Schema) {
    exists path, verb, media, hops ::
      Start(document, path, verb, media).Some?
      && End(graph, document.components, Start(document, path, verb, media).value, hops) == Some(to)
  }

  /** The graph holds every schema that is declared and every one that a step leads to. */
  ghost predicate Covers(graph: Graph, document: Document) {
    && (forall path, verb, media :: Start(document, path, verb, media).Some? ==> Start(document, path, verb, media).value in graph)
    && (forall from, hop :: from in graph && Target(graph[from], document.components, hop).Some? ==>
          Target(graph[from], document.components, hop).value in graph)
  }

  /**
   * What becomes of an object's fields: a reached object has no `additionalProperties` that is false; every other
   * property, and every other value of that one, is kept; nothing comes new; an object not reached is kept whole.
   */
  ghost predicate Accepting(before: Fields, after: Fields, reached: bool) {
    var additional := Ascii("additionalProperties");
    && (reached ==> !(additional in after && after[additional] == Bool(false)))
    && (forall name :: name in before && !(reached && name == additional && before[name] == Bool(false)) ==>
          name in after && after[name] == before[name])
    && (forall name :: name in after ==> name in before)
    && (!reached ==> after == before)
  }
}
