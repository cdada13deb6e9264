/**
 * The document model the preview works on: the ordered node list of an XML parser that
 * preserves order, whose elements carry their attributes as an insertion-ordered object.
 * Parsing, building and JavaScript's `Number()` coercion are supplied as an `XmlLibrary`.
 */
module XmlTree {
  import opened Wrappers

  /** An attribute value: text as parsed, or a number the preview puts in. */
  datatype Value = Text(text: string) | Number(number: real)

  /** Attribute names, in their order in the object. */
  function Names(a: seq<(string, Value)>): (r: seq<string>)
    ensures |r| == |a| && forall i :: 0 <= i < |a| ==> r[i] == a[i].0
  {
    if a == [] then [] else [a[0].0] + Names(a[1..])
  }

  predicate DistinctNames(a: seq<(string, Value)>) {
    forall i, j :: 0 <= i < j < |a| ==> a[i].0 != a[j].0
  }

  /** A JavaScript object of attributes: each name once, in insertion order. */
  type Attributes = a: seq<(string, Value)> | DistinctNames(a) witness []

  /** `obj[name]` */
  function Get(a: Attributes, name: string): (r: Option<Value>)
    ensures r.Some? <==> name in Names(a)
    ensures forall i :: 0 <= i < |a| && a[i].0 == name ==> r == Some(a[i].1)
  {
    if a == [] then None
    else if a[0].0 == name then Some(a[0].1)
    else
      var rest: Attributes := a[1..];
      assert forall i :: 0 < i < |a| ==> a[i] == rest[i - 1];
      Get(rest, name)
  }

  /** The position of `name`, which must be present. */
  function IndexOf(a: Attributes, name: string): (i: nat)
    requires name in Names(a)
    ensures i < |a| && a[i].0 == name
  {
    if a[0].0 == name then 0
    else
      var rest: Attributes := a[1..];
      assert Names(a) == [a[0].0] + Names(rest);
      1 + IndexOf(rest, name)
  }

  /**
   * `obj[name] = value`: an existing property keeps its place and takes the new value;
   * a new one is added last.
   */
  function Put(a: Attributes, name: string, value: Value): (r: Attributes)
    ensures Get(r, name) == Some(value)
    ensures forall other :: other != name ==> Get(r, other) == Get(a, other)
    ensures name in Names(a) ==> Names(r) == Names(a)
    ensures name !in Names(a) ==> Names(r) == Names(a) + [name]
  {
    if name in Names(a) then
      var r := a[IndexOf(a, name) := (name, value)];
      assert Names(r) == Names(a);
      r
    else
      var r := a + [(name, value)];
      assert Names(r) == Names(a) + [name];
      r
  }

  /** `{ ...a, ...b }`: the properties of `b` assigned, in order, onto a copy of `a`. */
  function Spread(a: Attributes, b: Attributes): Attributes
    decreases |b|
  {
    if b == [] then a
    else
      var rest: Attributes := b[1..];
      Spread(Put(a, b[0].0, b[0].1), rest)
  }

  /** A property of the later object wins; the earlier object supplies the rest. */
  lemma {:induction false} SpreadGet(a: Attributes, b: Attributes, name: string)
    ensures Get(Spread(a, b), name) == if Get(b, name).Some? then Get(b, name) else Get(a, name)
    decreases |b|
  {
    if b != [] {
      var rest: Attributes := b[1..];
      SpreadGet(Put(a, b[0].0, b[0].1), rest, name);
      assert Names(b) == [b[0].0] + Names(rest);
      if b[0].0 == name {
        assert name !in Names(rest);
      }
    }
  }

  /** The earlier object's properties stay first and in their order. */
  lemma {:induction false} SpreadKeepsOrder(a: Attributes, b: Attributes)
    ensures |Names(a)| <= |Names(Spread(a, b))| && Names(Spread(a, b))[..|a|] == Names(a)
    decreases |b|
  {
    if b != [] {
      var rest: Attributes := b[1..];
      var c := Put(a, b[0].0, b[0].1);
      SpreadKeepsOrder(c, rest);
      assert Names(c)[..|a|] == Names(a);
    }
  }

  /** The names of a spread are those of either object. */
  lemma {:induction false} SpreadNames(a: Attributes, b: Attributes)
    ensures forall n :: n in Names(Spread(a, b)) <==> n in Names(a) || n in Names(b)
    decreases |b|
  {
    if b != [] {
      var rest: Attributes := b[1..];
      var c := Put(a, b[0].0, b[0].1);
      SpreadNames(c, rest);
      assert Names(b) == [b[0].0] + Names(rest);
    }
  }

  /** One node of the parser's ordered output. */
  datatype Node =
    | Element(tag: string, attributes: Option<Attributes>, children: seq<Node>)
    | TextNode(text: string)

  /**
   * The XML library and the coercion the preview relies on: `parse` is `None` where the parser
   * throws, `toNumber` is `None` where `Number()` gives `NaN`.
   */
  datatype XmlLibrary = XmlLibrary(
    parse: string -> Option<seq<Node>>,
    build: seq<Node> -> string,
    toNumber: string -> Option<real>)

  /** `Number(v)` for an attribute that may be missing (`Number(undefined)` is `NaN`). */
  function ToNumber(lib: XmlLibrary, v: Option<Value>): Option<real> {
    match v
    case None => None
    case Some(Number(n)) => Some(n)
    case Some(Text(s)) => lib.toNumber(s)
  }
}
