/** The tree a feed parses into (fast-xml-parser with attributes kept, attribute
    names prefixed `@_`, element text under `#text`), and the pieces of JavaScript
    semantics that scripts/generate-news-sitemap.js applies to it. */
module FeedTree {
  import opened Wrappers
  import opened Text

  /** A parsed value. JavaScript's `undefined` is `None` of `Option<Node>`: the parser
      never stores `undefined` or `null` inside the tree. A `Num` stands for an
      integer-valued number below 10^21 in magnitude. */
  datatype Node =
    | Str(s: string)
    | Num(n: int)
    | Arr(items: seq<Node>)
    | Obj(fields: map<string, Node>)

  /** JavaScript truthiness: `undefined`, `""` and `0` are falsy; arrays and objects,
      empty or not, are truthy. */
  predicate Truthy(x: Option<Node>) {
    match x
    case None => false
    case Some(Str(s)) => s != ""
    case Some(Num(n)) => n != 0
    case Some(Arr(_)) => true
    case Some(Obj(_)) => true
  }

  /** Property access `x?.[key]` (and `x.key` on a value that is not `undefined`). */
  function Get(x: Option<Node>, key: string): Option<Node> {
    if x.Some? && x.value.Obj? && key in x.value.fields then Some(x.value.fields[key]) else None
  }

  /** `a || b`: the left operand when it is truthy, otherwise the right one. */
  function Or(a: Option<Node>, b: Option<Node>): Option<Node> {
    if Truthy(a) then a else b
  }

  /** `a ?? b`: the left operand unless it is `undefined`. */
  function Coalesce(a: Option<Node>, b: Option<Node>): Option<Node> {
    if a.Some? then a else b
  }

  function JoinWith(parts: seq<string>, sep: string): string
    decreases |parts|
  {
    if parts == [] then ""
    else if |parts| == 1 then parts[0]
    else parts[0] + sep + JoinWith(parts[1..], sep)
  }

  /** `String(n)`: an array joins its elements with commas, an object prints as
      `[object Object]`. */
  function ToString(n: Node): string
    decreases n
  {
    match n
    case Str(s) => s
    case Num(v) => IntToString(v)
    case Arr(xs) => JoinWith(seq(|xs|, k requires 0 <= k < |xs| => ToString(xs[k])), ",")
    case Obj(_) => "[object Object]"
  }

  /** `toArray`: normalises "absent, one, or many" into a list. */
  function ToArray(x: Option<Node>): seq<Node> {
    if !Truthy(x) then []
    else if x.value.Arr? then x.value.items
    else [x.value]
  }

  /** The three cases of `toArray`. */
  lemma ToArrayCases(x: Option<Node>)
    ensures !Truthy(x) ==> ToArray(x) == []
    ensures Truthy(x) && x.value.Arr? ==> ToArray(x) == x.value.items
    ensures Truthy(x) && !x.value.Arr? ==> ToArray(x) == [x.value]
  {
  }

  /** A lone element and a one-element list of it are treated alike, and normalising
      an already normalised list changes nothing. */
  lemma ToArrayNormalises(x: Option<Node>, n: Node)
    ensures Truthy(Some(n)) && !n.Arr? ==> ToArray(Some(n)) == ToArray(Some(Arr([n])))
    ensures ToArray(Some(Arr(ToArray(x)))) == ToArray(x)
  {
  }
}
