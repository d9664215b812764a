/**
 * The AST normaliser: a parser's native syntax tree turned into the uniform
 * node shape that is posted (`type`, `value`, `startPosition`,
 * `endPosition`, `children`).
 */
module Ast {

  import opened Wrappers

  /** A zero-based (row, column) location in the source text. */
  datatype Point = Point(row: nat, column: nat)

  /**
   * A node of the parser's own tree. `Absent` is a node the Python code finds
   * false (`not sitter_node`); `text` is None when the node carries no text.
   */
  datatype NativeTree =
    | Absent
    | NativeNode(kind: string, isNamed: bool, text: Option<string>,
                 startPoint: Point, endPoint: Point, children: seq<NativeTree>)

  /** The uniform node; `Null` is the `None` the converter returns for an absent node. */
  datatype AstTree =
    | Null
    | AstNode(nodeType: string, value: string,
              startPosition: Point, endPosition: Point, children: seq<AstTree>)

  /** `convert_to_ast_node`: every child is converted and kept, in order. */
  function Convert(t: NativeTree): (r: AstTree)
    ensures r.Null? <==> t.Absent?
    ensures t.NativeNode? ==>
      && r.nodeType == t.kind
      && r.startPosition == t.startPoint
      && r.endPosition == t.endPoint
      && |r.children| == |t.children|
    // the text is kept only for a named node whose text is non-empty
    ensures t.NativeNode? ==>
      && (r.value != "" <==> t.isNamed && t.text.Some? && t.text.value != "")
      && (r.value != "" ==> r.value == t.text.value)
  {
    match t
    case Absent => Null
    case NativeNode(kind, named, text, s, e, cs) =>
      var value := if named && text.Some? && text.value != "" then text.value else "";
      AstNode(kind, value, s, e, seq(|cs|, i requires 0 <= i < |cs| => Convert(cs[i])))
  }

  /** One node of a pre-order listing: what the converter must carry over unchanged. */
  datatype Entry = Gap | Entry(kind: string, start: Point, end: Point, arity: nat)

  /** Pre-order listing of a native tree. */
  function NativeOutline(t: NativeTree): seq<Entry> {
    match t
    case Absent => [Gap]
    case NativeNode(kind, _, _, s, e, cs) => [Entry(kind, s, e, |cs|)] + NativeOutlineAll(cs)
  }

  function NativeOutlineAll(cs: seq<NativeTree>): seq<Entry> {
    if cs == [] then [] else NativeOutline(cs[0]) + NativeOutlineAll(cs[1..])
  }

  /** Pre-order listing of a converted tree. */
  function AstOutline(a: AstTree): seq<Entry> {
    match a
    case Null => [Gap]
    case AstNode(kind, _, s, e, cs) => [Entry(kind, s, e, |cs|)] + AstOutlineAll(cs)
  }

  function AstOutlineAll(cs: seq<AstTree>): seq<Entry> {
    if cs == [] then [] else AstOutline(cs[0]) + AstOutlineAll(cs[1..])
  }

  /**
   * Structure preservation: read in pre-order, the converted tree has the
   * same nodes as the native one, with the same types, positions and
   * numbers of children, and an absent node wherever the native tree has
   * one; nothing is skipped, added or reordered.
   */
  lemma {:induction false} ConvertKeepsOutline(t: NativeTree)
    ensures AstOutline(Convert(t)) == NativeOutline(t)
  {
    match t
    case Absent =>
    case NativeNode(kind, named, text, s, e, cs) =>
      ConvertAllKeepsOutline(cs);
  }

  lemma {:induction false} ConvertAllKeepsOutline(cs: seq<NativeTree>)
    ensures AstOutlineAll(seq(|cs|, i requires 0 <= i < |cs| => Convert(cs[i]))) == NativeOutlineAll(cs)
  {
    var converted := seq(|cs|, i requires 0 <= i < |cs| => Convert(cs[i]));
    if cs != [] {
      var rest := cs[1..];
      assert converted[1..] == seq(|rest|, i requires 0 <= i < |rest| => Convert(rest[i]));
      ConvertKeepsOutline(cs[0]);
      ConvertAllKeepsOutline(rest);
    }
  }

  /** The i-th converted child is the conversion of the i-th native child. */
  lemma ConvertChildAt(t: NativeTree, i: nat)
    requires t.NativeNode? && i < |t.children|
    ensures Convert(t).children[i] == Convert(t.children[i])
  {
  }
}
