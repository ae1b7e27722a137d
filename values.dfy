/**
  The objects the generator works on: what ruamel.yaml hands back for a
  `values.yaml` document (ordered mappings carrying comment and line
  metadata, sequences and scalars), and the plain Python values the
  generator builds from them before serialising a default.
 */
module Values {
  import opened Wrappers
  import opened Utils

  /** A ruamel.yaml `CommentToken`: the line its text starts on (`start_mark.line`) and its text (`value`). */
  datatype Token = Token(line: nat, text: string)

  /** Once flattened, a comment list holds only `None` and tokens. */
  predicate TokensOnly(cs: seq<Item<Token>>) {
    forall x :: x in Flatten(cs) ==> x.PyNone? || x.Atom?
  }

  /**
    The comments ruamel.yaml keeps for one key (`ca.items[key]`): a list of
    `None`, tokens and lists of tokens, nested as the document's layout
    dictates, never holding a string.
   */
  type CommentItems = cs: seq<Item<Token>> | TokensOnly(cs) witness []

  /**
    A parsed node. `Mapping` is a `CommentedMap` (keys in document order),
    `Sequence` a `CommentedSeq`; the others are the scalars.
   */
  datatype Node =
    | Mapping(entries: seq<Entry>)
    | Sequence(items: seq<Node>)
    | Null
    | Bool(b: bool)
    | Int(i: int)
    | Str(s: string)

  /**
    One key of a mapping with its value and the mapping's metadata for that
    key: `line` is `lc.data[key][0]`, and `comments` is `ca.items[key]`, or
    `None` when the key has no entry in `ca.items`.
   */
  datatype Entry = Entry(key: string, value: Node, line: nat, comments: Option<CommentItems>)

  /** A mapping that is not empty: the one kind of value the generator descends into. */
  predicate IsBranch(n: Node) {
    n.Mapping? && n.entries != []
  }

  /**
    A default value as it is serialised: a parsed node left as it is, a plain
    `dict` made from a mapping (`dict(item)`), or a plain `list` built by the
    generator's list comprehension.
   */
  datatype Default =
    | AsIs(node: Node)
    | Dict(pairs: seq<(string, Node)>)
    | List(elems: seq<Default>)

  /** The key/value pairs of a mapping, which is what `dict(m)` keeps of it. */
  function Pairs(es: seq<Entry>): seq<(string, Node)> {
    seq(|es|, k requires 0 <= k < |es| => (es[k].key, es[k].value))
  }
}
