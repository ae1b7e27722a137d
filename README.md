# frigate: a Dafny model of the values-documentation core

frigate generates documentation for a Helm chart. Its core reads the
chart's `values.yaml`, as parsed by ruamel.yaml, and walks the tree of
configuration. For each parameter it produces a triple
`[parameter name, description, JSON default]`, for example
`["image.repository", "Image to deploy", "\"nginx\""]`. The model covers
that walk and the helpers it relies on:

- `traverse` (frigate/gen.py).
  - It descends depth first into every non-empty mapping.
  - It joins the keys on the way down with `.`.
  - It rebuilds list and mapping defaults as plain Python objects and
    serialises them with `json.dumps`.
  - It asks `get_comment` for a description when the key has comments.
- `get_comment` (frigate/gen.py).
  - It flattens the comment list ruamel.yaml keeps for a key.
  - It picks the first comment token that starts on the key's own line.
  - It keeps the first line of that comment, stripped of whitespace, and
    cleans it.
- `clean_comment` (frigate/gen.py): strips `#` and spaces from both ends
  and capitalises the result.
- `flatten` (frigate/utils.py): yields the atoms of arbitrarily nested
  iterables in order. Strings and bytes are kept whole.

## Modules

| file | module | models |
|---|---|---|
| `wrappers.dfy` | `Wrappers` | an `Option` type |
| `utils.dfy` | `Utils` | `flatten`, over a datatype of Python objects (`None`, `str`, `bytes`, non-string iterables, other atoms) |
| `pystr.dfy` | `PyStr` | the `str` builtins the core uses: `strip(chars)`, `strip()`, `split("\n")[0]`, `capitalize()` and `sep.join` |
| `values.dfy` | `Values` | what ruamel.yaml hands back (ordered mappings with per-key line and comment metadata, sequences, scalars) and the plain defaults the generator builds from them |
| `json.dfy` | `Json` | `json.dumps` with its default separators and `ensure_ascii` escaping, and decoders for integers and strings used as the partners of the encoders |
| `gen.dfy` | `Gen` | `clean_comment`, `get_comment` and `traverse` |
| `gen_cases.dfy` | `GenCases` | the docstring examples and the unit-test inputs, worked out by the model |

Each generator is modelled as the sequence of everything it yields.

The two loops of frigate/gen.py are methods:
- `Gen.GetComment` is the `for` loop over the flattened comments.
- `Gen.Traverse` is the `for` loop over the keys, with its recursive call.

Each method is proved equal to a specification function:
- `Gen.CommentOf` for `GetComment`;
- `Gen.Traversal` for `Traverse`.

The lemmas are stated about those functions.

### Code and tests disagree on capitalisation

`clean_comment` ends with `.capitalize()` (frigate/gen.py:87). Both
docstrings show capitalised output (frigate/gen.py:51 and 77-78). The model
follows the code.

The unit tests expect the comment text unchanged:
- frigate/tests/test_frigate.py:65-97 expects `"this is the comment"`.
- frigate/tests/test_frigate.py:111 expects ``"Use a `LoadBalancer`."``.
- frigate/tests/test_frigate.py:117-120 expects `"hello world"`.

The model shows where they part:
- `GenCases.CleanCommentTestInputs`: every `clean_comment` test input
  cleans to `"Hello world"`, not `"hello world"`.
- `GenCases.CleanCommentLowersIdentifiers`: `capitalize` lower-cases every
  upper-case letter after the first. So a comment such as
  ``Use a `LoadBalancer`.`` comes back as ``Use a `loadbalancer`.``.

### The line a comment must start on

`get_comment` compares a token's start line with `lc.data[key][0]`. In
ruamel.yaml that is the line of the key, which is also the line of an
inline value. The model stores it on each entry as `Entry.line`.

## Model

| member | source | states |
|---|---|---|
| Utils.Flatten | frigate/utils.py:7-32 | the output contains no element that `flatten` would descend into (no non-string iterable) |
| Utils.FlattenConcat | frigate/utils.py:26-32 | flattening a concatenation gives the concatenation of the flattenings: input order is kept |
| Utils.FlattenOfFlat | frigate/utils.py:26-32 | a list with nothing to descend into comes back unchanged |
| Utils.FlattenIdempotent | frigate/utils.py:26-32 | flattening twice, or flattening the flat result wrapped in a list, gives the same sequence |
| Utils.AtomPassesThrough | frigate/utils.py:27-32 | `None`, strings, bytes and other atoms are yielded as they are, in their place |
| Utils.EmptyContributesNothing | frigate/utils.py:26-30 | an empty nested list yields nothing |
| Utils.FlattenLength | frigate/utils.py:26-32 | the output has exactly one element per atom, counted independently at any depth |
| Utils.FlattenMembership | frigate/utils.py:26-32 | a value is in the output exactly when it occurs as an atom somewhere in the nested input |
| Utils.DocstringExample | frigate/utils.py:16-17 | the docstring example flattens to `a` … `h` |
| PyStr.Strip | frigate/gen.py:87 | the result is a slice of the input outside which every character is stripped, and it neither starts nor ends with a stripped character |
| PyStr.StripParts | frigate/gen.py:87 | stripping marks + middle + marks gives the middle whenever the middle's ends are not marks |
| PyStr.FirstLine | frigate/gen.py:64 | `split("\n")[0]` is the longest prefix without a line break, and is followed by a line break when shorter than the input |
| PyStr.Capitalize | frigate/gen.py:87 | same length, first character upper-cased, every other character lower-cased |
| PyStr.CapitalizeNormalForm | frigate/gen.py:87 | after `capitalize` the first character is not lower case, no later one is upper case, and capitalising again changes nothing |
| PyStr.Join | frigate/gen.py:135 | `sep.join(parts)`: the parts with one separator between each two, so a non-empty join is the parts' total length plus one per separator. JoinEnds, JoinAppend and JoinInjective state the rest |
| PyStr.JoinEnds | frigate/gen.py:135 | a join starts with the first part and ends with the last |
| PyStr.JoinAppend | frigate/gen.py:135 | joining two non-empty lists puts exactly one separator between their joins |
| PyStr.JoinInjective | frigate/gen.py:135 | non-empty lists of parts free of the separator with equal joins are equal |
| Json.DumpsNode | frigate/gen.py:136 | the serialisation of any parsed value is printable ASCII (`ensure_ascii`) |
| Json.Dumps | frigate/gen.py:125-136 | `json.dumps` of the rebuilt default (a node as parsed, a plain dict or a plain list), with ", " and ": " separators; the text is printable ASCII. DefaultEncodesLikeNode ties it to DumpsNode |
| Json.Escape | frigate/gen.py:136 | the body of a JSON string as `ensure_ascii` writes it: each character in turn, as itself, a short escape, a `\uXXXX` escape or a surrogate pair of them; the text is printable ASCII. EscapePlain and EscapeRoundTrip state what it writes |
| Json.Decimal | frigate/gen.py:136 | an integer in decimal, with a leading `-` when negative; the text is printable ASCII. DecimalRoundTrip reads it back |
| Json.DecimalRoundTrip | frigate/gen.py:136 | an integer default is written in decimal and can be read back exactly |
| Json.Hex4RoundTrip | frigate/gen.py:136 | a `\uXXXX` escape holds four hex digits that read back as the code unit |
| Json.EscapeRoundTrip | frigate/gen.py:136 | a quoted string, with its short escapes, `\uXXXX` escapes and surrogate pairs, decodes back to the original string |
| Json.EscapePlain | frigate/gen.py:136 | printable ASCII other than `"` and `\` is written as it is |
| Gen.CleanComment | frigate/gen.py:69-87 | `comment.strip("# ").capitalize()`. Its own contract: never longer than the input, and a non-empty result neither starts nor ends with `#` or a space. CleanCommentTrims, CleanCommentCase and CleanCommentIdempotent state the rest |
| Gen.CleanCommentTrims | frigate/gen.py:69-87 | the cleaned comment is a capitalised slice of the input, only `#` and spaces lie outside it, and it neither starts nor ends with one |
| Gen.CleanCommentCase | frigate/gen.py:87 | the first character is upper-cased when it is a lower-case letter; every later letter comes out lower case, so a comment starting with a digit or punctuation has no upper-case letter |
| Gen.CleanCommentIdempotent | frigate/gen.py:69-87 | cleaning a cleaned comment changes nothing |
| Gen.CleanCommentParts | frigate/gen.py:87 | marks + text + marks cleans to the capitalised text |
| Gen.FirstOnLine | frigate/gen.py:62-63 | the index found is the first whose element is a token starting on the key's line, and none is found only when no element is |
| Gen.TokenComment | frigate/gen.py:64-65 | the cleaned first line of a token's whitespace-stripped text, which never contains a line break |
| Gen.CommentOf | frigate/gen.py:60-66 | what `get_comment` returns: the TokenComment of the first flattened token on the key's line, else "". It never contains a line break; CommentSelection and CommentIgnoresOtherLines state which token is chosen |
| Gen.GetComment | frigate/gen.py:35-66 | the loop returns what `CommentOf` specifies: the cleaned first line of the first token on the key's line, else "" |
| Gen.CommentSelection | frigate/gen.py:60-66 | "" when no token starts on the key's line; otherwise the cleaned first line of the earliest such token |
| Gen.CommentSingleLine | frigate/gen.py:64 | a description never contains a line break |
| Gen.CommentIgnoresOtherLines | frigate/gen.py:62-63 | adding `None` or a token on another line at any top-level position of the comment list does not change the description |
| Gen.ToDefault | frigate/gen.py:125-131 | lists are rebuilt element by element with no parser mapping left at the top level or among the elements, and other scalars are kept |
| Gen.DefaultEncodesLikeNode | frigate/gen.py:125-136 | converting mappings to plain dicts does not change the JSON text of the default |
| Gen.Describe | frigate/gen.py:132-134 | a leaf's description: CommentOf when `ca.items` has an entry for the key, else "". It is always a single line |
| Gen.LeafTriple | frigate/gen.py:132-136 | the triple for a leaf: joined path, Describe, and `json.dumps` of ToDefault. Its description is a single line and its default printable ASCII |
| Gen.EmitLeaf | frigate/gen.py:124-136 | the triple for a leaf: joined path, the key's comment when `ca.items` has one (else ""), and the serialised default |
| Gen.Traversal | frigate/gen.py:116-136 | everything `traverse` yields, in order. Its own contract: exactly one triple per leaf (LeafCount), at any depth. TraversalEmitsLeaves, TraversalConcat and the Leaves lemmas state which triple each is |
| Gen.Traverse | frigate/gen.py:90-136 | the loop yields exactly `Traversal(tree, root)` |
| Gen.TraversalConcat | frigate/gen.py:118 | keys are visited in order: the output for consecutive keys is the concatenation of their outputs |
| Gen.Leaves | frigate/gen.py:118-124 | each leaf path is non-empty, ends in the leaf's own key, starts with a key of the mapping, and the leaf is not a non-empty mapping |
| Gen.TraversalEmitsLeaves | frigate/gen.py:118-136 | the i-th triple is the i-th leaf's: path `.`-joined from root and keys, its own key's description, its serialised default |
| Gen.Find | frigate/gen.py:119 | `tree[key]` finds an entry with that key exactly when the key is in the mapping |
| Gen.LeavesSound | frigate/gen.py:118-124 | with unique keys, every leaf path looks up, key by key, to that leaf |
| Gen.LeavesComplete | frigate/gen.py:118-124 | every value reachable by a key path that is not a non-empty mapping is yielded under that path |
| Gen.LeavesDistinct | frigate/gen.py:118-124 | with unique keys, no two leaves share a key path |
| Gen.TraversalPathsDistinct | frigate/gen.py:121-135 | with unique, dot-free keys and a dot-free root, all yielded parameter names differ |
| Gen.TraversalPrefix | frigate/gen.py:121-135 | under a non-empty root, every parameter name starts with the joined root and a dot |
| Gen.TraversalDisplayable | frigate/gen.py:132-136 | every yielded description is a single line and every default printable ASCII |
| Gen.TraversalRootIndependent | frigate/gen.py:116-136 | the count, descriptions and defaults do not depend on the root |
| GenCases.CleanCommentDocstring | frigate/gen.py:77-78 | `clean_comment("# hello world")` is `"Hello world"`, as the docstring says |
| GenCases.CleanCommentTestInputs | frigate/gen.py:87 | any run of `#` and spaces around "hello world" cleans to "Hello world", never "hello world" |
| GenCases.CleanCommentLowersIdentifiers | frigate/gen.py:87 | an upper-case letter after the first character is lower-cased, so such a comment never comes back unchanged |
| GenCases.ReplicaCount | frigate/gen.py:132-136 | a top-level `replicaCount: 1` without comments yields `["replicaCount", "", "1"]` |
| GenCases.NestedMapping | frigate/gen.py:118-136 | `{a: {b: 1, c: 2}}` yields `a.b` then `a.c` with defaults `1` and `2` |
| GenCases.EmptyMapping | frigate/gen.py:120-131 | an empty mapping is a leaf whose default is `{}` |
| GenCases.StringDefault | frigate/gen.py:136 | a string default `world` is yielded with its JSON quotes, `"world"` |
| GenCases.DottedKeysCollide | frigate/gen.py:135 | a key `a.b` and a key `b` under `a` both yield the name `a.b`, so the dot-free premise of distinct names is needed |

## Left out

- `load_chart` (frigate/gen.py:14-32) and `gen` (frigate/gen.py:139-161)
  are not part of this model. They read files and render Jinja templates.
- Squashing duplicate values and merging chart dependencies are referenced
  by callers and tests (`squash_duplicate_values`, `deps`, `update`), but
  no source defines them, so there is nothing to model.
- `list_templates` (frigate/utils.py) is not part of this model. It lists
  a directory.
- The command line, the pre-commit hook and the Sphinx extension are not
  part of this model.
- ruamel.yaml itself is not modelled. The model takes its output as
  input: ordered mappings, each key's line (`lc.data[key][0]`) and its
  comment list (`ca.items[key]`).
- Gen.GetComment: a key with no entry in `ca.items` makes the source raise
  `KeyError`. The model requires the entry instead. Its only caller,
  `traverse`, checks for the entry first.
- Values.CommentItems: the comment lists hold `None`, tokens and nested
  lists only. A string there would make the source fail on
  `.start_mark`, and ruamel.yaml never puts one there.
- Values.Node: the only YAML scalars are null, booleans, integers and
  strings.
  - Floats are left out, as is their JSON form. The reason is floating
    point.
  - Timestamps and `!!binary` values are left out. They have no JSON form:
    `json.dumps` (frigate/gen.py:136) raises `TypeError` on them, so
    `traverse` stops partway. The model drops that error path.
  - Mapping keys are strings. On a leaf's path, a non-string key makes
    `".".join` (frigate/gen.py:135) raise `TypeError`. Inside a default,
    for example `a: [{1: x}]`, `json.dumps` writes the key as a string
    (`{"1": "x"}`). Neither case is modelled.
  - Strings are sequences of Dafny `char`, which cannot hold a lone
    surrogate. A YAML string `"\uD800"` gives Python such a string, which
    `json.dumps` writes as `\ud800`; the model cannot represent that input.
- Utils.Flatten: non-string iterables are lists of items. Iterating a
  dict yields its keys, and a generator can be consumed only once; neither
  is modelled, and the core never passes either to `flatten`.
- PyStr.Capitalize: the case mapping covers ASCII letters only. Python's
  Unicode case mapping (titlecase characters, characters whose upper case
  is longer) is not modelled.
- `test_traversal` (frigate/tests/test_frigate.py:123-137) checks the
  mapping returned by `load_chart`, not the output of `traverse`.
  - Its count at line 127 is the number of top-level keys of the simple
    chart's `values.yaml`, which is not part of this model.
  - Its membership tests at lines 128 and 133-137 look for a list among
    the keys of a mapping, which Python rejects as unhashable.
  - `GenCases.ReplicaCount` states what `traverse` yields for the triple
    the test intends.
- The traverse docstring example shows the default as `world`.
  `json.dumps` writes `"world"`, which `GenCases.StringDefault` states.
