/**
  Model of frigate/gen.py: cleaning a comment (`clean_comment`), picking the
  inline comment of a key (`get_comment`) and walking a values tree into
  `[path, description, default]` triples (`traverse`).
 */
module Gen {
  import opened Wrappers
  import opened Utils
  import opened PyStr
  import opened Values
  import opened Json

  // ---------------------------------------------------------------------
  // clean_comment
  // ---------------------------------------------------------------------

  /** The characters `clean_comment` strips from both ends: `strip("# ")`. */
  const CommentMarks: set<char> := {'#', ' '}

  /** `comment.strip("# ").capitalize()` */
  function CleanComment(comment: string): (r: string)
    ensures |r| <= |comment|
    ensures r != [] ==> r[0] !in CommentMarks && r[|r| - 1] !in CommentMarks
  {
    var s := Strip(comment, CommentMarks);
    CapitalizeKeeps(s, CommentMarks);
    Capitalize(s)
  }

  /**
    Cleaning removes every `#` and space at both ends and nothing else: the
    result is a slice of the comment, with case changed, outside which there
    are only marks, and it neither starts nor ends with a mark.
   */
  lemma CleanCommentTrims(comment: string)
    ensures var r := CleanComment(comment);
      && (r != [] ==> r[0] !in CommentMarks && r[|r| - 1] !in CommentMarks)
      && exists i :: CleanedAt(comment, i, r)
  {
    var s := Strip(comment, CommentMarks);
    var r := CleanComment(comment);
    assert r == Capitalize(s);
    var i :| StrippedAt(comment, CommentMarks, i, s);
    CapitalizeKeeps(s, CommentMarks);
    assert |r| == |s| && comment[i..i + |r|] == s;
    assert CleanedAt(comment, i, r);
  }

  /**
    `r` is, apart from case, the slice of `comment` that starts at `i`, and
    everything of `comment` outside that slice is a mark.
   */
  ghost predicate CleanedAt(comment: string, i: int, r: string) {
    && 0 <= i && i + |r| <= |comment|
    && r == Capitalize(comment[i..i + |r|])
    && (forall k :: 0 <= k < i ==> comment[k] in CommentMarks)
    && (forall k :: i + |r| <= k < |comment| ==> comment[k] in CommentMarks)
  }

  /**
    The first character is upper-cased when it is a lower-case letter; every
    later letter comes out lower case, so a comment starting with a digit or
    punctuation has no upper-case letter.
   */
  lemma CleanCommentCase(comment: string)
    ensures var r := CleanComment(comment);
      && (r != [] ==> !IsAsciiLower(r[0]))
      && (forall k :: 0 < k < |r| ==> !IsAsciiUpper(r[k]))
  {
    CapitalizeNormalForm(Strip(comment, CommentMarks));
  }

  /** Cleaning a cleaned comment changes nothing. */
  lemma CleanCommentIdempotent(comment: string)
    ensures CleanComment(CleanComment(comment)) == CleanComment(comment)
  {
    var s := Strip(comment, CommentMarks);
    var r := Capitalize(s);
    CapitalizeKeeps(s, CommentMarks);
    StripUnchanged(r, CommentMarks);
    CapitalizeNormalForm(s);
  }

  /** A comment made of marks, a middle that starts and ends with no mark, and marks, cleans to the capitalised middle. */
  lemma CleanCommentParts(comment: string, pre: string, mid: string, suf: string)
    requires comment == pre + mid + suf
    requires forall c :: c in pre ==> c in CommentMarks
    requires forall c :: c in suf ==> c in CommentMarks
    requires mid != [] ==> mid[0] !in CommentMarks && mid[|mid| - 1] !in CommentMarks
    ensures CleanComment(comment) == Capitalize(mid)
  {
    StripParts(pre, mid, suf, CommentMarks);
  }

  // ---------------------------------------------------------------------
  // get_comment
  // ---------------------------------------------------------------------

  /** `comment is not None and comment.start_mark.line == line` */
  predicate OnLine(x: Item<Token>, line: nat) {
    x.Atom? && x.value.line == line
  }

  /** The position of the first token that starts on `line`, if there is one. */
  function FirstOnLine(xs: seq<Item<Token>>, line: nat): (r: Option<nat>)
    ensures r.Some? ==> r.value < |xs| && OnLine(xs[r.value], line)
    ensures r.Some? ==> forall j :: 0 <= j < r.value ==> !OnLine(xs[j], line)
    ensures r.None? ==> forall j :: 0 <= j < |xs| ==> !OnLine(xs[j], line)
  {
    if xs == [] then None
    else if OnLine(xs[0], line) then Some(0)
    else match FirstOnLine(xs[1..], line)
      case None => None
      case Some(i) => Some(i + 1)
  }

  /** `FirstOnLine` finds exactly the first token on the line. */
  lemma {:induction false} FirstOnLineAt(xs: seq<Item<Token>>, line: nat, i: nat)
    requires i < |xs| && OnLine(xs[i], line)
    requires forall j :: 0 <= j < i ==> !OnLine(xs[j], line)
    ensures FirstOnLine(xs, line) == Some(i)
  {
    if i > 0 {
      FirstOnLineAt(xs[1..], line, i - 1);
    }
  }

  /**
    The description a token yields: the first line of its stripped text,
    cleaned.
   */
  function TokenComment(t: Token): (r: string)
    ensures '\n' !in r
  {
    var line := FirstLine(Strip(t.text, Whitespace));
    CleanCommentNoLineBreak(line);
    CleanComment(line)
  }

  /**
    What `get_comment(tree, key)` returns for the key of `e`: the cleaned
    first line of the first token, in flattened order, that starts on the
    key's line, or "" when there is none. A key absent from `ca.items`
    makes the source raise `KeyError`; callers check for it first.
   */
  function CommentOf(e: Entry): (r: string)
    requires e.comments.Some?
    ensures '\n' !in r
  {
    var flat := Flatten(e.comments.value);
    match FirstOnLine(flat, e.line)
    case None => ""
    case Some(i) => TokenComment(flat[i].value)
  }

  /** `get_comment`: scans the flattened comments and returns at the first token on the key's line. */
  method GetComment(e: Entry) returns (r: string)
    requires e.comments.Some?
    ensures r == CommentOf(e)
  {
    var comments := e.comments.value;
    var line := e.line;
    var flat := Flatten(comments);
    for i := 0 to |flat|
      invariant forall j :: 0 <= j < i ==> !OnLine(flat[j], line)
    {
      var comment := flat[i];
      if !comment.PyNone? {
        assert comment in Flatten(comments);
        if comment.value.line == line {
          FirstOnLineAt(flat, line, i);
          var firstLine := FirstLine(Strip(comment.value.text, Whitespace));
          return CleanComment(firstLine);
        }
      }
    }
    return "";
  }

  /**
    The comment of a key is the cleaned first line of the first token on its
    line, and it is "" when no token lies on that line, so comments on other
    lines are never attributed to the key.
   */
  lemma CommentSelection(e: Entry)
    requires e.comments.Some?
    ensures var flat := Flatten(e.comments.value);
      && ((forall x :: x in flat ==> !OnLine(x, e.line)) ==> CommentOf(e) == "")
      && (forall i :: 0 <= i < |flat| && OnLine(flat[i], e.line)
            && (forall j :: 0 <= j < i ==> !OnLine(flat[j], e.line))
            ==> CommentOf(e) == TokenComment(flat[i].value))
  {
    var flat := Flatten(e.comments.value);
    forall i | 0 <= i < |flat| && OnLine(flat[i], e.line) && (forall j :: 0 <= j < i ==> !OnLine(flat[j], e.line))
      ensures CommentOf(e) == TokenComment(flat[i].value)
    {
      FirstOnLineAt(flat, e.line, i);
    }
  }

  /** Cleaning cannot introduce a line break. */
  lemma CleanCommentNoLineBreak(comment: string)
    requires '\n' !in comment
    ensures '\n' !in CleanComment(comment)
  {
    var s := Strip(comment, CommentMarks);
    var k :| StrippedAt(comment, CommentMarks, k, s);
    forall m | 0 <= m < |s| ensures s[m] != '\n' {
      assert s[m] == comment[k + m];
    }
    CapitalizeKeeps(s, CommentMarks);
    var r := CleanComment(comment);
    assert r == Capitalize(s);
    assert forall m :: 0 <= m < |r| ==> r[m] != '\n';
  }

  /** A description never spans more than one line. */
  lemma CommentSingleLine(e: Entry)
    requires e.comments.Some?
    ensures '\n' !in CommentOf(e)
  {
    var flat := Flatten(e.comments.value);
    match FirstOnLine(flat, e.line)
    case None =>
    case Some(i) =>
      CleanCommentNoLineBreak(FirstLine(Strip(flat[i].value.text, Whitespace)));
  }

  /**
    Inserting `None` or a token from another line anywhere in a key's
    comments does not change its description: preceding, following and
    document-level comments are not attributed to it.
   */
  lemma CommentIgnoresOtherLines(e: Entry, e': Entry, a: seq<Item<Token>>, x: Item<Token>, b: seq<Item<Token>>)
    requires e.comments == Some(a + b) && e'.comments == Some(a + [x] + b)
    requires e'.line == e.line
    requires x.PyNone? || (x.Atom? && x.value.line != e.line)
    ensures CommentOf(e') == CommentOf(e)
  {
    AtomPassesThrough(a, x, b);
    FlattenConcat(a, b);
    var fa, fb := Flatten(a), Flatten(b);
    FirstOnLineSkips(fa, x, fb, e.line);
  }

  /** Skipping an element that is not on `line` shifts the first match past it and keeps what it points at. */
  lemma FirstOnLineSkips(a: seq<Item<Token>>, x: Item<Token>, b: seq<Item<Token>>, line: nat)
    requires !OnLine(x, line)
    ensures var r, r' := FirstOnLine(a + b, line), FirstOnLine(a + [x] + b, line);
      && r.None? == r'.None?
      && (r.Some? ==> (a + b)[r.value] == (a + [x] + b)[r'.value])
  {
    var s, s' := a + b, a + [x] + b;
    var r := FirstOnLine(s, line);
    if r.Some? {
      var i := r.value;
      var i' := if i < |a| then i else i + 1;
      assert s'[i'] == s[i];
      forall j | 0 <= j < i' ensures !OnLine(s'[j], line) {
        if j < |a| { assert s'[j] == s[j]; }
        else if j > |a| { assert s'[j] == s[j - 1]; }
      }
      FirstOnLineAt(s', line, i');
    } else {
      forall j | 0 <= j < |s'| ensures !OnLine(s'[j], line) {
        if j < |a| { assert s'[j] == s[j]; }
        else if j > |a| { assert s'[j] == s[j - 1]; }
      }
    }
  }

  // ---------------------------------------------------------------------
  // traverse
  // ---------------------------------------------------------------------

  /** One item yielded by `traverse`: `[param, comment, json.dumps(default)]`. */
  datatype Triple = Triple(path: string, description: string, default: string)

  /** An element of a list default: a mapping becomes a plain `dict`, anything else is kept. */
  function PlainElement(n: Node): Default {
    if n.Mapping? then Dict(Pairs(n.entries)) else AsIs(n)
  }

  function PlainElements(items: seq<Node>): seq<Default> {
    seq(|items|, k requires 0 <= k < |items| => PlainElement(items[k]))
  }

  /**
    The default of a leaf as it is serialised (gen.py:125-131): a list is
    rebuilt element by element, an empty mapping becomes a plain `dict`,
    and any other value is kept.
   */
  function ToDefault(v: Node): (d: Default)
    ensures v.Sequence? ==> d.List? && |d.elems| == |v.items|
    ensures v.Sequence? ==> forall k :: 0 <= k < |v.items| ==> !(d.elems[k].AsIs? && d.elems[k].node.Mapping?)
    ensures !(d.AsIs? && d.node.Mapping?)
    ensures !v.Sequence? && !v.Mapping? ==> d == AsIs(v)
  {
    match v
    case Sequence(items) => List(PlainElements(items))
    case Mapping(_) => PlainElement(v)
    case _ => AsIs(v)
  }

  /** The description of a leaf: its comment when `ca.items` has an entry for the key, else "". */
  function Describe(e: Entry): (r: string)
    ensures '\n' !in r
    ensures e.comments.None? ==> r == ""
  {
    if e.comments.Some? then CommentOf(e) else ""
  }

  /** A description on one line and a default in printable ASCII. */
  predicate Displayable(t: Triple) {
    '\n' !in t.description && Printable(t.default)
  }

  /** The triple for a leaf entry reached by the key path `path`. */
  function LeafTriple(path: seq<string>, e: Entry): (t: Triple)
    ensures Displayable(t)
  {
    Triple(Join(path, '.'), Describe(e), Dumps(ToDefault(e.value)))
  }

  /**
    Everything `traverse(tree, root)` yields, in order: for each key of the
    mapping, the triples of a non-empty mapping value (under the extended
    root), or one triple for any other value.
   */
  function Traversal(tree: seq<Entry>, root: seq<string>): (r: seq<Triple>)
    ensures |r| == LeafCount(tree)
  {
    if tree == [] then []
    else
      var e := tree[0];
      (if IsBranch(e.value) then Traversal(e.value.entries, root + [e.key])
       else [LeafTriple(root + [e.key], e)])
      + Traversal(tree[1..], root)
  }

  /**
    `traverse`: the loop over the keys of one mapping, descending into
    non-empty mappings and emitting a triple for every other value.
   */
  method Traverse(tree: seq<Entry>, root: seq<string>) returns (out: seq<Triple>)
    ensures out == Traversal(tree, root)
    decreases tree
  {
    out := [];
    for i := 0 to |tree|
      invariant out == Traversal(tree[..i], root)
    {
      var key := tree[i].key;
      var default := tree[i].value;
      var values: seq<Triple>;
      if default.Mapping? && default.entries != [] {
        var newroot := root + [key];
        values := Traverse(default.entries, newroot);
      } else {
        var triple := EmitLeaf(root + [key], tree[i]);
        values := [triple];
      }
      TraversalSingle(tree[i], root);
      assert values == Traversal([tree[i]], root);
      TraversalConcat(tree[..i], [tree[i]], root);
      assert tree[..i + 1] == tree[..i] + [tree[i]];
      out := out + values;
    }
    assert tree[..|tree|] == tree;
  }

  /** The body of `traverse` for a leaf: the joined path, the comment of its key and the serialised default. */
  method EmitLeaf(path: seq<string>, e: Entry) returns (t: Triple)
    ensures t == LeafTriple(path, e)
  {
    var plain := ToDefault(e.value);
    var comment := "";
    if e.comments.Some? {
      comment := GetComment(e);
    }
    var param := Join(path, '.');
    t := Triple(param, comment, Dumps(plain));
  }

  lemma TraversalSingle(e: Entry, root: seq<string>)
    ensures Traversal([e], root)
      == if IsBranch(e.value) then Traversal(e.value.entries, root + [e.key]) else [LeafTriple(root + [e.key], e)]
  {
    assert [e][1..] == [];
  }

  /** The output for consecutive keys is the concatenation of their outputs: keys are visited in order. */
  lemma {:induction false} TraversalConcat(a: seq<Entry>, b: seq<Entry>, root: seq<string>)
    ensures Traversal(a + b, root) == Traversal(a, root) + Traversal(b, root)
  {
    if a == [] {
      assert a + b == b;
    } else {
      assert (a + b)[0] == a[0];
      assert (a + b)[1..] == a[1..] + b;
      TraversalHead(a + b, root);
      TraversalHead(a, root);
      TraversalConcat(a[1..], b, root);
      var h := Traversal([a[0]], root);
      assert h + (Traversal(a[1..], root) + Traversal(b, root)) == (h + Traversal(a[1..], root)) + Traversal(b, root);
    }
  }

  lemma TraversalHead(tree: seq<Entry>, root: seq<string>)
    requires tree != []
    ensures Traversal(tree, root) == Traversal([tree[0]], root) + Traversal(tree[1..], root)
  {
    TraversalSingle(tree[0], root);
  }

  /** The number of leaves below a mapping: values that are not non-empty mappings. */
  function LeafCount(tree: seq<Entry>): nat {
    if tree == [] then 0
    else (if IsBranch(tree[0].value) then LeafCount(tree[0].value.entries) else 1) + LeafCount(tree[1..])
  }

  // Leaves, found by key path

  /** A leaf: the keys leading to it from the top mapping, and the entry holding it. */
  datatype LeafRef = LeafRef(keys: seq<string>, entry: Entry)

  /** The path ends in the entry's own key, and the entry's value is not a non-empty mapping. */
  predicate IsLeafRef(l: LeafRef) {
    l.keys != [] && l.keys[|l.keys| - 1] == l.entry.key && !IsBranch(l.entry.value)
  }

  function KeysOf(tree: seq<Entry>): set<string> {
    set e | e in tree :: e.key
  }

  function Under(key: string, ls: seq<LeafRef>): seq<LeafRef> {
    seq(|ls|, i requires 0 <= i < |ls| => LeafRef([key] + ls[i].keys, ls[i].entry))
  }

  /** The leaves below a mapping, depth first, in key order. */
  function Leaves(tree: seq<Entry>): (r: seq<LeafRef>)
    ensures forall i :: 0 <= i < |r| ==> IsLeafRef(r[i]) && r[i].keys[0] in KeysOf(tree)
  {
    if tree == [] then []
    else
      var e := tree[0];
      (if IsBranch(e.value) then Under(e.key, Leaves(e.value.entries)) else [LeafRef([e.key], e)])
      + Leaves(tree[1..])
  }

  /** The triple yielded for a leaf under `root`. */
  function Emit(root: seq<string>, l: LeafRef): Triple {
    LeafTriple(root + l.keys, l.entry)
  }

  /** `ts` is what `Emit` makes of `ls` under `root`. */
  predicate EmitsAll(ts: seq<Triple>, root: seq<string>, ls: seq<LeafRef>) {
    |ts| == |ls| && forall i :: 0 <= i < |ls| ==> ts[i] == Emit(root, ls[i])
  }

  lemma EmitsAllConcat(t1: seq<Triple>, t2: seq<Triple>, root: seq<string>, l1: seq<LeafRef>, l2: seq<LeafRef>)
    requires EmitsAll(t1, root, l1) && EmitsAll(t2, root, l2)
    ensures EmitsAll(t1 + t2, root, l1 + l2)
  {
    forall i | 0 <= i < |l1 + l2| ensures (t1 + t2)[i] == Emit(root, (l1 + l2)[i]) {
      if i >= |l1| {
        assert (t1 + t2)[i] == t2[i - |t1|];
      }
    }
  }

  lemma EmitsAllUnder(ts: seq<Triple>, root: seq<string>, key: string, ls: seq<LeafRef>)
    requires EmitsAll(ts, root + [key], ls)
    ensures EmitsAll(ts, root, Under(key, ls))
  {
    forall i | 0 <= i < |ls| ensures ts[i] == Emit(root, Under(key, ls)[i]) {
      assert root + [key] + ls[i].keys == root + ([key] + ls[i].keys);
    }
  }

  /**
    `traverse` yields, in order, one triple per leaf: its path is the
    `.`-join of the root and the keys down to the leaf, its description is
    the comment of the leaf's own key in the mapping that holds it, and its
    default is the serialised value.
   */
  lemma {:induction false} TraversalEmitsLeaves(tree: seq<Entry>, root: seq<string>)
    ensures EmitsAll(Traversal(tree, root), root, Leaves(tree))
  {
    if tree != [] {
      var e := tree[0];
      TraversalEmitsLeaves(tree[1..], root);
      if IsBranch(e.value) {
        TraversalEmitsLeaves(e.value.entries, root + [e.key]);
        EmitsAllUnder(Traversal(e.value.entries, root + [e.key]), root, e.key, Leaves(e.value.entries));
        EmitsAllConcat(Traversal(e.value.entries, root + [e.key]), Traversal(tree[1..], root), root,
          Under(e.key, Leaves(e.value.entries)), Leaves(tree[1..]));
      } else {
        EmitsAllConcat([LeafTriple(root + [e.key], e)], Traversal(tree[1..], root), root,
          [LeafRef([e.key], e)], Leaves(tree[1..]));
      }
    }
  }

  // Key paths

  /** `tree[key]`: the entry for `key` in one mapping. */
  function Find(tree: seq<Entry>, key: string): (r: Option<Entry>)
    ensures r.Some? ==> r.value in tree && r.value.key == key
    ensures r.None? <==> key !in KeysOf(tree)
  {
    if tree == [] then None
    else if tree[0].key == key then Some(tree[0])
    else Find(tree[1..], key)
  }

  /** The entry reached by following `keys` down from the top mapping. */
  function Lookup(tree: seq<Entry>, keys: seq<string>): Option<Entry>
    decreases keys
  {
    if keys == [] then None
    else match Find(tree, keys[0])
      case None => None
      case Some(e) =>
        if |keys| == 1 then Some(e)
        else if e.value.Mapping? then Lookup(e.value.entries, keys[1..])
        else None
  }

  /** No mapping in the tree repeats a key (YAML mappings have unique keys). */
  predicate DistinctKeys(tree: seq<Entry>) {
    && (forall i, j :: 0 <= i < j < |tree| ==> tree[i].key != tree[j].key)
    && (forall e :: e in tree && e.value.Mapping? ==> DistinctKeys(e.value.entries))
  }

  /** No key anywhere in the tree contains a dot. */
  predicate DotFree(tree: seq<Entry>) {
    forall e :: e in tree ==> '.' !in e.key && (e.value.Mapping? ==> DotFree(e.value.entries))
  }

  lemma DistinctKeysTail(tree: seq<Entry>)
    requires tree != [] && DistinctKeys(tree)
    ensures DistinctKeys(tree[1..]) && tree[0].key !in KeysOf(tree[1..])
  {
    forall e | e in tree[1..] ensures e.key != tree[0].key {
      var j :| 0 <= j < |tree[1..]| && tree[1..][j] == e;
      assert tree[j + 1] == e;
    }
  }

  lemma LookupSkips(tree: seq<Entry>, keys: seq<string>)
    requires tree != [] && keys != [] && keys[0] != tree[0].key
    ensures Lookup(tree, keys) == Lookup(tree[1..], keys)
  {
  }

  /** In a tree with unique keys, the path of every leaf leads back to that leaf. */
  lemma {:induction false} LeavesSound(tree: seq<Entry>)
    requires DistinctKeys(tree)
    ensures forall i :: 0 <= i < |Leaves(tree)| ==> Lookup(tree, Leaves(tree)[i].keys) == Some(Leaves(tree)[i].entry)
  {
    if tree != [] {
      var e := tree[0];
      var L, rest := Leaves(tree), Leaves(tree[1..]);
      var block := if IsBranch(e.value) then Under(e.key, Leaves(e.value.entries)) else [LeafRef([e.key], e)];
      assert L == block + rest;
      DistinctKeysTail(tree);
      LeavesSound(tree[1..]);
      if IsBranch(e.value) {
        assert e in tree;
        LeavesSound(e.value.entries);
      }
      forall i | 0 <= i < |L| ensures Lookup(tree, L[i].keys) == Some(L[i].entry) {
        if i < |block| {
          assert Find(tree, e.key) == Some(e);
          if IsBranch(e.value) {
            var sub := Leaves(e.value.entries);
            var ks := [e.key] + sub[i].keys;
            assert L[i] == LeafRef(ks, sub[i].entry);
            assert ks[0] == e.key && ks[1..] == sub[i].keys && |ks| > 1;
          }
        } else {
          var l := rest[i - |block|];
          assert L[i] == l;
          LookupSkips(tree, l.keys);
        }
      }
    }
  }

  /** Every leaf reachable by a key path is yielded under that path. */
  lemma {:induction false} LeavesComplete(tree: seq<Entry>, keys: seq<string>)
    requires Lookup(tree, keys).Some? && !IsBranch(Lookup(tree, keys).value.value)
    ensures exists i :: 0 <= i < |Leaves(tree)| && Leaves(tree)[i] == LeafRef(keys, Lookup(tree, keys).value)
    decreases |keys|, |tree|, 1
  {
    if tree[0].key != keys[0] {
      LeavesCompleteAfter(tree, keys);
    } else if |keys| == 1 {
      LookupHead(tree, keys);
      assert Leaves(tree)[0] == LeafRef(keys, tree[0]);
    } else {
      LeavesCompleteBelow(tree, keys);
    }
  }

  lemma {:induction false} LeavesCompleteBelow(tree: seq<Entry>, keys: seq<string>)
    requires tree != [] && |keys| > 1 && tree[0].key == keys[0]
    requires Lookup(tree, keys).Some? && !IsBranch(Lookup(tree, keys).value.value)
    ensures exists i :: 0 <= i < |Leaves(tree)| && Leaves(tree)[i] == LeafRef(keys, Lookup(tree, keys).value)
    decreases |keys|, |tree|, 0
  {
    var e, r := tree[0], Lookup(tree, keys).value;
    LookupHead(tree, keys);
    assert e.value.Mapping? && Lookup(e.value.entries, keys[1..]) == Some(r);
    LookupEmpty(keys[1..]);
    var sub := Leaves(e.value.entries);
    LeavesHead(tree);
    LeavesComplete(e.value.entries, keys[1..]);
    var m :| 0 <= m < |sub| && sub[m] == LeafRef(keys[1..], r);
    assert [e.key] + keys[1..] == keys;
    var under := Under(e.key, sub);
    assert under[m] == LeafRef(keys, r);
    InPrefix(under, Leaves(tree[1..]), m);
  }

  lemma {:induction false} LeavesCompleteAfter(tree: seq<Entry>, keys: seq<string>)
    requires tree != [] && keys != [] && tree[0].key != keys[0]
    requires Lookup(tree, keys).Some? && !IsBranch(Lookup(tree, keys).value.value)
    ensures exists i :: 0 <= i < |Leaves(tree)| && Leaves(tree)[i] == LeafRef(keys, Lookup(tree, keys).value)
    decreases |keys|, |tree|, 0
  {
    var e, r := tree[0], Lookup(tree, keys).value;
    var block := if IsBranch(e.value) then Under(e.key, Leaves(e.value.entries)) else [LeafRef([e.key], e)];
    LeavesHead(tree);
    LookupSkips(tree, keys);
    LeavesComplete(tree[1..], keys);
    var rest := Leaves(tree[1..]);
    var m :| 0 <= m < |rest| && rest[m] == LeafRef(keys, r);
    InSuffix(block, rest, m);
  }

  lemma LeavesHead(tree: seq<Entry>)
    requires tree != []
    ensures Leaves(tree) == (if IsBranch(tree[0].value) then Under(tree[0].key, Leaves(tree[0].value.entries))
      else [LeafRef([tree[0].key], tree[0])]) + Leaves(tree[1..])
  {
  }

  lemma InPrefix(x: seq<LeafRef>, y: seq<LeafRef>, m: nat)
    requires m < |x|
    ensures (x + y)[m] == x[m]
  {
  }

  lemma InSuffix(x: seq<LeafRef>, y: seq<LeafRef>, m: nat)
    requires m < |y|
    ensures (x + y)[|x| + m] == y[m]
  {
  }

  lemma LookupEmpty(keys: seq<string>)
    ensures Lookup([], keys) == None
  {
  }

  lemma LookupHead(tree: seq<Entry>, keys: seq<string>)
    requires tree != [] && keys != [] && keys[0] == tree[0].key
    ensures Lookup(tree, keys) == if |keys| == 1 then Some(tree[0])
      else if tree[0].value.Mapping? then Lookup(tree[0].value.entries, keys[1..]) else None
  {
    assert Find(tree, keys[0]) == Some(tree[0]);
  }

  /** No two leaves share a key path. */
  predicate PathsDistinct(ls: seq<LeafRef>) {
    forall i, j :: 0 <= i < j < |ls| ==> ls[i].keys != ls[j].keys
  }

  lemma UnderDistinct(key: string, ls: seq<LeafRef>)
    requires PathsDistinct(ls)
    ensures PathsDistinct(Under(key, ls))
  {
    forall i, j | 0 <= i < j < |ls| ensures Under(key, ls)[i].keys != Under(key, ls)[j].keys {
      assert Under(key, ls)[i].keys[1..] == ls[i].keys;
      assert Under(key, ls)[j].keys[1..] == ls[j].keys;
    }
  }

  /** In a tree with unique keys, leaves are reached by distinct key paths. */
  lemma {:induction false} LeavesDistinct(tree: seq<Entry>)
    requires DistinctKeys(tree)
    ensures PathsDistinct(Leaves(tree))
  {
    if tree != [] {
      var e := tree[0];
      var rest := Leaves(tree[1..]);
      var block := if IsBranch(e.value) then Under(e.key, Leaves(e.value.entries)) else [LeafRef([e.key], e)];
      assert Leaves(tree) == block + rest;
      DistinctKeysTail(tree);
      LeavesDistinct(tree[1..]);
      if IsBranch(e.value) {
        assert e in tree;
        LeavesDistinct(e.value.entries);
        UnderDistinct(e.key, Leaves(e.value.entries));
      }
      assert forall i :: 0 <= i < |block| ==> block[i].keys[0] == e.key;
      PathsDistinctConcat(block, rest);
    }
  }

  lemma PathsDistinctConcat(l1: seq<LeafRef>, l2: seq<LeafRef>)
    requires PathsDistinct(l1) && PathsDistinct(l2)
    requires forall i, j :: 0 <= i < |l1| && 0 <= j < |l2| ==> l1[i].keys != l2[j].keys
    ensures PathsDistinct(l1 + l2)
  {
    forall i, j | 0 <= i < j < |l1 + l2| ensures (l1 + l2)[i].keys != (l1 + l2)[j].keys {
      if i >= |l1| {
        assert (l1 + l2)[i] == l2[i - |l1|];
      }
      if j >= |l1| {
        assert (l1 + l2)[j] == l2[j - |l1|];
      }
    }
  }

  /** In a tree without dots in its keys, no key on a leaf's path contains a dot. */
  lemma {:induction false} LeavesDotFree(tree: seq<Entry>)
    requires DotFree(tree)
    ensures forall i :: 0 <= i < |Leaves(tree)| ==> SeparatorFree(Leaves(tree)[i].keys, '.')
  {
    if tree != [] {
      var e := tree[0];
      var rest := Leaves(tree[1..]);
      var block := if IsBranch(e.value) then Under(e.key, Leaves(e.value.entries)) else [LeafRef([e.key], e)];
      assert Leaves(tree) == block + rest;
      assert e in tree;
      LeavesDotFree(tree[1..]);
      if IsBranch(e.value) {
        var sub := Leaves(e.value.entries);
        LeavesDotFree(e.value.entries);
        forall i | 0 <= i < |sub| ensures SeparatorFree(block[i].keys, '.') {
          assert block[i].keys == [e.key] + sub[i].keys;
        }
      }
      forall i | 0 <= i < |block + rest| ensures SeparatorFree((block + rest)[i].keys, '.') {
        if i >= |block| {
          assert (block + rest)[i] == rest[i - |block|];
        }
      }
    }
  }

  lemma JoinDistinct(a: seq<string>, b: seq<string>, sep: char)
    requires a != [] && b != [] && SeparatorFree(a, sep) && SeparatorFree(b, sep)
    ensures a != b ==> Join(a, sep) != Join(b, sep)
  {
    if Join(a, sep) == Join(b, sep) {
      JoinInjective(a, b, sep);
    }
  }

  /**
    When keys are unique within each mapping and contain no dots, and the
    root parts contain no dots, every yielded parameter name is distinct.
   */
  lemma TraversalPathsDistinct(tree: seq<Entry>, root: seq<string>)
    requires DistinctKeys(tree) && DotFree(tree) && SeparatorFree(root, '.')
    ensures forall i, j :: 0 <= i < j < |Traversal(tree, root)| ==> Traversal(tree, root)[i].path != Traversal(tree, root)[j].path
  {
    var T, L := Traversal(tree, root), Leaves(tree);
    TraversalEmitsLeaves(tree, root);
    LeavesDistinct(tree);
    LeavesDotFree(tree);
    forall i, j | 0 <= i < j < |T| ensures T[i].path != T[j].path {
      var a, b := root + L[i].keys, root + L[j].keys;
      assert a[|root|..] == L[i].keys && b[|root|..] == L[j].keys;
      assert SeparatorFree(a, '.') && SeparatorFree(b, '.');
      JoinDistinct(a, b, '.');
    }
  }

  /** Under a non-empty root, every parameter name starts with the joined root and a dot. */
  lemma TraversalPrefix(tree: seq<Entry>, root: seq<string>)
    requires root != []
    ensures forall i :: 0 <= i < |Traversal(tree, root)| ==> Join(root, '.') + "." <= Traversal(tree, root)[i].path
  {
    var T, L := Traversal(tree, root), Leaves(tree);
    TraversalEmitsLeaves(tree, root);
    forall i | 0 <= i < |T| ensures Join(root, '.') + "." <= T[i].path {
      JoinAppend(root, L[i].keys, '.');
    }
  }

  /** Every description is a single line and every default printable ASCII. */
  lemma TraversalDisplayable(tree: seq<Entry>, root: seq<string>)
    ensures forall i :: 0 <= i < |Traversal(tree, root)| ==> Displayable(Traversal(tree, root)[i])
  {
    TraversalEmitsLeaves(tree, root);
  }

  /** The root only affects parameter names: the count, descriptions and defaults do not depend on it. */
  lemma TraversalRootIndependent(tree: seq<Entry>, r1: seq<string>, r2: seq<string>)
    ensures |Traversal(tree, r1)| == |Traversal(tree, r2)|
    ensures forall i :: 0 <= i < |Traversal(tree, r1)| ==>
      Traversal(tree, r1)[i].description == Traversal(tree, r2)[i].description
      && Traversal(tree, r1)[i].default == Traversal(tree, r2)[i].default
  {
    TraversalEmitsLeaves(tree, r1);
    TraversalEmitsLeaves(tree, r2);
  }

  // Defaults

  lemma {:induction false} PairsEncodeLikeEntries(es: seq<Entry>)
    ensures DumpsPairs(Pairs(es)) == DumpsEntries(es)
  {
    if es != [] {
      assert Pairs(es)[1..] == Pairs(es[1..]);
      PairsEncodeLikeEntries(es[1..]);
    }
  }

  lemma {:induction false} ElementsEncodeLikeItems(items: seq<Node>)
    ensures DumpsDefaults(PlainElements(items)) == DumpsItems(items)
  {
    if items != [] {
      if items[0].Mapping? {
        PairsEncodeLikeEntries(items[0].entries);
      }
      assert PlainElements(items)[1..] == PlainElements(items[1..]);
      ElementsEncodeLikeItems(items[1..]);
    }
  }

  /**
    Turning parser mappings into plain dicts does not change the JSON text:
    the default is serialised exactly as the value itself would be.
   */
  lemma DefaultEncodesLikeNode(v: Node)
    ensures Dumps(ToDefault(v)) == DumpsNode(v)
  {
    match v
    case Sequence(items) => ElementsEncodeLikeItems(items);
    case Mapping(es) => PairsEncodeLikeEntries(es);
    case _ =>
  }
}
