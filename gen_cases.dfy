/**
  Concrete cases of frigate/gen.py: the examples its docstrings give and the
  inputs its unit tests use, computed by the model. Where the code and a
  test disagree, the lemma states what the code produces.
 */
module GenCases {
  import opened Wrappers
  import opened PyStr
  import opened Values
  import opened Json
  import opened Gen

  lemma CapitalizeHelloWorld()
    ensures Capitalize("hello world") == "Hello world"
  {
  }

  /**
    The docstring example of `clean_comment`: the code capitalises, as the
    docstring says, while the unit test expects `"hello world"`.
   */
  lemma CleanCommentDocstring()
    ensures CleanComment("# hello world") == "Hello world"
  {
    StripDocstringComment();
    CapitalizeHelloWorld();
  }

  lemma StripDocstringComment()
    ensures Strip("# hello world", CommentMarks) == "hello world"
  {
    StripParts("# ", "hello world", "", CommentMarks);
    assert "# hello world" == "# " + "hello world" + "";
  }

  /**
    The unit tests of `clean_comment` put runs of `#` and spaces around
    "hello world" (`"# hello world"`, `"hello world"`,
    `"## # ## ## hello world"`, `" # hello world  "`) and expect
    `"hello world"`; for every such input the code returns `"Hello world"`.
   */
  lemma CleanCommentTestInputs(pre: string, suf: string)
    requires forall c :: c in pre ==> c in CommentMarks
    requires forall c :: c in suf ==> c in CommentMarks
    ensures CleanComment(pre + "hello world" + suf) == "Hello world"
    ensures CleanComment(pre + "hello world" + suf) != "hello world"
  {
    CleanCommentParts(pre + "hello world" + suf, pre, "hello world", suf);
    CapitalizeHelloWorld();
  }

  /**
    A comment with an inline identifier, such as "Use a `LoadBalancer`." in
    the test of `get_comment`, which expects it back unchanged: past the
    first character, `capitalize` lower-cases every upper-case letter, so
    such a comment never comes back as it was written.
   */
  lemma CleanCommentLowersIdentifiers(s: string, k: nat)
    requires 0 < k < |s| && s[0] !in CommentMarks && s[|s| - 1] !in CommentMarks && IsAsciiUpper(s[k])
    ensures CleanComment(s)[k] == Lower(s[k]) != s[k]
    ensures CleanComment(s) != s
  {
    StripUnchanged(s, CommentMarks);
    var r := Strip(s, CommentMarks);
    assert CleanComment(s) == Capitalize(r);
  }

  lemma DumpsOne()
    ensures Dumps(ToDefault(Int(1))) == "1"
  {
    assert DecimalNat(1) == [DigitChar(1)] == "1";
  }

  lemma DumpsTwo()
    ensures Dumps(ToDefault(Int(2))) == "2"
  {
    assert DecimalNat(2) == [DigitChar(2)] == "2";
  }

  /**
    A top-level integer without a comment yields `["replicaCount", "", "1"]`,
    the triple `test_traversal` looks for. That test applies its check to the
    mapping `load_chart` returns rather than to the output of `traverse`.
   */
  lemma ReplicaCount()
    ensures Traversal([Entry("replicaCount", Int(1), 0, None)], []) == [Triple("replicaCount", "", "1")]
  {
    var e := Entry("replicaCount", Int(1), 0, None);
    TraversalSingle(e, []);
    assert [] + [e.key] == ["replicaCount"];
    DumpsOne();
  }

  /** `{a: {b: 1, c: 2}}` yields `a.b` and `a.c`, in key order, with their defaults. */
  lemma NestedMapping()
    ensures Traversal([Entry("a", Mapping([Entry("b", Int(1), 1, None), Entry("c", Int(2), 2, None)]), 0, None)], [])
      == [Triple("a.b", "", "1"), Triple("a.c", "", "2")]
  {
    var b, c := Entry("b", Int(1), 1, None), Entry("c", Int(2), 2, None);
    var a := Entry("a", Mapping([b, c]), 0, None);
    TraversalSingle(a, []);
    assert [] + ["a"] == ["a"];
    assert Traversal([a], []) == Traversal([b, c], ["a"]);
    TraversalConcat([b], [c], ["a"]);
    assert [b] + [c] == [b, c];
    LeafUnderA("b", Int(1), 1);
    LeafUnderA("c", Int(2), 2);
    DumpsOne();
    DumpsTwo();
    assert "a" + "." + "b" == "a.b";
    assert "a" + "." + "c" == "a.c";
  }

  /** A comment-less value that is not a non-empty mapping, under the key `a`, yields one triple. */
  lemma LeafUnderA(key: string, v: Node, line: nat)
    requires !IsBranch(v)
    ensures Traversal([Entry(key, v, line, None)], ["a"]) == [Triple("a" + "." + key, "", Dumps(ToDefault(v)))]
  {
    TraversalSingle(Entry(key, v, line, None), ["a"]);
    JoinTwo(key);
  }

  lemma JoinTwo(y: string)
    ensures Join(["a"] + [y], '.') == "a" + "." + y
  {
    assert (["a"] + [y])[1..] == [y];
  }

  /** An empty mapping is a leaf, and its default is `{}`. */
  lemma EmptyMapping()
    ensures Traversal([Entry("a", Mapping([]), 0, None)], []) == [Triple("a", "", "{}")]
  {
    var a := Entry("a", Mapping([]), 0, None);
    TraversalSingle(a, []);
    assert [] + ["a"] == ["a"];
    assert Pairs([]) == [];
    assert Dumps(ToDefault(Mapping([]))) == "{}";
    assert LeafTriple(["a"], a) == Triple("a", "", "{}");
  }

  /** A string default is yielded as its JSON text, with quotes. */
  lemma StringDefault()
    ensures Dumps(ToDefault(Str("world"))) == "\"world\""
  {
    StringQuoted();
  }

  lemma StringQuoted()
    ensures Quote("world") == "\"world\""
  {
    EscapePlain("world");
  }

  /**
    Without `DotFree` two parameters can share a name: a key `a.b` and a key
    `b` below `a` both yield `a.b`.
   */
  lemma DottedKeysCollide()
    ensures var t := Traversal([Entry("a.b", Int(1), 0, None), Entry("a", Mapping([Entry("b", Int(2), 2, None)]), 1, None)], []);
      |t| == 2 && t[0].path == t[1].path == "a.b"
  {
    var x, b := Entry("a.b", Int(1), 0, None), Entry("b", Int(2), 2, None);
    var a := Entry("a", Mapping([b]), 1, None);
    TraversalConcat([x], [a], []);
    assert [x] + [a] == [x, a];
    TraversalSingle(x, []);
    TraversalSingle(a, []);
    TraversalSingle(b, ["a"]);
    assert [] + ["a.b"] == ["a.b"];
    assert [] + ["a"] == ["a"];
    JoinTwo("b");
  }
}
