/**
  Model of frigate/utils.py: `flatten`, which turns a list of arbitrarily
  nested iterables into one flat sequence of its atoms, depth first and left
  to right. Text and byte strings are iterable in Python but are kept whole.
 */
module Utils {

  /**
    A Python object as `flatten` sees it. `Iterable` stands for any iterable
    that is not a string (list, tuple, ...); `Text` and `Bytes` are iterable
    too, but `flatten` refuses to descend into them; `PyNone` is `None`;
    `Atom` is any other, non-iterable object (a comment token, a number).
   */
  datatype Item<T> =
    | PyNone
    | Text(text: string)
    | Bytes(bytes: seq<bv8>)
    | Iterable(items: seq<Item<T>>)
    | Atom(value: T)

  /** `isinstance(x, collections.abc.Iterable)` */
  predicate IsIterable<T>(x: Item<T>) {
    x.Text? || x.Bytes? || x.Iterable?
  }

  /** The guard of utils.py: iterable, and not a `str` or `bytes`. */
  predicate Nests<T>(x: Item<T>) {
    IsIterable(x) && !(x.Text? || x.Bytes?)
  }

  /** No element of `xs` would be descended into. */
  predicate IsFlat<T>(xs: seq<Item<T>>) {
    forall k :: 0 <= k < |xs| ==> !Nests(xs[k])
  }

  /** `list(flatten(xs))`: the generator's output, in order. */
  function Flatten<T>(xs: seq<Item<T>>): (r: seq<Item<T>>)
    ensures IsFlat(r)
  {
    if xs == [] then []
    else (if Nests(xs[0]) then Flatten(xs[0].items) else [xs[0]]) + Flatten(xs[1..])
  }

  /** The number of atoms in a nested structure, counted independently of `Flatten`. */
  function AtomCount<T>(xs: seq<Item<T>>): nat {
    if xs == [] then 0
    else (if Nests(xs[0]) then AtomCount(xs[0].items) else 1) + AtomCount(xs[1..])
  }

  /** `x` is an atom that occurs in `xs` at some depth of nesting. */
  predicate Occurs<T(==)>(x: Item<T>, xs: seq<Item<T>>) {
    exists i :: 0 <= i < |xs| && ((!Nests(xs[i]) && xs[i] == x) || (Nests(xs[i]) && Occurs(x, xs[i].items)))
  }

  /** Flattening distributes over concatenation: the order of the input is kept. */
  lemma {:induction false} FlattenConcat<T>(a: seq<Item<T>>, b: seq<Item<T>>)
    ensures Flatten(a + b) == Flatten(a) + Flatten(b)
  {
    if a == [] {
      assert a + b == b;
    } else {
      assert (a + b)[0] == a[0];
      assert (a + b)[1..] == a[1..] + b;
      FlattenConcat(a[1..], b);
    }
  }

  /** A sequence without nested iterables comes back unchanged. */
  lemma {:induction false} FlattenOfFlat<T>(xs: seq<Item<T>>)
    requires IsFlat(xs)
    ensures Flatten(xs) == xs
  {
    if xs != [] {
      FlattenOfFlat(xs[1..]);
    }
  }

  /** Flattening twice, or re-wrapping the flat result in a list, changes nothing. */
  lemma FlattenIdempotent<T>(xs: seq<Item<T>>)
    ensures Flatten(Flatten(xs)) == Flatten(xs)
    ensures Flatten([Iterable(Flatten(xs))]) == Flatten(xs)
  {
    FlattenOfFlat(Flatten(xs));
    assert [Iterable(Flatten(xs))][1..] == [];
  }

  /**
    Atoms -- `None`, strings, bytes and any non-iterable object -- pass
    through whole, at their place, and are never split into characters.
   */
  lemma AtomPassesThrough<T>(a: seq<Item<T>>, x: Item<T>, b: seq<Item<T>>)
    requires !Nests(x)
    ensures Flatten(a + [x] + b) == Flatten(a) + [x] + Flatten(b)
  {
    FlattenConcat(a + [x], b);
    FlattenConcat(a, [x]);
  }

  /** An empty nested list contributes nothing. */
  lemma EmptyContributesNothing<T>(a: seq<Item<T>>, b: seq<Item<T>>)
    ensures Flatten(a + [Iterable([])] + b) == Flatten(a + b)
  {
    FlattenConcat(a + [Iterable([])], b);
    FlattenConcat(a, [Iterable([])]);
    FlattenConcat(a, b);
  }

  /** The output has exactly one element per atom of the input. */
  lemma {:induction false} FlattenLength<T>(xs: seq<Item<T>>)
    ensures |Flatten(xs)| == AtomCount(xs)
  {
    if xs != [] {
      if Nests(xs[0]) {
        FlattenLength(xs[0].items);
      }
      FlattenLength(xs[1..]);
    }
  }

  /** Something is in the output exactly when it is an atom occurring in the input. */
  lemma {:induction false} FlattenMembership<T>(x: Item<T>, xs: seq<Item<T>>)
    ensures x in Flatten(xs) <==> Occurs(x, xs)
  {
    if xs == [] {
    } else {
      var head := if Nests(xs[0]) then Flatten(xs[0].items) else [xs[0]];
      assert Flatten(xs) == head + Flatten(xs[1..]);
      FlattenMembership(x, xs[1..]);
      if Nests(xs[0]) {
        FlattenMembership(x, xs[0].items);
      }
      if Occurs(x, xs) {
        var i :| 0 <= i < |xs| && ((!Nests(xs[i]) && xs[i] == x) || (Nests(xs[i]) && Occurs(x, xs[i].items)));
        if i > 0 {
          assert xs[1..][i - 1] == xs[i];
          assert Occurs(x, xs[1..]);
        }
      }
      if Occurs(x, xs[1..]) {
        var j :| 0 <= j < |xs[1..]| && ((!Nests(xs[1..][j]) && xs[1..][j] == x) || (Nests(xs[1..][j]) && Occurs(x, xs[1..][j].items)));
        assert xs[j + 1] == xs[1..][j];
      }
    }
  }

  /** The example of the `flatten` docstring. */
  lemma DocstringExample()
    ensures
      var a, b, c, d := Text("a"), Text("b"), Text("c"), Text("d");
      var e, f, g, h := Text("e"), Text("f"), Text("g"), Text("h");
      Flatten<int>([Iterable([a, b]), Iterable([c, d]), Iterable([e, f, Iterable([g, h])])])
        == [a, b, c, d, e, f, g, h]
  {
    var a: Item<int>, b: Item<int>, c: Item<int>, d: Item<int> := Text("a"), Text("b"), Text("c"), Text("d");
    var e: Item<int>, f: Item<int>, g: Item<int>, h: Item<int> := Text("e"), Text("f"), Text("g"), Text("h");
    var gh: Item<int> := Iterable([g, h]);
    FlattenOfFlat([a, b]);
    FlattenOfFlat([c, d]);
    FlattenOfFlat([g, h]);
    FlattenConcat([e, f], [gh]);
    FlattenOfFlat([e, f]);
    assert Flatten([gh]) == [g, h];
    assert Flatten([e, f, gh]) == [e, f, g, h] by {
      assert [e, f, gh] == [e, f] + [gh];
    }
    var x, y, z := Iterable([a, b]), Iterable([c, d]), Iterable([e, f, gh]);
    FlattenConcat([x], [y, z]);
    FlattenConcat([y], [z]);
    assert [x, y, z] == [x] + [y, z];
    assert [y, z] == [y] + [z];
  }
}
