/**
  `convert`: the parser's tree to `YamlSerialize`, node by node, depth first.
  The functions state what it computes; the method `Convert` is the loop that
  computes it, proved against them.
 */
module Converter {
  import opened Wrappers
  import opened LinkedMap
  import opened YamlRust
  import opened Value
  import opened RustInt

  // Specification

  /** The value one source node converts to: always of the same-named variant. */
  function ConvertValue(y: Yaml): (v: YamlSerialize)
    ensures Value.Tag(v) == YamlRust.Tag(y)
    decreases y
  {
    match y
    case Real(x) => YamlSerialize.Real(x)
    case Integer(x) => YamlSerialize.Integer(x)
    case String(x) => YamlSerialize.String(x)
    case Boolean(x) => YamlSerialize.Boolean(x)
    case Alias(x) => YamlSerialize.Alias(x)
    case Null => YamlSerialize.Null
    case BadValue => YamlSerialize.BadValue
    case Array(xs) => YamlSerialize.Array(ConvertItems(xs))
    case Hash(es) => YamlSerialize.Node(FromPairs(ConvertPairs(es)))
  }

  /** A vector of nodes converts element by element: nothing dropped, repeated or moved. */
  function ConvertItems(ys: seq<Yaml>): (vs: seq<YamlSerialize>)
    ensures |vs| == |ys|
    ensures forall i :: 0 <= i < |ys| ==> vs[i] == ConvertValue(ys[i])
    decreases ys
  {
    if ys == [] then [] else [ConvertValue(ys[0])] + ConvertItems(ys[1..])
  }

  /** One hash entry: its key and its value, each converted on its own, each keeping its variant. */
  function ConvertPair(p: Pair<Yaml, Yaml>): (q: Pair<YamlSerialize, YamlSerialize>)
    ensures Value.Tag(q.key) == YamlRust.Tag(p.key)
    ensures Value.Tag(q.value) == YamlRust.Tag(p.value)
    decreases p
  {
    Pair(ConvertValue(p.key), ConvertValue(p.value))
  }

  /** The converted entries of a hash, in source order, before insertion. */
  function ConvertPairs(ps: seq<Pair<Yaml, Yaml>>): (qs: seq<Pair<YamlSerialize, YamlSerialize>>)
    ensures |qs| == |ps|
    ensures forall i :: 0 <= i < |ps| ==> qs[i] == ConvertPair(ps[i])
    decreases ps
  {
    if ps == [] then [] else [ConvertPair(ps[0])] + ConvertPairs(ps[1..])
  }

  // Sizes, for the termination of `Convert`

  ghost function Size(y: Yaml): nat
    decreases y
  {
    match y
    case Array(xs) => 1 + ItemsSize(xs)
    case Hash(es) => 1 + PairsSize(es)
    case _ => 1
  }

  ghost function ItemsSize(ys: seq<Yaml>): nat
    decreases ys
  {
    if ys == [] then 0 else Size(ys[0]) + ItemsSize(ys[1..])
  }

  ghost function PairSize(p: Pair<Yaml, Yaml>): nat
    decreases p
  {
    Size(p.key) + Size(p.value)
  }

  ghost function PairsSize(ps: seq<Pair<Yaml, Yaml>>): nat
    decreases ps
  {
    if ps == [] then 0 else PairSize(ps[0]) + PairsSize(ps[1..])
  }

  lemma {:induction false} ItemSizeBound(ys: seq<Yaml>, i: nat)
    requires i < |ys|
    ensures Size(ys[i]) <= ItemsSize(ys)
  {
    if i > 0 {
      ItemSizeBound(ys[1..], i - 1);
    }
  }

  lemma {:induction false} PairSizeBound(ps: seq<Pair<Yaml, Yaml>>, i: nat)
    requires i < |ps|
    ensures PairSize(ps[i]) <= PairsSize(ps)
  {
    if i > 0 {
      PairSizeBound(ps[1..], i - 1);
    }
  }

  lemma SingletonSize(y: Yaml)
    ensures ItemsSize([y]) == Size(y)
  {
    assert [y][1..] == [];
  }

  // The converter

  /**
    `convert`: a loop that pushes the conversion of each node in turn.
   */
  method Convert(yml: seq<Yaml>) returns (res: seq<YamlSerialize>)
    ensures res == ConvertItems(yml)
    decreases ItemsSize(yml), 2
  {
    res := [];
    for n := 0 to |yml|
      invariant |res| == n
      invariant forall i :: 0 <= i < n ==> res[i] == ConvertValue(yml[i])
    {
      ItemSizeBound(yml, n);
      var out := ConvertNode(yml[n]);
      res := res + [out];
    }
  }

  /**
    The `match` inside the push: scalars map one to one, an array is
    converted by a recursive call and a hash by `ConvertHash`.
   */
  method ConvertNode(y: Yaml) returns (out: YamlSerialize)
    ensures out == ConvertValue(y)
    decreases Size(y), 1
  {
    match y {
      case Real(x) => out := YamlSerialize.Real(x);
      case Integer(x) => out := YamlSerialize.Integer(x);
      case String(x) => out := YamlSerialize.String(x);
      case Boolean(x) => out := YamlSerialize.Boolean(x);
      case Alias(x) => out := YamlSerialize.Alias(x);
      case Null => out := YamlSerialize.Null;
      case BadValue => out := YamlSerialize.BadValue;
      case Array(x) =>
        var items := Convert(x);
        out := YamlSerialize.Array(items);
      case Hash(x) =>
        out := ConvertHash(x);
    }
  }

  /** The key and the value of an entry, each as a one-element vector, are smaller than the hash. */
  lemma EntrySizes(x: seq<Pair<Yaml, Yaml>>, m: nat)
    requires m < |x|
    ensures ItemsSize([x[m].key]) < 1 + PairsSize(x)
    ensures ItemsSize([x[m].value]) < 1 + PairsSize(x)
  {
    PairSizeBound(x, m);
    SingletonSize(x[m].key);
    SingletonSize(x[m].value);
  }

  /** A one-element vector converts to the one-element vector of its conversion. */
  lemma SingletonConvert(y: Yaml)
    ensures ConvertItems([y]) == [ConvertValue(y)]
  {
    assert [y][1..] == [];
  }

  /** `convert(vec![y]).remove(0)`: one node converted as the only element of a vector. */
  method ConvertOne(y: Yaml) returns (v: YamlSerialize)
    ensures v == ConvertValue(y)
    decreases ItemsSize([y]), 3
  {
    var r := Convert([y]);
    SingletonConvert(y);
    v := r[0];
  }

  /**
    The hash arm of `convert`: each entry in turn, its key and its value
    converted by `ConvertOne`, is inserted into a fresh map.
   */
  method ConvertHash(x: seq<Pair<Yaml, Yaml>>) returns (out: YamlSerialize)
    ensures out == ConvertValue(Hash(x))
    decreases 1 + PairsSize(x), 0
  {
    var node: seq<Pair<YamlSerialize, YamlSerialize>> := [];
    ghost var qs := ConvertPairs(x);
    for m := 0 to |x|
      invariant node == FromPairs(qs[..m])
    {
      EntrySizes(x, m);
      var k := ConvertOne(x[m].key);
      var v := ConvertOne(x[m].value);
      assert qs[m] == Pair(k, v);
      FromPairsPrefix(qs, m);
      node := Insert(node, k, v);
    }
    assert qs[..|x|] == qs;
    out := YamlSerialize.Node(node);
  }

  // Properties of the conversion

  /** Every scalar keeps its payload unchanged: float text verbatim, an alias unresolved. */
  lemma ScalarsKeepPayload(text: string, n: i64, flag: bool, anchor: usize)
    ensures ConvertValue(Yaml.Real(text)) == YamlSerialize.Real(text)
    ensures ConvertValue(Yaml.Integer(n)) == YamlSerialize.Integer(n)
    ensures ConvertValue(Yaml.String(text)) == YamlSerialize.String(text)
    ensures ConvertValue(Yaml.Boolean(flag)) == YamlSerialize.Boolean(flag)
    ensures ConvertValue(Yaml.Alias(anchor)) == YamlSerialize.Alias(anchor)
    ensures ConvertValue(Yaml.Null) == YamlSerialize.Null
    ensures ConvertValue(Yaml.BadValue) == YamlSerialize.BadValue
  {
  }

  /** Every map the converter builds, at every depth, holds each key once. */
  lemma {:induction false} ConvertIsValid(y: Yaml)
    ensures Valid(ConvertValue(y))
    decreases y
  {
    match y
    case Array(xs) =>
      forall i | 0 <= i < |xs| ensures Valid(ConvertItems(xs)[i]) {
        ConvertIsValid(xs[i]);
      }
    case Hash(es) =>
      var qs := ConvertPairs(es);
      var m := FromPairs(qs);
      FromPairsEntries(qs);
      forall i | 0 <= i < |m| ensures Valid(m[i].key) && Valid(m[i].value) {
        assert m[i] in m;
        var j :| 0 <= j < |qs| && qs[j] == m[i];
        ConvertIsValid(es[j].key);
        ConvertIsValid(es[j].value);
      }
    case _ =>
  }

  /**
    A hash converts with last write wins: a converted key maps to the value of
    the last entry whose key converts to it.
   */
  lemma HashLastWriteWins(es: seq<Pair<Yaml, Yaml>>, i: nat)
    requires i < |es|
    requires forall j :: i < j < |es| ==> ConvertValue(es[j].key) != ConvertValue(es[i].key)
    ensures Lookup(ConvertValue(Hash(es)).entries, ConvertValue(es[i].key)) == Some(ConvertValue(es[i].value))
  {
    LastWriteWins(ConvertPairs(es), i);
  }

  /** The inverse of the conversion, to state that it loses nothing. */
  function Unconvert(v: YamlSerialize): Yaml
    decreases v
  {
    match v
    case Real(x) => Yaml.Real(x)
    case Integer(x) => Yaml.Integer(x)
    case String(x) => Yaml.String(x)
    case Boolean(x) => Yaml.Boolean(x)
    case Alias(x) => Yaml.Alias(x)
    case Null => Yaml.Null
    case BadValue => Yaml.BadValue
    case Array(xs) => Yaml.Array(UnconvertItems(xs))
    case Node(es) => Yaml.Hash(UnconvertPairs(es))
  }

  function UnconvertItems(vs: seq<YamlSerialize>): (ys: seq<Yaml>)
    ensures |ys| == |vs|
    ensures forall i :: 0 <= i < |vs| ==> ys[i] == Unconvert(vs[i])
    decreases vs
  {
    if vs == [] then [] else [Unconvert(vs[0])] + UnconvertItems(vs[1..])
  }

  function UnconvertPair(q: Pair<YamlSerialize, YamlSerialize>): Pair<Yaml, Yaml>
    decreases q
  {
    Pair(Unconvert(q.key), Unconvert(q.value))
  }

  function UnconvertPairs(qs: seq<Pair<YamlSerialize, YamlSerialize>>): (ps: seq<Pair<Yaml, Yaml>>)
    ensures |ps| == |qs|
    ensures forall i :: 0 <= i < |qs| ==> ps[i] == UnconvertPair(qs[i])
    decreases qs
  {
    if qs == [] then [] else [UnconvertPair(qs[0])] + UnconvertPairs(qs[1..])
  }

  /** Converting a parsed tree loses nothing: `Unconvert` gives it back. */
  lemma {:induction false} RoundTrip(y: Yaml)
    requires WellFormed(y)
    ensures Unconvert(ConvertValue(y)) == y
    decreases y, 2
  {
    match y
    case Array(xs) => ArrayRoundTrip(xs);
    case Hash(es) => HashRoundTrip(es);
    case _ =>
  }

  lemma {:induction false} ArrayRoundTrip(xs: seq<Yaml>)
    requires WellFormed(Yaml.Array(xs))
    ensures Unconvert(ConvertValue(Yaml.Array(xs))) == Yaml.Array(xs)
    decreases Yaml.Array(xs), 1
  {
    var back := UnconvertItems(ConvertItems(xs));
    forall i | 0 <= i < |xs| ensures back[i] == xs[i] {
      RoundTrip(xs[i]);
    }
    assert back == xs;
  }

  lemma {:induction false} HashRoundTrip(es: seq<Pair<Yaml, Yaml>>)
    requires WellFormed(Hash(es))
    ensures Unconvert(ConvertValue(Hash(es))) == Hash(es)
    decreases Hash(es), 1
  {
    HashKeepsEntries(es);
    var qs := ConvertPairs(es);
    var back := UnconvertPairs(qs);
    assert Unconvert(Node(qs)) == Hash(back);
    forall i | 0 <= i < |es| ensures back[i] == es[i] {
      PairRoundTrip(es[i]);
    }
    assert back == es;
  }

  lemma {:induction false} PairRoundTrip(p: Pair<Yaml, Yaml>)
    requires WellFormed(p.key) && WellFormed(p.value)
    ensures UnconvertPair(ConvertPair(p)) == p
    decreases p, 3
  {
    RoundTrip(p.key);
    RoundTrip(p.value);
  }

  /**
    A parsed hash converts to a map with exactly its entries, converted, in
    source order: distinct source keys never collide once converted.
   */
  lemma {:induction false} HashKeepsEntries(es: seq<Pair<Yaml, Yaml>>)
    requires WellFormed(Hash(es))
    ensures ConvertValue(Hash(es)) == Node(ConvertPairs(es))
    ensures |ConvertValue(Hash(es)).entries| == |es|
    decreases Hash(es), 0
  {
    var qs := ConvertPairs(es);
    forall i, j | 0 <= i < j < |qs| ensures qs[i].key != qs[j].key {
      RoundTrip(es[i].key);
      RoundTrip(es[j].key);
    }
    FromPairsOfDistinct(qs);
  }

  /** Distinct parsed trees convert to distinct values. */
  lemma ConvertInjective(a: Yaml, b: Yaml)
    requires WellFormed(a) && WellFormed(b)
    ensures ConvertValue(a) == ConvertValue(b) ==> a == b
  {
    RoundTrip(a);
    RoundTrip(b);
  }

  /** Worked case: a nested array keeps its shape and order. */
  lemma NestedArrayExample()
    ensures ConvertItems([Yaml.Integer(1), Yaml.Array([Yaml.Boolean(true), Yaml.Null])])
         == [YamlSerialize.Integer(1), YamlSerialize.Array([YamlSerialize.Boolean(true), YamlSerialize.Null])]
  {
    var inner := ConvertItems([Yaml.Boolean(true), Yaml.Null]);
    assert inner == [YamlSerialize.Boolean(true), YamlSerialize.Null];
  }

  /** Worked cases: float text verbatim, aliases unresolved, the invalid marker kept. */
  lemma ScalarExamples()
    ensures ConvertValue(Yaml.Real("1.50")) == YamlSerialize.Real("1.50")
    ensures ConvertValue(Yaml.Alias(3)) == YamlSerialize.Alias(3)
    ensures ConvertValue(Yaml.BadValue) == YamlSerialize.BadValue
    ensures ConvertValue(Yaml.BadValue) != YamlSerialize.Null
  {
  }
}
