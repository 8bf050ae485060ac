/**
  `YamlSerialize`, the converter's output: a mirror of the parser's tree that,
  unlike it, has a total order and equality, so that it can be a map key. The
  order is the one Rust derives: first the position of the variant in the
  declaration, then the payloads.
 */
module Value {
  import opened RustInt
  import opened LinkedMap

  datatype YamlSerialize =
    /** A float, kept as its text: the text is what is compared. */
    | Real(lexeme: string)
    | Integer(number: i64)
    | String(text: string)
    | Boolean(flag: bool)
    | Array(items: seq<YamlSerialize>)
    /** A `LinkedHashMap<YamlSerialize, YamlSerialize>`, in insertion order. */
    | Node(entries: seq<Pair<YamlSerialize, YamlSerialize>>)
    /** An anchor index; never resolved. */
    | Alias(anchor: usize)
    | Null
    | BadValue

  /** Rust's `std::cmp::Ordering`. */
  datatype Ordering = Less | Equal | Greater
  {
    /** The ordering seen from the other side. */
    function Reverse(): Ordering
    {
      match this
      case Less => Greater
      case Equal => Equal
      case Greater => Less
    }
  }

  /** The position of the variant in the declaration. */
  function Tag(v: YamlSerialize): nat
  {
    match v
    case Real(_) => 0
    case Integer(_) => 1
    case String(_) => 2
    case Boolean(_) => 3
    case Array(_) => 4
    case Node(_) => 5
    case Alias(_) => 6
    case Null => 7
    case BadValue => 8
  }

  function CmpInt(a: int, b: int): Ordering
  {
    if a < b then Less else if a == b then Equal else Greater
  }

  /** `bool` orders `false` before `true`. */
  function CmpBool(a: bool, b: bool): (r: Ordering)
    ensures r == Equal <==> a == b
    ensures r == Less <==> !a && b
  {
    if a == b then Equal else if !a then Less else Greater
  }

  /**
    `str` comparison: lexicographic, a proper prefix first. Rust compares the
    UTF-8 bytes, which orders exactly as comparing the characters does.
   */
  function CmpText(s: string, t: string): (r: Ordering)
    ensures s == t ==> r == Equal
    ensures s < t ==> r == Less
    ensures t < s ==> r == Greater
  {
    if s == [] then (if t == [] then Equal else Less)
    else if t == [] then Greater
    else if s[0] < t[0] then Less
    else if s[0] > t[0] then Greater
    else CmpText(s[1..], t[1..])
  }

  /** The derived `Ord::cmp` of `YamlSerialize`. */
  function Cmp(a: YamlSerialize, b: YamlSerialize): (r: Ordering)
    ensures a == b ==> r == Equal
    ensures Tag(a) < Tag(b) ==> r == Less
    ensures Tag(a) > Tag(b) ==> r == Greater
    // Within a variant the payloads decide.
    ensures a.Real? && b.Real? ==> r == CmpText(a.lexeme, b.lexeme)
    ensures a.Integer? && b.Integer? ==> (r == Less <==> a.number < b.number) && (r == Equal <==> a.number == b.number)
    ensures a.String? && b.String? ==> r == CmpText(a.text, b.text)
    ensures a.Boolean? && b.Boolean? ==> r == CmpBool(a.flag, b.flag)
    ensures a.Array? && b.Array? ==> r == CmpItems(a.items, b.items)
    ensures a.Node? && b.Node? ==> r == CmpEntries(a.entries, b.entries)
    ensures a.Alias? && b.Alias? ==> (r == Less <==> a.anchor < b.anchor) && (r == Equal <==> a.anchor == b.anchor)
    decreases a
  {
    if Tag(a) != Tag(b) then CmpInt(Tag(a), Tag(b))
    else match (a, b)
      case (Real(s), Real(t)) => CmpText(s, t)
      case (Integer(x), Integer(y)) => CmpInt(x as int, y as int)
      case (String(s), String(t)) => CmpText(s, t)
      case (Boolean(x), Boolean(y)) => CmpBool(x, y)
      case (Array(xs), Array(ys)) => CmpItems(xs, ys)
      case (Node(es), Node(fs)) => CmpEntries(es, fs)
      case (Alias(x), Alias(y)) => CmpInt(x as int, y as int)
      case _ => Equal
  }

  /** `Vec` comparison: lexicographic, a proper prefix first. */
  function CmpItems(xs: seq<YamlSerialize>, ys: seq<YamlSerialize>): (r: Ordering)
    ensures xs == ys ==> r == Equal
    ensures xs < ys ==> r == Less
    ensures ys < xs ==> r == Greater
    decreases xs
  {
    if xs == [] then (if ys == [] then Equal else Less)
    else if ys == [] then Greater
    else match Cmp(xs[0], ys[0])
      case Equal => CmpItems(xs[1..], ys[1..])
      case o => o
  }

  /** Comparison of one `(key, value)` entry: the key first, then the value. */
  function CmpEntry(e: Pair<YamlSerialize, YamlSerialize>, f: Pair<YamlSerialize, YamlSerialize>): (r: Ordering)
    ensures e == f ==> r == Equal
    ensures e.key == f.key ==> r == Cmp(e.value, f.value)
    ensures Cmp(e.key, f.key) != Equal ==> r == Cmp(e.key, f.key)
    decreases e
  {
    match Cmp(e.key, f.key)
    case Equal => Cmp(e.value, f.value)
    case o => o
  }

  /** Map comparison: the entries lexicographically, in iteration order. */
  function CmpEntries(es: seq<Pair<YamlSerialize, YamlSerialize>>, fs: seq<Pair<YamlSerialize, YamlSerialize>>): (r: Ordering)
    ensures es == fs ==> r == Equal
    ensures es < fs ==> r == Less
    ensures fs < es ==> r == Greater
    decreases es
  {
    if es == [] then (if fs == [] then Equal else Less)
    else if fs == [] then Greater
    else match CmpEntry(es[0], fs[0])
      case Equal => CmpEntries(es[1..], fs[1..])
      case o => o
  }

  /** `a <= b` under the derived order. */
  predicate Le(a: YamlSerialize, b: YamlSerialize)
  {
    Cmp(a, b) != Greater
  }

  /** Every map, at every depth, holds each key once. */
  predicate Valid(v: YamlSerialize)
  {
    match v
    case Array(xs) => forall i :: 0 <= i < |xs| ==> Valid(xs[i])
    case Node(es) =>
      && DistinctKeys(es)
      && forall i :: 0 <= i < |es| ==> Valid(es[i].key) && Valid(es[i].value)
    case _ => true
  }

  // Text comparison

  lemma {:induction false} CmpTextEqual(s: string, t: string)
    ensures CmpText(s, t) == Equal <==> s == t
  {
    if s != [] && t != [] && s[0] == t[0] {
      CmpTextEqual(s[1..], t[1..]);
      assert s == [s[0]] + s[1..] && t == [t[0]] + t[1..];
    }
  }

  lemma {:induction false} CmpTextReverse(s: string, t: string)
    ensures CmpText(t, s) == CmpText(s, t).Reverse()
  {
    if s != [] && t != [] && s[0] == t[0] {
      CmpTextReverse(s[1..], t[1..]);
    }
  }

  lemma {:induction false} CmpTextTrans(s: string, t: string, u: string)
    requires CmpText(s, t) == Less && CmpText(t, u) == Less
    ensures CmpText(s, u) == Less
  {
    if s != [] && t != [] && u != [] && s[0] == t[0] == u[0] {
      CmpTextTrans(s[1..], t[1..], u[1..]);
    }
  }

  // The first difference decides

  /** Texts that agree before position `i` and differ at `i` are ordered by the characters at `i`. */
  lemma {:induction false} CmpTextFirstDiff(s: string, t: string, i: nat)
    requires i < |s| && i < |t| && s[..i] == t[..i] && s[i] != t[i]
    ensures CmpText(s, t) == if s[i] < t[i] then Less else Greater
  {
    if i > 0 {
      assert s[0] == s[..i][0] == t[..i][0] == t[0];
      assert s[1..][..i - 1] == s[..i][1..] == t[..i][1..] == t[1..][..i - 1];
      CmpTextFirstDiff(s[1..], t[1..], i - 1);
    }
  }

  /** Vectors that agree before position `i` and compare unequal at `i` are ordered by the elements at `i`. */
  lemma {:induction false} CmpItemsFirstDiff(xs: seq<YamlSerialize>, ys: seq<YamlSerialize>, i: nat)
    requires i < |xs| && i < |ys| && xs[..i] == ys[..i] && Cmp(xs[i], ys[i]) != Equal
    ensures CmpItems(xs, ys) == Cmp(xs[i], ys[i])
  {
    if i > 0 {
      assert xs[0] == xs[..i][0] == ys[..i][0] == ys[0];
      assert xs[1..][..i - 1] == xs[..i][1..] == ys[..i][1..] == ys[1..][..i - 1];
      CmpItemsFirstDiff(xs[1..], ys[1..], i - 1);
    }
  }

  /** Maps whose entries agree before position `i` and compare unequal at `i` are ordered by the entries at `i`. */
  lemma {:induction false} CmpEntriesFirstDiff(es: seq<Pair<YamlSerialize, YamlSerialize>>, fs: seq<Pair<YamlSerialize, YamlSerialize>>, i: nat)
    requires i < |es| && i < |fs| && es[..i] == fs[..i] && CmpEntry(es[i], fs[i]) != Equal
    ensures CmpEntries(es, fs) == CmpEntry(es[i], fs[i])
  {
    if i > 0 {
      assert es[0] == es[..i][0] == fs[..i][0] == fs[0];
      assert es[1..][..i - 1] == es[..i][1..] == fs[..i][1..] == fs[1..][..i - 1];
      CmpEntriesFirstDiff(es[1..], fs[1..], i - 1);
    }
  }

  // The derived order agrees with structural equality

  /** `cmp` answers `Equal` exactly for equal values (derived `Eq` and `Ord` agree). */
  lemma {:induction false} CmpEqual(a: YamlSerialize, b: YamlSerialize)
    ensures Cmp(a, b) == Equal <==> a == b
    decreases a
  {
    if Tag(a) == Tag(b) {
      match (a, b)
      case (Real(s), Real(t)) => CmpTextEqual(s, t);
      case (String(s), String(t)) => CmpTextEqual(s, t);
      case (Array(xs), Array(ys)) => CmpItemsEqual(xs, ys);
      case (Node(es), Node(fs)) => CmpEntriesEqual(es, fs);
      case _ =>
    }
  }

  lemma {:induction false} CmpItemsEqual(xs: seq<YamlSerialize>, ys: seq<YamlSerialize>)
    ensures CmpItems(xs, ys) == Equal <==> xs == ys
    decreases xs
  {
    if xs != [] && ys != [] {
      CmpEqual(xs[0], ys[0]);
      CmpItemsEqual(xs[1..], ys[1..]);
      assert xs == [xs[0]] + xs[1..] && ys == [ys[0]] + ys[1..];
    }
  }

  lemma {:induction false} CmpEntryEqual(e: Pair<YamlSerialize, YamlSerialize>, f: Pair<YamlSerialize, YamlSerialize>)
    ensures CmpEntry(e, f) == Equal <==> e == f
    decreases e
  {
    CmpEqual(e.key, f.key);
    CmpEqual(e.value, f.value);
  }

  lemma {:induction false} CmpEntriesEqual(es: seq<Pair<YamlSerialize, YamlSerialize>>, fs: seq<Pair<YamlSerialize, YamlSerialize>>)
    ensures CmpEntries(es, fs) == Equal <==> es == fs
    decreases es
  {
    if es != [] && fs != [] {
      CmpEntryEqual(es[0], fs[0]);
      CmpEntriesEqual(es[1..], fs[1..]);
      assert es == [es[0]] + es[1..] && fs == [fs[0]] + fs[1..];
    }
  }

  // Swapping the operands reverses the answer

  lemma {:induction false} CmpReverse(a: YamlSerialize, b: YamlSerialize)
    ensures Cmp(b, a) == Cmp(a, b).Reverse()
    decreases a
  {
    if Tag(a) == Tag(b) {
      match (a, b)
      case (Real(s), Real(t)) => CmpTextReverse(s, t);
      case (String(s), String(t)) => CmpTextReverse(s, t);
      case (Array(xs), Array(ys)) => CmpItemsReverse(xs, ys);
      case (Node(es), Node(fs)) => CmpEntriesReverse(es, fs);
      case _ =>
    }
  }

  lemma {:induction false} CmpItemsReverse(xs: seq<YamlSerialize>, ys: seq<YamlSerialize>)
    ensures CmpItems(ys, xs) == CmpItems(xs, ys).Reverse()
    decreases xs
  {
    if xs != [] && ys != [] {
      CmpReverse(xs[0], ys[0]);
      CmpItemsReverse(xs[1..], ys[1..]);
    }
  }

  lemma {:induction false} CmpEntryReverse(e: Pair<YamlSerialize, YamlSerialize>, f: Pair<YamlSerialize, YamlSerialize>)
    ensures CmpEntry(f, e) == CmpEntry(e, f).Reverse()
    decreases e
  {
    CmpReverse(e.key, f.key);
    CmpReverse(e.value, f.value);
  }

  lemma {:induction false} CmpEntriesReverse(es: seq<Pair<YamlSerialize, YamlSerialize>>, fs: seq<Pair<YamlSerialize, YamlSerialize>>)
    ensures CmpEntries(fs, es) == CmpEntries(es, fs).Reverse()
    decreases es
  {
    if es != [] && fs != [] {
      CmpEntryReverse(es[0], fs[0]);
      CmpEntriesReverse(es[1..], fs[1..]);
    }
  }

  // Transitivity of "strictly less"

  lemma {:induction false} CmpTrans(a: YamlSerialize, b: YamlSerialize, c: YamlSerialize)
    requires Cmp(a, b) == Less && Cmp(b, c) == Less
    ensures Cmp(a, c) == Less
    decreases a
  {
    if Tag(a) == Tag(b) == Tag(c) {
      match (a, b, c)
      case (Real(s), Real(t), Real(u)) => CmpTextTrans(s, t, u);
      case (String(s), String(t), String(u)) => CmpTextTrans(s, t, u);
      case (Array(xs), Array(ys), Array(zs)) => CmpItemsTrans(xs, ys, zs);
      case (Node(es), Node(fs), Node(gs)) => CmpEntriesTrans(es, fs, gs);
      case _ =>
    }
  }

  lemma {:induction false} CmpItemsTrans(xs: seq<YamlSerialize>, ys: seq<YamlSerialize>, zs: seq<YamlSerialize>)
    requires CmpItems(xs, ys) == Less && CmpItems(ys, zs) == Less
    ensures CmpItems(xs, zs) == Less
    decreases xs
  {
    if xs != [] && ys != [] && zs != [] {
      CmpEqual(xs[0], ys[0]);
      CmpEqual(ys[0], zs[0]);
      var o1, o2 := Cmp(xs[0], ys[0]), Cmp(ys[0], zs[0]);
      if o1 == Less && o2 == Less {
        CmpTrans(xs[0], ys[0], zs[0]);
      } else if o1 == Equal && o2 == Equal {
        CmpItemsTrans(xs[1..], ys[1..], zs[1..]);
      }
    }
  }

  lemma {:induction false} CmpEntryTrans(e: Pair<YamlSerialize, YamlSerialize>, f: Pair<YamlSerialize, YamlSerialize>, g: Pair<YamlSerialize, YamlSerialize>)
    requires CmpEntry(e, f) == Less && CmpEntry(f, g) == Less
    ensures CmpEntry(e, g) == Less
    decreases e
  {
    CmpEqual(e.key, f.key);
    CmpEqual(f.key, g.key);
    var o1, o2 := Cmp(e.key, f.key), Cmp(f.key, g.key);
    if o1 == Less && o2 == Less {
      CmpTrans(e.key, f.key, g.key);
    } else if o1 == Equal && o2 == Equal {
      CmpTrans(e.value, f.value, g.value);
    }
  }

  lemma {:induction false} CmpEntriesTrans(es: seq<Pair<YamlSerialize, YamlSerialize>>, fs: seq<Pair<YamlSerialize, YamlSerialize>>, gs: seq<Pair<YamlSerialize, YamlSerialize>>)
    requires CmpEntries(es, fs) == Less && CmpEntries(fs, gs) == Less
    ensures CmpEntries(es, gs) == Less
    decreases es
  {
    if es != [] && fs != [] && gs != [] {
      CmpEntryEqual(es[0], fs[0]);
      CmpEntryEqual(fs[0], gs[0]);
      var o1, o2 := CmpEntry(es[0], fs[0]), CmpEntry(fs[0], gs[0]);
      if o1 == Less && o2 == Less {
        CmpEntryTrans(es[0], fs[0], gs[0]);
      } else if o1 == Equal && o2 == Equal {
        CmpEntriesTrans(es[1..], fs[1..], gs[1..]);
      }
    }
  }

  // The total order

  /** `<=` is reflexive, antisymmetric, transitive and total. */
  lemma LeIsTotalOrder(a: YamlSerialize, b: YamlSerialize, c: YamlSerialize)
    ensures Le(a, a)
    ensures Le(a, b) && Le(b, a) ==> a == b
    ensures Le(a, b) && Le(b, c) ==> Le(a, c)
    ensures Le(a, b) || Le(b, a)
  {
    CmpEqual(a, a);
    CmpEqual(a, b);
    CmpEqual(b, c);
    CmpReverse(a, b);
    if Cmp(a, b) == Less && Cmp(b, c) == Less {
      CmpTrans(a, b, c);
    }
  }

  /** Floats compare as text: equal numbers written differently are different keys. */
  lemma RealComparesAsText()
    ensures Cmp(Real("1.0"), Real("1.00")) == Less
    ensures Cmp(Real("1.5"), Real("1.50")) != Equal
    ensures Cmp(Real("10.0"), Real("9.0")) == Less
  {
  }
}
