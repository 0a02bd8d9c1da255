/** The radix tree of src/misc/radix_tree.c as a value: two bits of a 64-bit key per level, a leaf
    wherever a single key remains.
 */
module RadixSpec {
  import opened Bits

  const LEVELS: nat := 32

  type Value = nat  // a pointer; 0 is NULL

  datatype Tree =
    | Empty
    | Leaf(key: nat, value: Value)
    | Inner(k0: Tree, k1: Tree, k2: Tree, k3: Tree)

  // ---------- Keys ----------

  ghost predicate IsKey(k: nat) { k < Pow2(2 * LEVELS) }

  /** The leading d digits of a key. */
  ghost function Prefix(k: nat, d: nat): nat
    requires d <= LEVELS
  {
    k / Pow2(2 * LEVELS - 2 * d)
  }

  /** (key & mask) >> shift at depth d. */
  function Digit(k: nat, d: nat): (i: nat)
    requires d < LEVELS
    ensures i < 4
  {
    k / Pow2(2 * LEVELS - 2 * (d + 1)) % 4
  }

  lemma PrefixStep(k: nat, d: nat)
    requires d < LEVELS
    ensures Prefix(k, d + 1) == 4 * Prefix(k, d) + Digit(k, d)
  {
    hide Pow2;
    var m := Pow2(2 * LEVELS - 2 * (d + 1));
    Pow2Add(2 * LEVELS - 2 * (d + 1), 2);
    Pow2Values();
    QuarterStep(k, m);
  }

  lemma QuarterStep(k: nat, m: nat)
    requires m > 0
    ensures k / m == 4 * (k / (m * 4)) + k / m % 4
  {
    QuotientHalf(k, m);
    QuotientHalf(k, 2 * m);
    assert m * 4 == 2 * (2 * m);
  }

  ghost predicate Agree(a: nat, b: nat, d: nat)
    requires d <= LEVELS
  {
    Prefix(a, d) == Prefix(b, d)
  }

  lemma AgreeStep(a: nat, b: nat, d: nat)
    requires d < LEVELS
    ensures Agree(a, b, d + 1) <==> Agree(a, b, d) && Digit(a, d) == Digit(b, d)
  {
    PrefixStep(a, d);
    PrefixStep(b, d);
  }

  /** 32 digits are the whole key. */
  lemma AgreeEnds(a: nat, b: nat)
    requires IsKey(a) && IsKey(b)
    ensures Agree(a, b, 0)
    ensures Agree(a, b, LEVELS) ==> a == b
  {
    DivUnique(a, Pow2(2 * LEVELS), 0, a);
    DivUnique(b, Pow2(2 * LEVELS), 0, b);
  }

  // ---------- Trees ----------

  function Kid(t: Tree, i: nat): Tree
    requires t.Inner? && i < 4
  {
    if i == 0 then t.k0 else if i == 1 then t.k1 else if i == 2 then t.k2 else t.k3
  }

  function With(t: Tree, i: nat, x: Tree): (r: Tree)
    requires t.Inner? && i < 4
    ensures r.Inner? && Kid(r, i) == x && forall j: nat :: j < 4 && j != i ==> Kid(r, j) == Kid(t, j)
  {
    if i == 0 then t.(k0 := x) else if i == 1 then t.(k1 := x) else if i == 2 then t.(k2 := x) else t.(k3 := x)
  }

  const NoKids: Tree := Inner(Empty, Empty, Empty, Empty)

  ghost function Contents(t: Tree): map<nat, Value> {
    match t
    case Empty => map[]
    case Leaf(k, v) => map[k := v]
    case Inner(k0, k1, k2, k3) => Contents(k0) + Contents(k1) + Contents(k2) + Contents(k3)
  }

  function Bit(b: bool): nat { if b then 1 else 0 }

  /** How many children there are. */
  function Count(t: Tree): nat
    requires t.Inner?
  {
    Bit(!t.k0.Empty?) + Bit(!t.k1.Empty?) + Bit(!t.k2.Empty?) + Bit(!t.k3.Empty?)
  }

  /** The last child in index order, as the scan of rxtree_delete_node leaves it. */
  function LastKid(t: Tree): Tree
    requires t.Inner?
  {
    if !t.k3.Empty? then t.k3 else if !t.k2.Empty? then t.k2 else if !t.k1.Empty? then t.k1 else t.k0
  }

  /** An inner node that is worth having: two children, or a single child that branches further down. */
  ghost predicate Branching(t: Tree)
    requires t.Inner?
  {
    Count(t) >= 2 || (Count(t) == 1 && LastKid(t).Inner?)
  }

  ghost predicate DigitIs(t: Tree, d: nat, i: nat)
    requires d < LEVELS
  {
    forall k :: k in Contents(t) ==> Digit(k, d) == i
  }

  ghost predicate Wf(t: Tree, d: nat)
    requires d <= LEVELS
    decreases t
  {
    match t
    case Empty => true
    case Leaf(k, _) => IsKey(k)
    case Inner(k0, k1, k2, k3) =>
      && d < LEVELS && Branching(t)
      && Wf(k0, d + 1) && Wf(k1, d + 1) && Wf(k2, d + 1) && Wf(k3, d + 1)
      && DigitIs(k0, d, 0) && DigitIs(k1, d, 1) && DigitIs(k2, d, 2) && DigitIs(k3, d, 3)
  }

  /** All keys of t share the leading d digits of key. */
  ghost predicate Under(t: Tree, key: nat, d: nat)
    requires d <= LEVELS
  {
    forall k :: k in Contents(t) ==> Agree(k, key, d)
  }

  lemma WfKid(t: Tree, d: nat, i: nat)
    requires d <= LEVELS && t.Inner? && Wf(t, d) && i < 4
    ensures d < LEVELS && Wf(Kid(t, i), d + 1) && DigitIs(Kid(t, i), d, i)
  {
  }

  /** A key is where its digit says, or nowhere. */
  lemma ContentsKid(t: Tree, d: nat, k: nat)
    requires d < LEVELS && t.Inner? && forall i: nat :: i < 4 ==> DigitIs(Kid(t, i), d, i)
    ensures k in Contents(t) <==> k in Contents(Kid(t, Digit(k, d)))
    ensures k in Contents(t) ==> Contents(t)[k] == Contents(Kid(t, Digit(k, d)))[k]
  {
    hide Digit;
    assert DigitIs(Kid(t, 0), d, 0) && DigitIs(Kid(t, 1), d, 1) && DigitIs(Kid(t, 2), d, 2) && DigitIs(Kid(t, 3), d, 3);
  }

  lemma DigitsOfWf(t: Tree, d: nat)
    requires d <= LEVELS && t.Inner? && Wf(t, d)
    ensures d < LEVELS && forall i: nat :: i < 4 ==> DigitIs(Kid(t, i), d, i)
  {
  }

  lemma {:induction false} HasKey(t: Tree, d: nat) returns (k: nat)
    requires d <= LEVELS && Wf(t, d) && !t.Empty?
    ensures k in Contents(t)
    decreases t
  {
    match t
    case Leaf(key, _) => k := key;
    case Inner(k0, k1, k2, k3) =>
      if !k3.Empty? { k := HasKey(k3, d + 1); }
      else if !k2.Empty? { k := HasKey(k2, d + 1); }
      else if !k1.Empty? { k := HasKey(k1, d + 1); }
      else { k := HasKey(k0, d + 1); }
  }

  lemma KidHasKey(t: Tree, d: nat, i: nat) returns (k: nat)
    requires d <= LEVELS && t.Inner? && Wf(t, d) && i < 4 && !Kid(t, i).Empty?
    ensures k in Contents(t) && d < LEVELS && Digit(k, d) == i
  {
    WfKid(t, d, i);
    k := HasKey(Kid(t, i), d + 1);
    DigitsOfWf(t, d);
    ContentsKid(t, d, k);
  }

  /** An inner node stands for at least two keys. */
  lemma {:induction false} TwoKeys(t: Tree, d: nat) returns (a: nat, b: nat)
    requires d <= LEVELS && t.Inner? && Wf(t, d)
    ensures a != b && a in Contents(t) && b in Contents(t)
    decreases t
  {
    hide Contents, Digit;
    if Count(t) >= 2 {
      var i := if !t.k0.Empty? then 0 else if !t.k1.Empty? then 1 else 2;
      var j := if !t.k3.Empty? then 3 else if !t.k2.Empty? then 2 else 1;
      a := KidHasKey(t, d, i);
      b := KidHasKey(t, d, j);
    } else {
      var i := if !t.k3.Empty? then 3 else if !t.k2.Empty? then 2 else if !t.k1.Empty? then 1 else 0;
      WfKid(t, d, i);
      a, b := TwoKeys(Kid(t, i), d + 1);
      DigitsOfWf(t, d);
      ContentsKid(t, d, a);
      ContentsKid(t, d, b);
    }
  }

  ghost predicate AtMostOne(keys: set<nat>) { forall a, b :: a in keys && b in keys ==> a == b }

  /** The key set tells the kind of node. */
  lemma Kind(t: Tree, d: nat)
    requires d <= LEVELS && Wf(t, d)
    ensures t.Empty? <==> Contents(t).Keys == {}
    ensures t.Inner? <==> !AtMostOne(Contents(t).Keys)
  {
    if t.Inner? {
      var a, b := TwoKeys(t, d);
      assert a in Contents(t).Keys && b in Contents(t).Keys;
    } else if t.Leaf? {
      assert t.key in Contents(t).Keys;
    }
  }

  /** The tree without its values. */
  function Shape(t: Tree): Tree {
    match t
    case Empty => Empty
    case Leaf(k, _) => Leaf(k, 0)
    case Inner(k0, k1, k2, k3) => Inner(Shape(k0), Shape(k1), Shape(k2), Shape(k3))
  }

  /** The shape is a function of the key set: neither insertion order nor deleted keys leave a trace. */
  lemma {:induction false} SameKeysSameShape(t: Tree, u: Tree, d: nat)
    requires d <= LEVELS && Wf(t, d) && Wf(u, d) && Contents(t).Keys == Contents(u).Keys
    ensures Shape(t) == Shape(u)
    ensures Contents(t) == Contents(u) ==> t == u
    decreases t
  {
    hide Contents, Wf, AtMostOne;
    if t.Inner? {
      Kind(t, d);
      Kind(u, d);
      SameKid(t, u, d, 0);
      SameKid(t, u, d, 1);
      SameKid(t, u, d, 2);
      SameKid(t, u, d, 3);
      SameKeysSameShape(t.k0, u.k0, d + 1);
      SameKeysSameShape(t.k1, u.k1, d + 1);
      SameKeysSameShape(t.k2, u.k2, d + 1);
      SameKeysSameShape(t.k3, u.k3, d + 1);
    } else {
      SameSmall(t, u, d);
    }
  }

  lemma SameSmall(t: Tree, u: Tree, d: nat)
    requires d <= LEVELS && Wf(t, d) && Wf(u, d) && Contents(t).Keys == Contents(u).Keys && !t.Inner?
    ensures Shape(t) == Shape(u) && (Contents(t) == Contents(u) ==> t == u)
  {
    Kind(t, d);
    Kind(u, d);
    if t.Leaf? { assert t.key in Contents(u).Keys; }
  }

  lemma SameKid(t: Tree, u: Tree, d: nat, i: nat)
    requires d <= LEVELS && t.Inner? && u.Inner? && Wf(t, d) && Wf(u, d) && i < 4
    requires Contents(t).Keys == Contents(u).Keys
    ensures Contents(Kid(t, i)).Keys == Contents(Kid(u, i)).Keys
    ensures Contents(t) == Contents(u) ==> Contents(Kid(t, i)) == Contents(Kid(u, i))
    ensures d < LEVELS && Wf(Kid(t, i), d + 1) && Wf(Kid(u, i), d + 1)
  {
    WfKid(t, d, i);
    WfKid(u, d, i);
    hide Contents;
    DigitsOfWf(t, d);
    DigitsOfWf(u, d);
    forall k
      ensures k in Contents(Kid(t, i)) <==> k in Contents(Kid(u, i))
      ensures k in Contents(Kid(t, i)) && Contents(t) == Contents(u) ==> Contents(Kid(t, i))[k] == Contents(Kid(u, i))[k]
    {
      hide Contents, Digit, Kid;
      assert DigitIs(Kid(t, i), d, i) && DigitIs(Kid(u, i), d, i);
      if k in Contents(Kid(t, i)) || k in Contents(Kid(u, i)) {
        ContentsKid(t, d, k);
        ContentsKid(u, d, k);
        assert k in Contents(t).Keys <==> k in Contents(u).Keys;
      }
    }
  }

  // ---------- Insertion ----------

  /** rxtree_insert_node when no allocation fails. */
  ghost function Insert(t: Tree, key: nat, v: Value, d: nat): Tree
    requires d <= LEVELS && IsKey(key) && Wf(t, d) && Under(t, key, d)
    decreases LEVELS - d
  {
    match t
    case Empty => Leaf(key, v)
    case Leaf(k, w) =>
      if k == key then Leaf(key, v)
      else
        SplitDepth(t, key, d);
        var i, j := Digit(key, d), Digit(k, d);
        if i == j then
          SplitUnder(key, v, k, d);
          With(NoKids, i, Insert(Leaf(key, v), k, w, d + 1))
        else With(With(NoKids, i, Leaf(key, v)), j, Leaf(k, w))
    case Inner(_, _, _, _) =>
      var i := Digit(key, d);
      UnderKid(t, key, d);
      With(t, i, Insert(Kid(t, i), key, v, d + 1))
  }

  /** The way down to the key ends at the leaf of another key. */
  ghost predicate Meets(t: Tree, key: nat, d: nat)
    requires d <= LEVELS && Wf(t, d)
    decreases t
  {
    match t
    case Empty => false
    case Leaf(k, _) => k != key
    case Inner(_, _, _, _) =>
      KeyInKid(t, key, d);
      Meets(Kid(t, Digit(key, d)), key, d + 1)
  }

  lemma MeetsKid(t: Tree, key: nat, d: nat)
    requires d <= LEVELS && t.Inner? && Wf(t, d)
    ensures d < LEVELS && Wf(Kid(t, Digit(key, d)), d + 1) && (Meets(t, key, d) <==> Meets(Kid(t, Digit(key, d)), key, d + 1))
  {
    KeyInKid(t, key, d);
  }

  /** Two different keys part before the digits run out. */
  lemma SplitDepth(t: Tree, key: nat, d: nat)
    requires d <= LEVELS && t.Leaf? && t.key != key && IsKey(key) && Wf(t, d) && Under(t, key, d)
    ensures d < LEVELS && Agree(t.key, key, d)
  {
    assert t.key in Contents(t);
    AgreeEnds(t.key, key);
  }

  lemma SplitUnder(key: nat, v: Value, k: nat, d: nat)
    requires d < LEVELS && IsKey(key) && IsKey(k) && Agree(k, key, d) && Digit(key, d) == Digit(k, d)
    ensures Wf(Leaf(key, v), d + 1) && Under(Leaf(key, v), k, d + 1)
  {
    AgreeStep(key, k, d);
  }

  lemma UnderKid(t: Tree, key: nat, d: nat)
    requires d <= LEVELS && t.Inner? && Wf(t, d) && Under(t, key, d)
    ensures d < LEVELS && Wf(Kid(t, Digit(key, d)), d + 1) && Under(Kid(t, Digit(key, d)), key, d + 1)
  {
    var i := Digit(key, d);
    WfKid(t, d, i);
    hide Contents, Wf, Kid, Agree, Digit;
    DigitsOfWf(t, d);
    forall k | k in Contents(Kid(t, i)) ensures Agree(k, key, d + 1) {
      ContentsKid(t, d, k);
      AgreeStep(k, key, d);
    }
  }

  lemma KidUpdate(t: Tree, d: nat, key: nat, x: Tree, v: Value)
    requires d < LEVELS && t.Inner? && forall i: nat :: i < 4 ==> DigitIs(Kid(t, i), d, i)
    requires Contents(x) == Contents(Kid(t, Digit(key, d)))[key := v]
    ensures var u := With(t, Digit(key, d), x);
            (forall i: nat :: i < 4 ==> DigitIs(Kid(u, i), d, i)) && Contents(u) == Contents(t)[key := v]
  {
    hide Contents, Digit, With, Kid;
    var j := Digit(key, d);
    var u := With(t, j, x);
    forall i: nat | i < 4 ensures DigitIs(Kid(u, i), d, i) {
      assert DigitIs(Kid(t, i), d, i);
    }
    forall k
      ensures k in Contents(u) <==> k in Contents(t)[key := v]
      ensures k in Contents(u) ==> Contents(u)[k] == Contents(t)[key := v][k]
    {
      ContentsKid(t, d, k);
      ContentsKid(u, d, k);
    }
  }

  lemma BranchingWith(t: Tree, i: nat, x: Tree)
    requires t.Inner? && i < 4 && Branching(t) && !x.Empty? && (Kid(t, i).Inner? ==> x.Inner?)
    ensures Branching(With(t, i, x))
  {
  }

  lemma WfInner(t: Tree, d: nat)
    requires d < LEVELS && t.Inner? && Branching(t)
    requires forall i: nat :: i < 4 ==> Wf(Kid(t, i), d + 1) && DigitIs(Kid(t, i), d, i)
    ensures Wf(t, d)
  {
    assert Wf(Kid(t, 0), d + 1) && Wf(Kid(t, 1), d + 1) && Wf(Kid(t, 2), d + 1) && Wf(Kid(t, 3), d + 1);
    assert DigitIs(Kid(t, 0), d, 0) && DigitIs(Kid(t, 1), d, 1) && DigitIs(Kid(t, 2), d, 2) && DigitIs(Kid(t, 3), d, 3);
  }

  /** Insertion updates the map at one key and keeps the normal form. */
  lemma {:induction false} InsertCorrect(t: Tree, key: nat, v: Value, d: nat)
    requires d <= LEVELS && IsKey(key) && Wf(t, d) && Under(t, key, d)
    ensures var r := Insert(t, key, v, d);
            && Wf(r, d) && Contents(r) == Contents(t)[key := v]
            && !r.Empty? && (t.Inner? || (t.Leaf? && t.key != key) ==> r.Inner?)
    decreases LEVELS - d
  {
    hide With, Digit, Agree;
    match t
    case Empty =>
    case Leaf(k, w) =>
      if k != key { InsertSplit(key, v, k, w, d); }
    case Inner(_, _, _, _) =>
      var i := Digit(key, d);
      UnderKid(t, key, d);
      InsertCorrect(Kid(t, i), key, v, d + 1);
      InsertKid(t, key, v, d, Insert(Kid(t, i), key, v, d + 1));
  }

  lemma InsertKid(t: Tree, key: nat, v: Value, d: nat, x: Tree)
    requires d < LEVELS && t.Inner? && Wf(t, d) && Wf(x, d + 1)
    requires Contents(x) == Contents(Kid(t, Digit(key, d)))[key := v]
    requires !x.Empty? && (Kid(t, Digit(key, d)).Inner? ==> x.Inner?)
    ensures var r := With(t, Digit(key, d), x);
            Wf(r, d) && Contents(r) == Contents(t)[key := v]
  {
    var i := Digit(key, d);
    DigitsOfWf(t, d);
    KidUpdate(t, d, key, x, v);
    BranchingWith(t, i, x);
    forall j: nat | j < 4 ensures Wf(Kid(With(t, i, x), j), d + 1) {
      WfKid(t, d, j);
    }
    WfInner(With(t, i, x), d);
  }

  /** Splitting a leaf: down to the first digit in which the two keys differ. */
  lemma {:induction false} InsertSplit(key: nat, v: Value, k: nat, w: Value, d: nat)
    requires d <= LEVELS && IsKey(key) && IsKey(k) && k != key && Under(Leaf(k, w), key, d)
    ensures var r := Insert(Leaf(k, w), key, v, d);
            Wf(r, d) && Contents(r) == map[k := w, key := v] && r.Inner?
    decreases LEVELS - d
  {
    hide With, Digit, Contents, Agree, Branching;
    LeafSplit(key, v, k, w, d);
    if Digit(key, d) == Digit(k, d) {
      InsertSplit(k, w, key, v, d + 1);
      assert map[key := v, k := w] == map[k := w, key := v];
      SplitSame(key, v, k, w, d, Insert(Leaf(key, v), k, w, d + 1));
    } else {
      SplitApart(key, v, k, w, d);
    }
  }

  lemma LeafSplit(key: nat, v: Value, k: nat, w: Value, d: nat)
    requires d <= LEVELS && IsKey(key) && IsKey(k) && k != key && Under(Leaf(k, w), key, d)
    ensures d < LEVELS && (Digit(key, d) == Digit(k, d) ==> Under(Leaf(key, v), k, d + 1))
    ensures Insert(Leaf(k, w), key, v, d)
         == if Digit(key, d) == Digit(k, d) then With(NoKids, Digit(key, d), Insert(Leaf(key, v), k, w, d + 1))
            else With(With(NoKids, Digit(key, d), Leaf(key, v)), Digit(k, d), Leaf(k, w))
  {
    hide With, Digit, Agree;
    SplitDepth(Leaf(k, w), key, d);
    if Digit(key, d) == Digit(k, d) { SplitUnder(key, v, k, d); }
  }

  lemma EmptyContents()
    ensures Contents(Empty) == map[]
  {
  }

  lemma OnlyKid(i: nat, x: Tree)
    requires i < 4 && x.Inner?
    ensures Branching(With(NoKids, i, x)) && Contents(With(NoKids, i, x)) == Contents(x)
    ensures forall n: nat :: n < 4 && n != i ==> Kid(With(NoKids, i, x), n) == Empty
  {
    var r := With(NoKids, i, x);
    assert Contents(Empty) == map[];
    assert Contents(r) == Contents(r.k0) + Contents(r.k1) + Contents(r.k2) + Contents(r.k3);
  }

  lemma SplitSame(key: nat, v: Value, k: nat, w: Value, d: nat, x: Tree)
    requires d < LEVELS && k != key && Digit(key, d) == Digit(k, d)
    requires Wf(x, d + 1) && x.Inner? && Contents(x) == map[k := w, key := v]
    ensures var r := With(NoKids, Digit(key, d), x);
            Wf(r, d) && Contents(r) == map[k := w, key := v]
  {
    hide Digit;
    var i := Digit(key, d);
    var r := With(NoKids, i, x);
    OnlyKid(i, x);
    EmptyContents();
    hide Contents, Branching, With, Kid;
    forall n: nat | n < 4 ensures Wf(Kid(r, n), d + 1) && DigitIs(Kid(r, n), d, n) {
    }
    WfInner(r, d);
  }

  lemma SplitApart(key: nat, v: Value, k: nat, w: Value, d: nat)
    requires d < LEVELS && IsKey(key) && IsKey(k) && Digit(key, d) != Digit(k, d)
    ensures var r := With(With(NoKids, Digit(key, d), Leaf(key, v)), Digit(k, d), Leaf(k, w));
            Wf(r, d) && Contents(r) == map[k := w, key := v]
  {
    var i, j := Digit(key, d), Digit(k, d);
    hide Digit;
    var r := With(With(NoKids, i, Leaf(key, v)), j, Leaf(k, w));
    assert Contents(r) == map[k := w, key := v];
    forall n: nat | n < 4 ensures Wf(Kid(r, n), d + 1) && DigitIs(Kid(r, n), d, n) {
      if n == i { assert Kid(r, n) == Leaf(key, v); }
      else if n == j { assert Kid(r, n) == Leaf(k, w); }
      else { assert Kid(r, n) == Empty; }
    }
    WfInner(r, d);
  }

  // ---------- Lookup and deletion ----------

  /** rxtree_lookup: NULL when the key is absent. */
  ghost function Lookup(t: Tree, key: nat, d: nat): Value
    requires d <= LEVELS && Wf(t, d)
    decreases t
  {
    match t
    case Empty => 0
    case Leaf(k, v) => if k == key then v else 0
    case Inner(_, _, _, _) =>
      WfKid(t, d, Digit(key, d));
      Lookup(Kid(t, Digit(key, d)), key, d + 1)
  }

  lemma {:induction false} LookupCorrect(t: Tree, key: nat, d: nat)
    requires d <= LEVELS && Wf(t, d)
    ensures Lookup(t, key, d) == if key in Contents(t) then Contents(t)[key] else 0
    decreases t
  {
    if t.Inner? {
      hide Contents, Digit;
      DigitsOfWf(t, d);
      WfKid(t, d, Digit(key, d));
      ContentsKid(t, d, key);
      LookupCorrect(Kid(t, Digit(key, d)), key, d + 1);
    }
  }

  /** What rxtree_delete_node does with a node whose child has just changed. */
  function Collapse(t: Tree): Tree
    requires t.Inner?
  {
    if Count(t) == 1 && LastKid(t).Leaf? then LastKid(t) else if Count(t) == 0 then Empty else t
  }

  ghost function Delete(t: Tree, key: nat, d: nat): Tree
    requires d <= LEVELS && Wf(t, d) && key in Contents(t)
    decreases t
  {
    match t
    case Leaf(_, _) => Empty
    case Inner(_, _, _, _) =>
      var i := Digit(key, d);
      KeyInKid(t, key, d);
      Collapse(With(t, i, Delete(Kid(t, i), key, d + 1)))
  }

  lemma KeyInKid(t: Tree, key: nat, d: nat)
    requires d <= LEVELS && t.Inner? && Wf(t, d)
    ensures d < LEVELS && Wf(Kid(t, Digit(key, d)), d + 1)
    ensures key in Contents(t) <==> key in Contents(Kid(t, Digit(key, d)))
  {
    DigitsOfWf(t, d);
    WfKid(t, d, Digit(key, d));
    ContentsKid(t, d, key);
  }

  lemma KidRemove(t: Tree, d: nat, key: nat, x: Tree)
    requires d < LEVELS && t.Inner? && forall i: nat :: i < 4 ==> DigitIs(Kid(t, i), d, i)
    requires Contents(x) == Contents(Kid(t, Digit(key, d))) - {key}
    ensures var u := With(t, Digit(key, d), x);
            (forall i: nat :: i < 4 ==> DigitIs(Kid(u, i), d, i)) && Contents(u) == Contents(t) - {key}
  {
    hide Contents, Digit, With, Kid;
    var j := Digit(key, d);
    var u := With(t, j, x);
    forall i: nat | i < 4 ensures DigitIs(Kid(u, i), d, i) {
      assert DigitIs(Kid(t, i), d, i);
    }
    forall k
      ensures k in Contents(u) <==> k in Contents(t) - {key}
      ensures k in Contents(u) ==> Contents(u)[k] == (Contents(t) - {key})[k]
    {
      ContentsKid(t, d, k);
      ContentsKid(u, d, k);
    }
  }

  lemma CollapseContents(t: Tree)
    requires t.Inner?
    ensures Contents(Collapse(t)) == Contents(t)
  {
  }

  lemma CollapseWf(t: Tree, d: nat)
    requires d < LEVELS && t.Inner?
    requires forall i: nat :: i < 4 ==> Wf(Kid(t, i), d + 1) && DigitIs(Kid(t, i), d, i)
    ensures Wf(Collapse(t), d)
  {
    if Count(t) >= 2 || (Count(t) == 1 && !LastKid(t).Leaf?) {
      WfInner(t, d);
    } else {
      assert Wf(Kid(t, 0), d + 1) && Wf(Kid(t, 1), d + 1) && Wf(Kid(t, 2), d + 1) && Wf(Kid(t, 3), d + 1);
    }
  }

  /** Deletion removes one key from the map and restores the normal form. */
  lemma {:induction false} DeleteCorrect(t: Tree, key: nat, d: nat)
    requires d <= LEVELS && Wf(t, d) && key in Contents(t)
    ensures Wf(Delete(t, key, d), d) && Contents(Delete(t, key, d)) == Contents(t) - {key}
    decreases t
  {
    hide Digit, With, Collapse;
    if t.Inner? {
      KeyInKid(t, key, d);
      DeleteCorrect(Kid(t, Digit(key, d)), key, d + 1);
      DeleteKid(t, key, d, Delete(Kid(t, Digit(key, d)), key, d + 1));
    }
  }

  lemma DeleteKid(t: Tree, key: nat, d: nat, x: Tree)
    requires d < LEVELS && t.Inner? && Wf(t, d) && Wf(x, d + 1)
    requires Contents(x) == Contents(Kid(t, Digit(key, d))) - {key}
    ensures var r := Collapse(With(t, Digit(key, d), x));
            Wf(r, d) && Contents(r) == Contents(t) - {key}
  {
    hide Contents, Digit, With, Kid, Collapse, DigitIs;
    var i := Digit(key, d);
    var u := With(t, i, x);
    DigitsOfWf(t, d);
    KidRemove(t, d, key, x);
    forall j: nat | j < 4 ensures Wf(Kid(u, j), d + 1) { WfKid(t, d, j); }
    CollapseContents(u);
    CollapseWf(u, d);
  }

  // ---------- No trace of history ----------

  /** Inserting two keys in either order gives the same tree; so does inserting a new key and
      deleting it again. */
  lemma InsertCommutes(t: Tree, a: nat, v: Value, b: nat, w: Value)
    requires IsKey(a) && IsKey(b) && a != b && Wf(t, 0)
    ensures Under(t, a, 0) && Under(t, b, 0)
    ensures var ta, tb := Insert(t, a, v, 0), Insert(t, b, w, 0);
            Wf(ta, 0) && Wf(tb, 0) && Under(ta, b, 0) && Under(tb, a, 0) && Insert(ta, b, w, 0) == Insert(tb, a, v, 0)
  {
    hide Insert, Wf, Under, Contents, IsKey, Shape;
    UnderRoot(t, a);
    UnderRoot(t, b);
    InsertCorrect(t, a, v, 0);
    InsertCorrect(t, b, w, 0);
    var ta, tb := Insert(t, a, v, 0), Insert(t, b, w, 0);
    UnderRoot(ta, b);
    UnderRoot(tb, a);
    InsertCorrect(ta, b, w, 0);
    InsertCorrect(tb, a, v, 0);
    assert Contents(t)[a := v][b := w] == Contents(t)[b := w][a := v];
    SameKeysSameShape(Insert(ta, b, w, 0), Insert(tb, a, v, 0), 0);
  }

  lemma InsertThenDelete(t: Tree, a: nat, v: Value)
    requires IsKey(a) && Wf(t, 0) && a !in Contents(t)
    ensures Under(t, a, 0)
    ensures var ta := Insert(t, a, v, 0);
            Wf(ta, 0) && a in Contents(ta) && Delete(ta, a, 0) == t
  {
    hide Insert, Delete, Wf, Under, Contents, IsKey, Shape;
    UnderRoot(t, a);
    InsertCorrect(t, a, v, 0);
    var ta := Insert(t, a, v, 0);
    DeleteCorrect(ta, a, 0);
    assert Contents(t)[a := v] - {a} == Contents(t);
    SameKeysSameShape(Delete(ta, a, 0), t, 0);
  }

  lemma {:induction false} KeysAreKeys(t: Tree, d: nat, k: nat)
    requires d <= LEVELS && Wf(t, d) && k in Contents(t)
    ensures IsKey(k)
    decreases t
  {
    if t.Inner? {
      KeyInKid(t, k, d);
      KeysAreKeys(Kid(t, Digit(k, d)), d + 1, k);
    }
  }

  lemma UnderRoot(t: Tree, key: nat)
    requires IsKey(key) && Wf(t, 0)
    ensures Under(t, key, 0)
  {
    forall k | k in Contents(t) ensures Agree(k, key, 0) {
      KeysAreKeys(t, 0, k);
      AgreeEnds(k, key);
    }
  }

  /** No path is longer than 32 levels. */
  ghost function Depth(t: Tree): nat {
    match t
    case Inner(k0, k1, k2, k3) =>
      var a, b := Depth(k0), Depth(k1);
      var c, e := Depth(k2), Depth(k3);
      var m, n := if a > b then a else b, if c > e then c else e;
      1 + if m > n then m else n
    case _ => 0
  }

  lemma {:induction false} DepthBounded(t: Tree, d: nat)
    requires d <= LEVELS && Wf(t, d)
    ensures d + Depth(t) <= LEVELS
    decreases t
  {
    hide Contents, Branching, DigitIs;
    if t.Inner? {
      DepthBounded(t.k0, d + 1);
      DepthBounded(t.k1, d + 1);
      DepthBounded(t.k2, d + 1);
      DepthBounded(t.k3, d + 1);
    }
  }
}
