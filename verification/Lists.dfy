/** Lists of numbered objects that hold each object at most once, as the kernel's linked lists do. */
module Lists {

  ghost predicate NoDup(q: seq<nat>) { forall i, j :: 0 <= i < j < |q| ==> q[i] != q[j] }

  lemma NoDupParts(a: seq<nat>, b: seq<nat>)
    ensures NoDup(a + b) <==> NoDup(a) && NoDup(b) && forall p :: !(p in a && p in b)
  {
    if NoDup(a + b) {
      forall i, j | 0 <= i < j < |a| ensures a[i] != a[j] { assert (a + b)[i] == a[i] && (a + b)[j] == a[j]; }
      forall i, j | 0 <= i < j < |b| ensures b[i] != b[j] {
        assert (a + b)[|a| + i] == b[i] && (a + b)[|a| + j] == b[j];
      }
      forall i, j | 0 <= i < |a| && 0 <= j < |b| ensures a[i] != b[j] {
        assert (a + b)[i] == a[i] && (a + b)[|a| + j] == b[j];
      }
    }
    if NoDup(a) && NoDup(b) && forall p :: !(p in a && p in b) {
      forall i, j | 0 <= i < j < |a + b| ensures (a + b)[i] != (a + b)[j] {
        assert i < |a| ==> a[i] in a;
        assert j >= |a| ==> b[j - |a|] in b;
      }
    }
  }

  lemma PushNoDup(l: seq<nat>, x: nat)
    requires NoDup(l) && x !in l
    ensures NoDup([x] + l)
  {
    forall i, j | 0 <= i < j < |[x] + l| ensures ([x] + l)[i] != ([x] + l)[j] {
      if i == 0 { assert ([x] + l)[j] in l; }
    }
  }

  lemma AppendNoDup(l: seq<nat>, x: nat)
    requires NoDup(l) && x !in l
    ensures NoDup(l + [x])
  {
  }

  lemma Assoc<T>(a: seq<T>, b: seq<T>, c: seq<T>)
    ensures (a + b) + c == a + (b + c)
  {
  }

  /** Distinct numbers among n in a row are at most n many. */
  lemma {:induction false} Pigeonhole(q: seq<nat>, lo: nat, n: nat)
    requires NoDup(q) && forall i :: 0 <= i < |q| ==> lo <= q[i] < lo + n
    ensures |q| <= n
    decreases n
  {
    assert q != [] ==> lo <= q[0] < lo + n;
    if n > 0 {
      if i :| 0 <= i < |q| && q[i] == lo + n - 1 {
        var rest := q[..i] + q[i + 1..];
        assert forall j :: 0 <= j < |rest| ==> rest[j] == q[if j < i then j else j + 1];
        Pigeonhole(rest, lo, n - 1);
      } else {
        Pigeonhole(q, lo, n - 1);
      }
    }
  }

  /** list_del: s without x. */
  function Remove(s: seq<nat>, x: nat): (r: seq<nat>) {
    if s == [] then [] else if s[0] == x then s[1..] else [s[0]] + Remove(s[1..], x)
  }

  lemma {:induction false} RemoveParts(s: seq<nat>, x: nat)
    requires NoDup(s)
    ensures NoDup(Remove(s, x)) && forall y :: y in Remove(s, x) <==> y in s && y != x
    ensures |Remove(s, x)| == if x in s then |s| - 1 else |s|
  {
    if s != [] {
      assert NoDup([s[0]]);
      hide NoDup;
      assert s == [s[0]] + s[1..];
      NoDupParts([s[0]], s[1..]);
      if s[0] != x {
        RemoveParts(s[1..], x);
        NoDupParts([s[0]], Remove(s[1..], x));
      }
    }
  }

  /** list_del, then list_add or list_add_tail: the same members, in another order. */
  lemma MoveToFront(s: seq<nat>, x: nat)
    requires NoDup(s) && x in s
    ensures NoDup([x] + Remove(s, x)) && forall y :: y in [x] + Remove(s, x) <==> y in s
  {
    assert NoDup([x]);
    RemoveParts(s, x);
    hide NoDup;
    NoDupParts([x], Remove(s, x));
  }

  lemma MoveToBack(s: seq<nat>, x: nat)
    requires NoDup(s) && x in s
    ensures NoDup(Remove(s, x) + [x]) && forall y :: y in Remove(s, x) + [x] <==> y in s
  {
    assert NoDup([x]);
    RemoveParts(s, x);
    hide NoDup;
    NoDupParts(Remove(s, x), [x]);
  }

  // ---------- Bitmaps ----------

  /** How many bits of a bitmap are clear. */
  function Unset(s: seq<bool>): nat { if s == [] then 0 else Unset(s[..|s| - 1]) + if s[|s| - 1] then 0 else 1 }

  lemma {:induction false} UnsetSet(s: seq<bool>, i: nat)
    requires i < |s| && !s[i]
    ensures Unset(s) > 0 && Unset(s[i := true]) == Unset(s) - 1
  {
    var n := |s| - 1;
    if i < n {
      UnsetSet(s[..n], i);
      assert s[i := true][..n] == s[..n][i := true];
    } else {
      assert s[i := true][..n] == s[..n];
    }
  }

  lemma {:induction false} UnsetNone(s: seq<bool>)
    requires Unset(s) == 0
    ensures forall i :: 0 <= i < |s| ==> s[i]
  {
    if s != [] { UnsetNone(s[..|s| - 1]); }
  }

  lemma {:induction false} UnsetAll(s: seq<bool>)
    requires forall i :: 0 <= i < |s| ==> s[i]
    ensures Unset(s) == 0
  {
    if s != [] { UnsetAll(s[..|s| - 1]); }
  }

  lemma {:induction false} UnsetClear(s: seq<bool>, i: nat)
    requires i < |s| && s[i]
    ensures Unset(s[i := false]) == Unset(s) + 1 && Unset(s) < |s|
  {
    UnsetSet(s[i := false], i);
    assert s[i := false][i := true] == s;
    UnsetBound(s[i := false]);
  }

  lemma {:induction false} UnsetBound(s: seq<bool>)
    ensures Unset(s) <= |s|
  {
    if s != [] { UnsetBound(s[..|s| - 1]); }
  }

  lemma {:induction false} UnsetFresh(n: nat)
    ensures Unset(seq(n, _ => false)) == n
  {
    if n > 0 {
      assert seq(n, _ => false)[..n - 1] == seq(n - 1, _ => false);
      UnsetFresh(n - 1);
    }
  }

  /** bitmap_find_next_clear from 0: the first clear bit, or the length. */
  method FindClear(bits: seq<bool>) returns (i: nat)
    ensures i <= |bits| && (i < |bits| ==> !bits[i]) && forall j :: 0 <= j < i ==> bits[j]
    ensures i == |bits| <==> Unset(bits) == 0
  {
    i := 0;
    while i < |bits| && bits[i]
      invariant i <= |bits| && forall j :: 0 <= j < i ==> bits[j]
    {
      i := i + 1;
    }
    if i < |bits| { UnsetSet(bits, i); } else { UnsetAll(bits); }
  }
}
