/** The red-black map agrees with a mathematical map, stays balanced, and keeps exact sizes. */
module RbCorrect {
  import opened Options
  import opened KeyValue
  import opened RbMap

  // ----- Sorted lists

  /** Inserting keeps the list sorted and updates the map it lists. */
  lemma {:induction false} InsertLists<K(!new), V(!new)>(t: Traits<K, V>, s: seq<Entry<K, V>>, c: map<K, V>, x: K, v: V)
    requires StrictOrder(t) && Sorted(t, s) && Lists(s, c)
    ensures Sorted(t, InsertSorted(t, s, x, v)) && Lists(InsertSorted(t, s, x, v), c[x := v])
    decreases |s|
  {
    InsertedSorted(t, s, x, v);
    forall k, u
      ensures Entry(k, u) in InsertSorted(t, s, x, v) <==> k in c[x := v] && c[x := v][k] == u
    {
      assert Entry(k, u) in s <==> k in c && c[k] == u;
      InsertedHas(t, s, x, v, Entry(k, u));
    }
    SortedDistinct(t, InsertSorted(t, s, x, v));
  }

  lemma SortedDistinct<K(!new), V>(t: Traits<K, V>, s: seq<Entry<K, V>>)
    requires StrictOrder(t) && Sorted(t, s)
    ensures Distinct(s)
  {
  }

  lemma SortedHead<K, V>(t: Traits<K, V>, s: seq<Entry<K, V>>)
    requires Sorted(t, s) && s != []
    ensures Sorted(t, s[1..]) && Above(t, s[0].key, s[1..])
  {
  }

  /** Every key of `s` is above `k`. */
  ghost predicate Above<K, V>(t: Traits<K, V>, k: K, s: seq<Entry<K, V>>) {
    forall i :: 0 <= i < |s| ==> t.less(k, s[i].key)
  }

  lemma SortedCons<K, V>(t: Traits<K, V>, e: Entry<K, V>, s: seq<Entry<K, V>>)
    requires Sorted(t, s) && Above(t, e.key, s)
    ensures Sorted(t, [e] + s)
  {
  }

  lemma {:induction false} InsertedAbove<K(!new), V>(t: Traits<K, V>, k: K, s: seq<Entry<K, V>>, x: K, v: V)
    requires StrictOrder(t) && Above(t, k, s) && t.less(k, x)
    ensures Above(t, k, InsertSorted(t, s, x, v))
  {
    if s != [] && t.less(s[0].key, x) {
      InsertedAbove(t, k, s[1..], x, v);
    }
  }

  lemma AboveLower<K(!new), V>(t: Traits<K, V>, j: K, k: K, s: seq<Entry<K, V>>)
    requires StrictOrder(t) && Above(t, k, s) && t.less(j, k)
    ensures Above(t, j, s)
  {
  }

  lemma {:induction false} InsertedSorted<K(!new), V>(t: Traits<K, V>, s: seq<Entry<K, V>>, x: K, v: V)
    requires StrictOrder(t) && Sorted(t, s)
    ensures Sorted(t, InsertSorted(t, s, x, v))
  {
    hide StrictOrder, Sorted, Above;
    if s == [] {
      SortedOne(t, Entry(x, v));
    } else {
      SortedHead(t, s);
      assert s == [s[0]] + s[1..];
      if t.less(x, s[0].key) {
        AboveLower(t, x, s[0].key, s[1..]);
        AboveCons(t, x, s);
        SortedCons(t, Entry(x, v), s);
      } else if t.less(s[0].key, x) {
        InsertedSorted(t, s[1..], x, v);
        InsertedAbove(t, s[0].key, s[1..], x, v);
        SortedCons(t, s[0], InsertSorted(t, s[1..], x, v));
      } else {
        SortedCons(t, Entry(s[0].key, v), s[1..]);
      }
    }
  }

  lemma SortedOne<K, V>(t: Traits<K, V>, e: Entry<K, V>)
    ensures Sorted(t, [e])
  {
  }

  lemma AboveCons<K, V>(t: Traits<K, V>, k: K, s: seq<Entry<K, V>>)
    requires s != [] && t.less(k, s[0].key) && Above(t, k, s[1..])
    ensures Above(t, k, s)
  {
    forall i | 0 <= i < |s|
      ensures t.less(k, s[i].key)
    {
      if i > 0 {
        assert s[i] == s[1..][i - 1];
      }
    }
  }

  lemma {:induction false} InsertedHas<K(!new), V(!new)>(t: Traits<K, V>, s: seq<Entry<K, V>>, x: K, v: V, e: Entry<K, V>)
    requires StrictOrder(t) && Sorted(t, s)
    ensures e in InsertSorted(t, s, x, v) <==> e == Entry(x, v) || (e in s && e.key != x)
  {
    hide StrictOrder, Sorted, Above;
    if s != [] {
      SortedHead(t, s);
      assert s == [s[0]] + s[1..];
      if t.less(x, s[0].key) {
        AboveLower(t, x, s[0].key, s[1..]);
        AboveCons(t, x, s);
        NotAbove(t, x, s, e);
      } else if t.less(s[0].key, x) {
        InsertedHas(t, s[1..], x, v, e);
        Irreflexive(t, x);
      } else {
        Comparable(t, x, s[0].key);
        NotAbove(t, x, s[1..], e);
      }
    }
  }

  lemma Irreflexive<K(!new), V>(t: Traits<K, V>, x: K)
    requires StrictOrder(t)
    ensures !t.less(x, x)
  {
  }

  lemma NotAbove<K(!new), V>(t: Traits<K, V>, x: K, s: seq<Entry<K, V>>, e: Entry<K, V>)
    requires StrictOrder(t) && Above(t, x, s)
    ensures e in s ==> e.key != x
  {
  }

  // ----- Lookup

  /** Lookup in the tree is lookup in the map that its entries list. */
  lemma {:induction false} GetLists<K(!new), V(!new)>(t: Traits<K, V>, m: Tree<K, V>, k: K, v: V)
    requires StrictOrder(t) && Sorted(t, InOrder(m))
    ensures Get(t, m, k) == Some(v) <==> Entry(k, v) in InOrder(m)
  {
    hide StrictOrder, Sorted;
    if m.Node? {
      var e := Entry(m.key, m.value);
      SortedParts(t, InOrder(m.left), e, InOrder(m.right));
      if t.less(k, m.key) {
        GetLists(t, m.left, k, v);
        Irreflexive(t, k);
        Transitive(t, k, m.key, k);
        NotIn(t, InOrder(m.left), e, InOrder(m.right), Entry(k, v));
      } else if t.less(m.key, k) {
        GetLists(t, m.right, k, v);
        Irreflexive(t, k);
        NotIn(t, InOrder(m.left), e, InOrder(m.right), Entry(k, v));
      } else {
        Comparable(t, k, m.key);
        Irreflexive(t, k);
        NotIn(t, InOrder(m.left), e, InOrder(m.right), Entry(k, v));
      }
    }
  }

  /** On which side of an entry another one cannot be. */
  lemma NotIn<K(!new), V>(t: Traits<K, V>, a: seq<Entry<K, V>>, e: Entry<K, V>, b: seq<Entry<K, V>>, f: Entry<K, V>)
    requires StrictOrder(t)
    requires forall i :: 0 <= i < |a| ==> t.less(a[i].key, e.key)
    requires forall i :: 0 <= i < |b| ==> t.less(e.key, b[i].key)
    ensures !t.less(f.key, e.key) ==> f !in a
    ensures !t.less(e.key, f.key) ==> f !in b
  {
  }

  // ----- Balance

  ghost predicate Red<K, V>(m: Tree<K, V>) {
    m.Node? && m.color == R
  }

  /** No red node has a red child. */
  ghost predicate NoRedRed<K, V>(m: Tree<K, V>) {
    m.Node? ==>
      && NoRedRed(m.left) && NoRedRed(m.right)
      && (m.color == R ==> !Red(m.left) && !Red(m.right))
  }

  /** As above, except that a red root may have one red child. */
  ghost predicate AlmostNoRedRed<K, V>(m: Tree<K, V>) {
    m.Node? ==>
      && NoRedRed(m.left) && NoRedRed(m.right)
      && !(m.color == R && Red(m.left) && Red(m.right))
  }

  ghost function BlackHeight<K, V>(m: Tree<K, V>): nat {
    if m.Nil? then 0 else BlackHeight(m.left) + if m.color == B then 1 else 0
  }

  /** Every path down has the same number of black nodes. */
  ghost predicate BlackBalanced<K, V>(m: Tree<K, V>) {
    m.Node? ==>
      && BlackBalanced(m.left) && BlackBalanced(m.right)
      && BlackHeight(m.left) == BlackHeight(m.right)
  }

  lemma BalanceColors<K, V>(t: Traits<K, V>, l: Tree<K, V>, k: K, v: V, r: Tree<K, V>)
    requires (AlmostNoRedRed(l) && NoRedRed(r)) || (NoRedRed(l) && AlmostNoRedRed(r))
    ensures NoRedRed(Balance(t, l, k, v, r))
  {
    hide Weight;
  }

  lemma MakeBlack<K, V>(t: Traits<K, V>, c: Color, l: Tree<K, V>, k: K, v: V, r: Tree<K, V>)
    requires BlackBalanced(l) && BlackBalanced(r) && BlackHeight(l) == BlackHeight(r)
    ensures BlackBalanced(Make(t, c, l, k, v, r))
    ensures BlackHeight(Make(t, c, l, k, v, r)) == BlackHeight(l) + if c == B then 1 else 0
  {
    hide Weight;
  }

  /** A red node is as black-high as its children. */
  lemma RedChildren<K, V>(m: Tree<K, V>)
    requires Red(m) && BlackBalanced(m)
    ensures BlackBalanced(m.left) && BlackBalanced(m.right)
    ensures BlackHeight(m.left) == BlackHeight(m.right) == BlackHeight(m)
  {
  }

  lemma BalanceBlack<K, V>(t: Traits<K, V>, l: Tree<K, V>, k: K, v: V, r: Tree<K, V>)
    requires BlackBalanced(l) && BlackBalanced(r) && BlackHeight(l) == BlackHeight(r)
    ensures BlackBalanced(Balance(t, l, k, v, r))
    ensures BlackHeight(Balance(t, l, k, v, r)) == BlackHeight(l) + 1
  {
    hide Make, BlackBalanced, BlackHeight;
    if DoubledLeft(l) {
      RedChildren(l);
      RedChildren(l.left);
      MakeTwo(t, l.left.left, l.left.key, l.left.value, l.left.right, l.key, l.value, l.right, k, v, r);
    } else if DoubledRight(l) {
      RedChildren(l);
      RedChildren(l.right);
      MakeTwo(t, l.left, l.key, l.value, l.right.left, l.right.key, l.right.value, l.right.right, k, v, r);
    } else if DoubledLeft(r) {
      RedChildren(r);
      RedChildren(r.left);
      MakeTwo(t, l, k, v, r.left.left, r.left.key, r.left.value, r.left.right, r.key, r.value, r.right);
    } else if DoubledRight(r) {
      RedChildren(r);
      RedChildren(r.right);
      MakeTwo(t, l, k, v, r.left, r.key, r.value, r.right.left, r.right.key, r.right.value, r.right.right);
    } else {
      MakeBlack(t, B, l, k, v, r);
    }
  }

  /** What every rotation ends in: a red node over two black ones. */
  lemma MakeTwo<K, V>(t: Traits<K, V>, a: Tree<K, V>, k0: K, v0: V, b: Tree<K, V>, k1: K, v1: V,
                      c: Tree<K, V>, k2: K, v2: V, d: Tree<K, V>)
    requires BlackBalanced(a) && BlackBalanced(b) && BlackBalanced(c) && BlackBalanced(d)
    requires BlackHeight(a) == BlackHeight(b) == BlackHeight(c) == BlackHeight(d)
    ensures var m := Make(t, R, Make(t, B, a, k0, v0, b), k1, v1, Make(t, B, c, k2, v2, d));
      BlackBalanced(m) && BlackHeight(m) == BlackHeight(a) + 1
  {
    hide Make, BlackBalanced, BlackHeight;
    MakeBlack(t, B, a, k0, v0, b);
    MakeBlack(t, B, c, k2, v2, d);
    MakeBlack(t, R, Make(t, B, a, k0, v0, b), k1, v1, Make(t, B, c, k2, v2, d));
  }

  lemma {:induction false} InsertColors<K, V>(t: Traits<K, V>, m: Tree<K, V>, x: K, v: V)
    requires NoRedRed(m)
    ensures AlmostNoRedRed(Insert(t, m, x, v))
    ensures !Red(m) ==> NoRedRed(Insert(t, m, x, v))
  {
    hide Weight, Balance;
    if m.Node? {
      InsertColors(t, m.left, x, v);
      InsertColors(t, m.right, x, v);
      if m.color == B {
        BalanceColors(t, Insert(t, m.left, x, v), m.key, m.value, m.right);
        BalanceColors(t, m.left, m.key, m.value, Insert(t, m.right, x, v));
        NoRedRedAlmost(Insert(t, m, x, v));
      }
    }
  }

  lemma NoRedRedAlmost<K, V>(m: Tree<K, V>)
    requires NoRedRed(m)
    ensures AlmostNoRedRed(m)
  {
  }

  lemma {:induction false} InsertBlack<K, V>(t: Traits<K, V>, m: Tree<K, V>, x: K, v: V)
    requires BlackBalanced(m)
    ensures BlackBalanced(Insert(t, m, x, v))
    ensures BlackHeight(Insert(t, m, x, v)) == BlackHeight(m)
  {
    hide Weight, Balance;
    if m.Node? {
      InsertBlack(t, m.left, x, v);
      InsertBlack(t, m.right, x, v);
      if m.color == B {
        BalanceBlack(t, Insert(t, m.left, x, v), m.key, m.value, m.right);
        BalanceBlack(t, m.left, m.key, m.value, Insert(t, m.right, x, v));
      }
    }
  }

  // ----- Cached sizes

  ghost predicate Cached<K, V>(t: Traits<K, V>, m: Tree<K, V>) {
    m.Node? ==>
      && Cached(t, m.left) && Cached(t, m.right)
      && m == Make(t, m.color, m.left, m.key, m.value, m.right)
  }

  lemma BalanceCached<K, V>(t: Traits<K, V>, l: Tree<K, V>, k: K, v: V, r: Tree<K, V>)
    requires Cached(t, l) && Cached(t, r)
    ensures Cached(t, Balance(t, l, k, v, r))
  {
    hide Weight;
  }

  lemma {:induction false} InsertCached<K, V>(t: Traits<K, V>, m: Tree<K, V>, x: K, v: V)
    requires Cached(t, m)
    ensures Cached(t, Insert(t, m, x, v))
  {
    hide Weight, Balance;
    if m.Node? {
      InsertCached(t, m.left, x, v);
      InsertCached(t, m.right, x, v);
      BalanceCached(t, Insert(t, m.left, x, v), m.key, m.value, m.right);
      BalanceCached(t, m.left, m.key, m.value, Insert(t, m.right, x, v));
    }
  }

  /** The sizes kept in the root are those of the entries. */
  lemma {:induction false} CachedExact<K, V>(t: Traits<K, V>, m: Tree<K, V>)
    requires Cached(t, m)
    ensures Size(m) == |InOrder(m)|
    ensures SerializedSize(m) == Total(e => Weight(t, e), InOrder(m))
  {
    hide Weight;
    if m.Node? {
      CachedExact(t, m.left);
      CachedExact(t, m.right);
      var w := (e: Entry<K, V>) => Weight(t, e);
      var e := Entry(m.key, m.value);
      TotalConcat(w, InOrder(m.left) + [e], InOrder(m.right));
      TotalConcat(w, InOrder(m.left), [e]);
      assert Total(w, [e]) == w(e);
    }
  }

  // ----- Height

  ghost function Height<K, V>(m: Tree<K, V>): nat {
    if m.Nil? then 0
    else 1 + if Height(m.left) > Height(m.right) then Height(m.left) else Height(m.right)
  }

  function Pow2(n: nat): (p: nat)
    ensures p > 0
  {
    if n == 0 then 1 else 2 * Pow2(n - 1)
  }

  lemma {:induction false} HeightBound<K, V>(m: Tree<K, V>)
    requires NoRedRed(m) && BlackBalanced(m)
    ensures Height(m) <= 2 * BlackHeight(m) + if Red(m) then 1 else 0
  {
    if m.Node? {
      HeightBound(m.left);
      HeightBound(m.right);
    }
  }

  lemma {:induction false} SizeBound<K, V>(m: Tree<K, V>)
    requires BlackBalanced(m)
    ensures Pow2(BlackHeight(m)) <= |InOrder(m)| + 1
  {
    if m.Node? {
      SizeBound(m.left);
      SizeBound(m.right);
    }
  }

  lemma {:induction false} Pow2Monotone(a: nat, b: nat)
    requires a <= b
    ensures Pow2(a) <= Pow2(b)
    decreases b
  {
    if a < b {
      Pow2Monotone(a, b - 1);
    }
  }

  // ----- The map object over every history of puts

  ghost predicate Invariant<K(!new), V(!new)>(t: Traits<K, V>, m: Tree<K, V>) {
    && Sorted(t, InOrder(m))
    && NoRedRed(m) && !Red(m)
    && BlackBalanced(m)
    && Cached(t, m)
  }

  lemma PutInvariant<K(!new), V(!new)>(t: Traits<K, V>, m: Tree<K, V>, c: map<K, V>, k: K, v: V)
    requires StrictOrder(t) && Invariant(t, m) && Lists(InOrder(m), c)
    ensures Invariant(t, Put(t, m, k, v)) && Lists(InOrder(Put(t, m, k, v)), c[k := v])
  {
    hide StrictOrder, Sorted, Lists, Insert, Weight;
    var r := Insert(t, m, k, v);
    InsertInOrder(t, m, k, v);
    InsertLists(t, InOrder(m), c, k, v);
    InsertColors(t, m, k, v);
    InsertBlack(t, m, k, v);
    InsertCached(t, m, k, v);
    PaintInOrder(t, B, r);
  }

  function Build<K, V>(t: Traits<K, V>, puts: seq<Entry<K, V>>): Tree<K, V> {
    if puts == [] then Nil
    else
      var e := puts[|puts| - 1];
      Put(t, Build(t, puts[..|puts| - 1]), e.key, e.value)
  }

  function BuildModel<K, V>(puts: seq<Entry<K, V>>): map<K, V> {
    if puts == [] then map[]
    else
      var e := puts[|puts| - 1];
      BuildModel(puts[..|puts| - 1])[e.key := e.value]
  }

  lemma {:induction false} BuildInvariant<K(!new), V(!new)>(t: Traits<K, V>, puts: seq<Entry<K, V>>)
    requires StrictOrder(t)
    ensures Invariant(t, Build(t, puts)) && Lists(InOrder(Build(t, puts)), BuildModel(puts))
  {
    hide StrictOrder, Invariant, Lists, Put;
    if puts == [] {
      NilInvariant(t);
    } else {
      var before := puts[..|puts| - 1];
      var e := puts[|puts| - 1];
      BuildInvariant(t, before);
      PutInvariant(t, Build(t, before), BuildModel(before), e.key, e.value);
    }
  }

  lemma NilInvariant<K(!new), V(!new)>(t: Traits<K, V>)
    ensures Invariant(t, Nil) && Lists(InOrder<K, V>(Nil), map[])
  {
  }

  /** After any puts in any order: lookups are those of the mathematical map, iteration is in key
      order and lists the map, and the sizes in the root are exact. */
  lemma BuildRepresents<K(!new), V(!new)>(t: Traits<K, V>, puts: seq<Entry<K, V>>, k: K)
    requires StrictOrder(t)
    ensures var m, c := Build(t, puts), BuildModel(puts);
      && Get(t, m, k) == (if k in c then Some(c[k]) else None)
      && Sorted(t, InOrder(m)) && Lists(InOrder(m), c)
      && Size(m) == |c|
      && SerializedSize(m) == Total(e => Weight(t, e), InOrder(m))
  {
    hide StrictOrder, Sorted, NoRedRed, BlackBalanced, Cached, Build, BuildModel, InOrder;
    var m, c := Build(t, puts), BuildModel(puts);
    BuildInvariant(t, puts);
    CachedExact(t, m);
    ListsLength(InOrder(m), c);
    if k in c {
      GetLists(t, m, k, c[k]);
    } else if Get(t, m, k).Some? {
      GetLists(t, m, k, Get(t, m, k).value);
    }
  }

  /** The depth of the tree is at most twice the logarithm of its size plus one. */
  lemma BuildHeight<K(!new), V(!new)>(t: Traits<K, V>, puts: seq<Entry<K, V>>)
    requires StrictOrder(t)
    ensures Pow2((Height(Build(t, puts)) + 1) / 2) <= Size(Build(t, puts)) + 1
  {
    hide StrictOrder, Sorted, Lists, Build, BuildModel, Height, BlackHeight, Pow2, NoRedRed, BlackBalanced, Cached, InOrder;
    var m := Build(t, puts);
    BuildInvariant(t, puts);
    HeightBound(m);
    SizeBound(m);
    CachedExact(t, m);
    Pow2Monotone((Height(m) + 1) / 2, BlackHeight(m));
  }
}
