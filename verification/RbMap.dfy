/** The persistent red-black map: insertion, lookup and in-order iteration. */
module RbMap {
  import opened Options
  import opened KeyValue
  import opened MapSerializers

  /** The order of keys and the serialised sizes of keys and values. */
  datatype Traits<!K, !V> = Traits(less: (K, K) -> bool, keySize: K -> nat, valueSize: V -> nat)

  datatype Color = R | B

  /** A node keeps the number of entries below it and their serialised size. */
  datatype Tree<+K, +V> =
    | Nil
    | Node(color: Color, left: Tree<K, V>, key: K, value: V, right: Tree<K, V>, size: nat, serialized: nat)

  function Size<K, V>(m: Tree<K, V>): nat {
    if m.Nil? then 0 else m.size
  }

  function SerializedSize<K, V>(m: Tree<K, V>): nat {
    if m.Nil? then 0 else m.serialized
  }

  function Weight<K, V>(t: Traits<K, V>, e: Entry<K, V>): nat {
    Padded(t.keySize(e.key)) + Padded(t.valueSize(e.value))
  }

  function Make<K, V>(t: Traits<K, V>, c: Color, l: Tree<K, V>, k: K, v: V, r: Tree<K, V>): (m: Tree<K, V>)
    ensures m.Node?
  {
    Node(c, l, k, v, r, 1 + Size(l) + Size(r), Weight(t, Entry(k, v)) + SerializedSize(l) + SerializedSize(r))
  }

  function Get<K, V>(t: Traits<K, V>, m: Tree<K, V>, k: K): Option<V> {
    if m.Nil? then None
    else if t.less(k, m.key) then Get(t, m.left, k)
    else if t.less(m.key, k) then Get(t, m.right, k)
    else Some(m.value)
  }

  predicate DoubledLeft<K, V>(m: Tree<K, V>) {
    m.Node? && m.color == R && m.left.Node? && m.left.color == R
  }

  predicate DoubledRight<K, V>(m: Tree<K, V>) {
    m.Node? && m.color == R && m.right.Node? && m.right.color == R
  }

  function Paint<K, V>(t: Traits<K, V>, c: Color, m: Tree<K, V>): (r: Tree<K, V>)
    requires m.Node?
    ensures r.Node?
  {
    Make(t, c, m.left, m.key, m.value, m.right)
  }

  /** A black parent of `l` and `r`, with a red child of a red child rotated away. */
  function Balance<K, V>(t: Traits<K, V>, l: Tree<K, V>, k: K, v: V, r: Tree<K, V>): (m: Tree<K, V>)
    ensures m.Node?
  {
    if DoubledLeft(l) then
      Make(t, R, Paint(t, B, l.left), l.key, l.value, Make(t, B, l.right, k, v, r))
    else if DoubledRight(l) then
      Make(t, R, Make(t, B, l.left, l.key, l.value, l.right.left), l.right.key, l.right.value,
           Make(t, B, l.right.right, k, v, r))
    else if DoubledLeft(r) then
      Make(t, R, Make(t, B, l, k, v, r.left.left), r.left.key, r.left.value,
           Make(t, B, r.left.right, r.key, r.value, r.right))
    else if DoubledRight(r) then
      Make(t, R, Make(t, B, l, k, v, r.left), r.key, r.value, Paint(t, B, r.right))
    else
      Make(t, B, l, k, v, r)
  }

  function Insert<K, V>(t: Traits<K, V>, m: Tree<K, V>, x: K, v: V): (r: Tree<K, V>)
    ensures r.Node?
  {
    if m.Nil? then Make(t, R, Nil, x, v, Nil)
    else if m.color == B then
      if t.less(x, m.key) then Balance(t, Insert(t, m.left, x, v), m.key, m.value, m.right)
      else if t.less(m.key, x) then Balance(t, m.left, m.key, m.value, Insert(t, m.right, x, v))
      else Make(t, m.color, m.left, m.key, v, m.right)
    else
      if t.less(x, m.key) then Make(t, m.color, Insert(t, m.left, x, v), m.key, m.value, m.right)
      else if t.less(m.key, x) then Make(t, m.color, m.left, m.key, m.value, Insert(t, m.right, x, v))
      else Make(t, m.color, m.left, m.key, v, m.right)
  }

  function Put<K, V>(t: Traits<K, V>, m: Tree<K, V>, k: K, v: V): (r: Tree<K, V>)
    ensures r.Node?
  {
    Paint(t, B, Insert(t, m, k, v))
  }

  /** The entries in the order of `foreach`. */
  function InOrder<K, V>(m: Tree<K, V>): seq<Entry<K, V>> {
    if m.Nil? then [] else InOrder(m.left) + [Entry(m.key, m.value)] + InOrder(m.right)
  }

  // ----- In order, an insertion into a list

  lemma Assoc<T>(a: seq<T>, x: seq<T>, b: seq<T>, y: seq<T>, c: seq<T>)
    ensures (a + x + b) + y + c == a + x + (b + y + c)
  {
  }

  lemma RotateLeft<K, V>(t: Traits<K, V>, l: Tree<K, V>, k: K, v: V, r: Tree<K, V>)
    requires DoubledLeft(l) || DoubledRight(l)
    ensures InOrder(Balance(t, l, k, v, r)) == InOrder(l) + [Entry(k, v)] + InOrder(r)
  {
    hide Make, Paint;
    if DoubledLeft(l) {
      MakeInOrder(t, B, l.right, k, v, r);
      PaintInOrder(t, B, l.left);
      MakeInOrder(t, R, Paint(t, B, l.left), l.key, l.value, Make(t, B, l.right, k, v, r));
      Assoc(InOrder(l.left), [Entry(l.key, l.value)], InOrder(l.right), [Entry(k, v)], InOrder(r));
    } else {
      var m := l.right;
      MakeInOrder(t, B, l.left, l.key, l.value, m.left);
      MakeInOrder(t, B, m.right, k, v, r);
      MakeInOrder(t, R, Make(t, B, l.left, l.key, l.value, m.left), m.key, m.value, Make(t, B, m.right, k, v, r));
      Assoc(InOrder(l.left), [Entry(l.key, l.value)], InOrder(m.left), [Entry(m.key, m.value)], InOrder(m.right));
      Assoc(InOrder(l.left) + [Entry(l.key, l.value)] + InOrder(m.left), [Entry(m.key, m.value)],
            InOrder(m.right), [Entry(k, v)], InOrder(r));
    }
  }

  lemma RotateRight<K, V>(t: Traits<K, V>, l: Tree<K, V>, k: K, v: V, r: Tree<K, V>)
    requires !DoubledLeft(l) && !DoubledRight(l) && (DoubledLeft(r) || DoubledRight(r))
    ensures InOrder(Balance(t, l, k, v, r)) == InOrder(l) + [Entry(k, v)] + InOrder(r)
  {
    hide Make, Paint;
    if DoubledLeft(r) {
      var m := r.left;
      MakeInOrder(t, B, l, k, v, m.left);
      MakeInOrder(t, B, m.right, r.key, r.value, r.right);
      MakeInOrder(t, R, Make(t, B, l, k, v, m.left), m.key, m.value, Make(t, B, m.right, r.key, r.value, r.right));
      Assoc(InOrder(l), [Entry(k, v)], InOrder(m.left), [Entry(m.key, m.value)],
            InOrder(m.right) + [Entry(r.key, r.value)] + InOrder(r.right));
      Assoc(InOrder(m.left), [Entry(m.key, m.value)], InOrder(m.right), [Entry(r.key, r.value)], InOrder(r.right));
    } else {
      MakeInOrder(t, B, l, k, v, r.left);
      PaintInOrder(t, B, r.right);
      MakeInOrder(t, R, Make(t, B, l, k, v, r.left), r.key, r.value, Paint(t, B, r.right));
      Assoc(InOrder(l), [Entry(k, v)], InOrder(r.left), [Entry(r.key, r.value)], InOrder(r.right));
    }
  }

  /** Rotations do not change the order of the entries. */
  lemma BalanceInOrder<K, V>(t: Traits<K, V>, l: Tree<K, V>, k: K, v: V, r: Tree<K, V>)
    ensures InOrder(Balance(t, l, k, v, r)) == InOrder(l) + [Entry(k, v)] + InOrder(r)
  {
    hide Make, Paint, InOrder;
    if DoubledLeft(l) || DoubledRight(l) {
      RotateLeft(t, l, k, v, r);
    } else if DoubledLeft(r) || DoubledRight(r) {
      RotateRight(t, l, k, v, r);
    } else {
      MakeInOrder(t, B, l, k, v, r);
    }
  }

  lemma MakeInOrder<K, V>(t: Traits<K, V>, c: Color, l: Tree<K, V>, k: K, v: V, r: Tree<K, V>)
    ensures InOrder(Make(t, c, l, k, v, r)) == InOrder(l) + [Entry(k, v)] + InOrder(r)
  {
  }

  lemma PaintInOrder<K, V>(t: Traits<K, V>, c: Color, m: Tree<K, V>)
    requires m.Node?
    ensures InOrder(Paint(t, c, m)) == InOrder(m)
  {
  }

  function InsertSorted<K, V>(t: Traits<K, V>, s: seq<Entry<K, V>>, x: K, v: V): seq<Entry<K, V>> {
    if s == [] then [Entry(x, v)]
    else if t.less(x, s[0].key) then [Entry(x, v)] + s
    else if t.less(s[0].key, x) then [s[0]] + InsertSorted(t, s[1..], x, v)
    else [Entry(s[0].key, v)] + s[1..]
  }

  ghost predicate StrictOrder<K(!new), V>(t: Traits<K, V>) {
    && (forall a :: !t.less(a, a))
    && (forall a, b, c :: t.less(a, b) && t.less(b, c) ==> t.less(a, c))
    && (forall a, b :: a == b || t.less(a, b) || t.less(b, a))
  }

  ghost predicate Sorted<K, V>(t: Traits<K, V>, s: seq<Entry<K, V>>) {
    forall i, j :: 0 <= i < j < |s| ==> t.less(s[i].key, s[j].key)
  }

  /** Insertion before, behind or at an entry of the list. */
  lemma {:induction false} InsertSplit<K(!new), V>(t: Traits<K, V>, a: seq<Entry<K, V>>, e: Entry<K, V>,
                                                  b: seq<Entry<K, V>>, x: K, v: V)
    requires StrictOrder(t) && Sorted(t, a + [e] + b)
    ensures InsertSorted(t, a + [e] + b, x, v) ==
      if t.less(x, e.key) then InsertSorted(t, a, x, v) + [e] + b
      else if t.less(e.key, x) then a + [e] + InsertSorted(t, b, x, v)
      else a + [Entry(e.key, v)] + b
  {
    hide StrictOrder, Sorted;
    var s := a + [e] + b;
    if a == [] {
      assert s[0] == e && s[1..] == b;
    } else {
      assert s[0] == a[0] && s[1..] == a[1..] + [e] + b && s[|a|] == e;
      assert [a[0]] + a[1..] == a;
      assert Sorted(t, s[1..]) && t.less(s[0].key, s[|a|].key) by { SortedTail(t, s, |a|); }
      InsertSplit(t, a[1..], e, b, x, v);
      assert t.less(x, a[0].key) ==> t.less(x, e.key) by { Transitive(t, x, a[0].key, e.key); }
      assert t.less(e.key, x) ==> t.less(a[0].key, x) by { Transitive(t, a[0].key, e.key, x); }
      if t.less(x, a[0].key) {
        assert [Entry(x, v)] + s == ([Entry(x, v)] + a) + [e] + b;
      } else if t.less(a[0].key, x) {
        InsertCons(a[0], a[1..], InsertSorted(t, a[1..], x, v), [e], b, InsertSorted(t, b, x, v), [Entry(e.key, v)]);
      } else {
        assert x == a[0].key by { Comparable(t, x, a[0].key); }
        InsertHere(t, a, e, b, x, v);
      }
    }
  }

  lemma Transitive<K(!new), V>(t: Traits<K, V>, a: K, b: K, c: K)
    requires StrictOrder(t)
    ensures t.less(a, b) && t.less(b, c) ==> t.less(a, c)
  {
  }

  lemma Comparable<K(!new), V>(t: Traits<K, V>, a: K, b: K)
    requires StrictOrder(t) && !t.less(a, b) && !t.less(b, a)
    ensures a == b
  {
  }

  lemma InsertCons<T>(h: T, a: seq<T>, a': seq<T>, e: seq<T>, b: seq<T>, b': seq<T>, e': seq<T>)
    ensures [h] + (a' + e + b) == ([h] + a') + e + b
    ensures [h] + (a + e + b') == ([h] + a) + e + b'
    ensures [h] + (a + e' + b) == ([h] + a) + e' + b
  {
  }

  /** The key of the first entry of `a` is the one inserted. */
  lemma InsertHere<K(!new), V>(t: Traits<K, V>, a: seq<Entry<K, V>>, e: Entry<K, V>, b: seq<Entry<K, V>>, x: K, v: V)
    requires StrictOrder(t) && a != [] && x == a[0].key && t.less(x, e.key)
    ensures InsertSorted(t, a + [e] + b, x, v) == InsertSorted(t, a, x, v) + [e] + b
  {
    var s := a + [e] + b;
    assert s[0] == a[0] && s[1..] == a[1..] + [e] + b;
    InsertCons(Entry(x, v), a[1..], a[1..], [e], b, b, [e]);
  }

  lemma SortedTail<K, V>(t: Traits<K, V>, s: seq<Entry<K, V>>, i: nat)
    requires Sorted(t, s) && 0 < i < |s|
    ensures Sorted(t, s[1..]) && t.less(s[0].key, s[i].key)
  {
  }

  lemma SortedParts<K, V>(t: Traits<K, V>, a: seq<Entry<K, V>>, e: Entry<K, V>, b: seq<Entry<K, V>>)
    requires Sorted(t, a + [e] + b)
    ensures Sorted(t, a) && Sorted(t, b)
    ensures forall i :: 0 <= i < |a| ==> t.less(a[i].key, e.key)
    ensures forall i :: 0 <= i < |b| ==> t.less(e.key, b[i].key)
  {
    var s := a + [e] + b;
    assert forall i :: 0 <= i < |a| ==> s[i] == a[i];
    assert s[|a|] == e;
    forall i | 0 <= i < |b|
      ensures t.less(e.key, b[i].key)
    {
      assert s[|a| + 1 + i] == b[i];
    }
    forall i, j | 0 <= i < j < |b|
      ensures t.less(b[i].key, b[j].key)
    {
      assert s[|a| + 1 + i] == b[i] && s[|a| + 1 + j] == b[j];
    }
  }

  /** Inserting into the tree inserts into its list of entries. */
  lemma {:induction false} InsertInOrder<K(!new), V>(t: Traits<K, V>, m: Tree<K, V>, x: K, v: V)
    requires StrictOrder(t) && Sorted(t, InOrder(m))
    ensures InOrder(Insert(t, m, x, v)) == InsertSorted(t, InOrder(m), x, v)
  {
    hide Balance, Weight, StrictOrder, Sorted, InsertSorted;
    if m.Nil? {
      MakeInOrder(t, R, Nil, x, v, Nil);
      InsertEmpty(t, x, v);
    } else {
      var e := Entry(m.key, m.value);
      SortedParts(t, InOrder(m.left), e, InOrder(m.right));
      InsertSplit(t, InOrder(m.left), e, InOrder(m.right), x, v);
      if t.less(x, m.key) {
        InsertInOrder(t, m.left, x, v);
        BalanceInOrder(t, Insert(t, m.left, x, v), m.key, m.value, m.right);
      } else if t.less(m.key, x) {
        InsertInOrder(t, m.right, x, v);
        BalanceInOrder(t, m.left, m.key, m.value, Insert(t, m.right, x, v));
      }
    }
  }

  lemma InsertEmpty<K, V>(t: Traits<K, V>, x: K, v: V)
    ensures InsertSorted(t, [], x, v) == [Entry(x, v)]
  {
  }
}
