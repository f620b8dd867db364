/** Sequences of sequences laid end to end. */
module Sequences {

  function Flatten<T>(parts: seq<seq<T>>): seq<T> {
    if parts == [] then [] else parts[0] + Flatten(parts[1..])
  }

  lemma FlattenNone<T>()
    ensures Flatten<T>([]) == []
  {
  }

  lemma FlattenFirst<T>(parts: seq<seq<T>>)
    requires parts != []
    ensures Flatten(parts) == parts[0] + Flatten(parts[1..])
  {
  }

  lemma FlattenOne<T>(part: seq<T>)
    ensures Flatten([part]) == part
  {
    var one := [part];
    assert one[1..] == [];
  }

  lemma Associative<T>(a: seq<T>, b: seq<T>, c: seq<T>)
    ensures (a + b) + c == a + (b + c)
  {
  }

  lemma {:induction false} FlattenConcat<T>(a: seq<seq<T>>, b: seq<seq<T>>)
    ensures Flatten(a + b) == Flatten(a) + Flatten(b)
  {
    hide Flatten;
    if a == [] {
      assert a + b == b;
      FlattenNone<T>();
    } else {
      FlattenConcat(a[1..], b);
      assert (a + b)[1..] == a[1..] + b;
      FlattenFirst(a);
      FlattenFirst(a + b);
      Associative(a[0], Flatten(a[1..]), Flatten(b));
    }
  }

  lemma FlattenAppended<T>(parts: seq<seq<T>>, part: seq<T>)
    ensures Flatten(parts + [part]) == Flatten(parts) + part
  {
    hide Flatten;
    FlattenConcat(parts, [part]);
    FlattenOne(part);
  }

  lemma FlattenDivided<T>(parts: seq<seq<T>>, n: nat)
    requires n <= |parts|
    ensures Flatten(parts) == Flatten(parts[..n]) + Flatten(parts[n..])
    ensures |Flatten(parts[..n])| <= |Flatten(parts)| && Flatten(parts[..n]) == Flatten(parts)[..|Flatten(parts[..n])|]
  {
    hide Flatten;
    assert parts == parts[..n] + parts[n..];
    FlattenConcat(parts[..n], parts[n..]);
  }

  /** Where part `i` begins. */
  function Position<T>(parts: seq<seq<T>>, i: nat): nat
    requires i <= |parts|
  {
    |Flatten(parts[..i])|
  }

  lemma FlattenAround<T>(parts: seq<seq<T>>, i: nat)
    requires i < |parts|
    ensures Flatten(parts) == Flatten(parts[..i]) + parts[i] + Flatten(parts[i + 1..])
    ensures Position(parts, i + 1) == Position(parts, i) + |parts[i]|
  {
    hide Flatten;
    FlattenDivided(parts, i);
    FlattenFirst(parts[i..]);
    assert parts[i..][0] == parts[i] && parts[i..][1..] == parts[i + 1..];
    Associative(Flatten(parts[..i]), parts[i], Flatten(parts[i + 1..]));
    assert parts[..i + 1] == parts[..i] + [parts[i]];
    FlattenAppended(parts[..i], parts[i]);
  }

  lemma FlattenAt<T>(parts: seq<seq<T>>, i: nat)
    requires i < |parts|
    ensures Position(parts, i) + |parts[i]| <= |Flatten(parts)|
    ensures Flatten(parts)[Position(parts, i)..Position(parts, i) + |parts[i]|] == parts[i]
  {
    FlattenAround(parts, i);
  }

  lemma FlattenUpdate<T>(parts: seq<seq<T>>, i: nat, part: seq<T>)
    requires i < |parts| && |part| == |parts[i]|
    ensures Position(parts, i) + |part| <= |Flatten(parts)|
    ensures Flatten(parts[i := part]) ==
      Flatten(parts)[..Position(parts, i)] + part + Flatten(parts)[Position(parts, i) + |part|..]
  {
    FlattenAround(parts, i);
    FlattenAround(parts[i := part], i);
    assert parts[i := part][..i] == parts[..i];
    assert parts[i := part][i + 1..] == parts[i + 1..];
  }

  /** Overwrites a stretch of a sequence. */
  function Splice<T>(s: seq<T>, at: nat, bytes: seq<T>): (r: seq<T>)
    requires at + |bytes| <= |s|
    ensures |r| == |s|
  {
    s[..at] + bytes + s[at + |bytes|..]
  }

  /** Overwriting a stretch of one part overwrites that stretch of the whole. */
  lemma FlattenSplice<T>(parts: seq<seq<T>>, i: nat, at: nat, bytes: seq<T>)
    requires i < |parts| && at + |bytes| <= |parts[i]|
    ensures Position(parts, i) + |parts[i]| <= |Flatten(parts)|
    ensures Flatten(parts[i := Splice(parts[i], at, bytes)]) ==
            Splice(Flatten(parts), Position(parts, i) + at, bytes)
  {
    var whole, start, part := Flatten(parts), Position(parts, i), Splice(parts[i], at, bytes);
    FlattenAt(parts, i);
    FlattenUpdate(parts, i, part);
    var l, r := Flatten(parts[i := part]), Splice(whole, start + at, bytes);
    forall k | 0 <= k < |whole|
      ensures l[k] == r[k]
    {
      if start <= k < start + |part| {
        assert whole[k] == parts[i][k - start];
      }
    }
  }

  /** A slice of a slice. */
  lemma SubSlice<T>(s: seq<T>, o: nat, len: nat, at: nat, n: nat)
    requires o + len <= |s| && at + n <= len
    ensures s[o..o + len][at..at + n] == s[o + at..o + at + n]
  {
    var l, r := s[o..o + len][at..at + n], s[o + at..o + at + n];
    forall k | 0 <= k < n
      ensures l[k] == r[k]
    {
      assert l[k] == s[o..o + len][at + k] == s[o + at + k];
    }
  }
}
