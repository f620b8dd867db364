/** The Python verifier's form of a receipt: digests in hexadecimal, proof steps as dictionaries. */
module PythonReceipts {
  import opened Bytes
  import opened Options
  import opened Merkle

  // ----- Hexadecimal

  function HexDigit(n: nat): char
    requires n < 16
  {
    "0123456789abcdef"[n]
  }

  function DigitValue(c: char): Option<nat> {
    if '0' <= c <= '9' then Some(c as int - '0' as int)
    else if 'a' <= c <= 'f' then Some(c as int - 'a' as int + 10)
    else if 'A' <= c <= 'F' then Some(c as int - 'A' as int + 10)
    else None
  }

  function Hex(bytes: seq<byte>): string {
    if bytes == [] then "" else [HexDigit(bytes[0] / 16), HexDigit(bytes[0] % 16)] + Hex(bytes[1..])
  }

  /** ASCII white space, which may stand between bytes. */
  predicate IsSpace(c: char) {
    c == ' ' || '\t' <= c <= '\r'
  }

  /** `None` where the source raises: a digit without its pair, or something that is not one. */
  function FromHex(s: string): Option<seq<byte>> {
    if s == [] then Some([])
    else if IsSpace(s[0]) then FromHex(s[1..])
    else if |s| < 2 then None
    else
      match (DigitValue(s[0]), DigitValue(s[1]), FromHex(s[2..]))
      case (Some(high), Some(low), Some(rest)) => if 16 * high + low < 256 then Some([16 * high + low] + rest) else None
      case _ => None
  }

  lemma DigitRead(n: nat)
    requires n < 16
    ensures DigitValue(HexDigit(n)) == Some(n) && !IsSpace(HexDigit(n))
  {
  }

  lemma {:induction false} HexRead(bytes: seq<byte>)
    ensures FromHex(Hex(bytes)) == Some(bytes)
  {
    if bytes != [] {
      hide HexDigit, DigitValue, IsSpace;
      DigitRead(bytes[0] / 16);
      DigitRead(bytes[0] % 16);
      HexRead(bytes[1..]);
      assert Hex(bytes)[2..] == Hex(bytes[1..]);
      assert [bytes[0]] + bytes[1..] == bytes;
    }
  }

  /** White space is a space, or one of the control characters from tab to carriage return. */
  lemma OnlyWhiteSpace(c: char)
    ensures FromHex([c]).Some? <==> c as int in {9, 10, 11, 12, 13, 32}
  {
    var one := [c];
    assert one[1..] == [];
  }

  /** The bytes read before, in front of those still to come. */
  function Then(bytes: seq<byte>, rest: Option<seq<byte>>): Option<seq<byte>> {
    match rest
    case None => None
    case Some(more) => Some(bytes + more)
  }

  lemma ThenTwice(a: seq<byte>, b: seq<byte>, rest: Option<seq<byte>>)
    ensures Then(a, Then(b, rest)) == Then(a + b, rest) && Then([], rest) == rest
  {
    if rest.Some? {
      assert a + (b + rest.value) == a + b + rest.value && [] + rest.value == rest.value;
    }
  }

  /** One byte and the rest. */
  lemma PairRead(s: string) returns (first: Option<seq<byte>>)
    requires |s| >= 2 && !IsSpace(s[0])
    ensures forall t: string :: |t| >= 2 && t[0] == s[0] && t[1] == s[1] ==>
      FromHex(t) == if first.None? then None else Then(first.value, FromHex(t[2..]))
  {
    hide IsSpace;
    match (DigitValue(s[0]), DigitValue(s[1])) {
      case (Some(high), Some(low)) =>
        first := if 16 * high + low < 256 then Some([16 * high + low]) else None;
      case _ => first := None;
    }
  }

  /** What is read in two parts, each whole bytes and white space, is read at once. */
  lemma {:induction false} FromHexInTwo(a: string, b: string)
    requires FromHex(a).Some?
    ensures FromHex(a + b) == Then(FromHex(a).value, FromHex(b))
    decreases |a|
  {
    hide DigitValue, IsSpace, Then;
    if a == [] {
      assert a + b == b;
      ThenTwice([], [], FromHex(b));
    } else if IsSpace(a[0]) {
      FromHexInTwo(a[1..], b);
      assert (a + b)[1..] == a[1..] + b;
    } else {
      FromHexInTwo(a[2..], b);
      PairInTwo(a, b);
    }
  }

  lemma PairInTwo(a: string, b: string)
    requires |a| >= 2 && !IsSpace(a[0]) && FromHex(a).Some? && FromHex(a[2..]).Some?
    requires FromHex(a[2..] + b) == Then(FromHex(a[2..]).value, FromHex(b))
    ensures FromHex(a + b) == Then(FromHex(a).value, FromHex(b))
  {
    hide FromHex, IsSpace, Then;
    var first := PairRead(a);
    assert FromHex(a) == Then(first.value, FromHex(a[2..]));
    ThenSome(first.value, FromHex(a[2..]));
    assert (a + b)[2..] == a[2..] + b && (a + b)[0] == a[0] && (a + b)[1] == a[1];
    ThenTwice(first.value, FromHex(a[2..]).value, FromHex(b));
  }

  lemma ThenSome(bytes: seq<byte>, rest: Option<seq<byte>>)
    ensures Then(bytes, rest) == if rest.Some? then Some(bytes + rest.value) else None
  {
  }

  // ----- Proofs

  type Dict = map<string, string>

  function Combined(sha: Sha, current: Digest, n: Dict): Option<Digest> {
    if "left" in n then
      match FromHex(n["left"])
      case Some(hash) => Some(sha(hash + current))
      case None => None
    else if "right" in n then
      match FromHex(n["right"])
      case Some(hash) => Some(sha(current + hash))
      case None => None
    else None
  }

  function Folded(sha: Sha, current: Digest, proof: seq<Dict>): Option<Digest>
    decreases |proof|
  {
    if proof == [] then Some(current)
    else
      match Combined(sha, current, proof[0])
      case Some(next) => Folded(sha, next, proof[1..])
      case None => None
  }

  /** Recomputes the root; `None` where the source raises. */
  method Root(sha: Sha, leaf: string, proof: seq<Dict>) returns (r: Option<string>)
    ensures r == match FromHex(leaf)
      case None => None
      case Some(digest) =>
        match Folded(sha, digest, proof)
        case None => None
        case Some(root) => Some(Hex(root))
  {
    hide Combined, FromHex;
    var start := FromHex(leaf);
    if start.None? {
      return None;
    }
    var current := start.value;
    for i := 0 to |proof|
      invariant Folded(sha, start.value, proof) == Folded(sha, current, proof[i..])
    {
      assert proof[i..][0] == proof[i] && proof[i..][1..] == proof[i + 1..];
      var next := Combined(sha, current, proof[i]);
      if next.None? {
        return None;
      }
      current := next.value;
    }
    r := Some(Hex(current));
  }

  function AsDict(step: Step): Dict {
    match step
    case Left(hash) => map["left" := Hex(hash)]
    case Right(hash) => map["right" := Hex(hash)]
  }

  function AsDicts(proof: seq<Step>): seq<Dict> {
    if proof == [] then [] else [AsDict(proof[0])] + AsDicts(proof[1..])
  }

  /** On the same proof, the Python verifier computes the root that the C++ one does. */
  lemma {:induction false} VerifiersAgree(sha: Sha, leaf: Digest, proof: seq<Step>)
    ensures Folded(sha, leaf, AsDicts(proof)) == Some(Fold(sha, leaf, proof))
    decreases |proof|
  {
    if proof != [] {
      var step := proof[0];
      HexRead(step.hash);
      hide Hex, FromHex;
      var next := if step.Left? then sha(step.hash + leaf) else sha(leaf + step.hash);
      assert Combined(sha, leaf, AsDict(step)) == Some(next);
      assert AsDicts(proof)[1..] == AsDicts(proof[1..]);
      VerifiersAgree(sha, next, proof[1..]);
    }
  }
}
