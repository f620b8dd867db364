/** Proofs in JSON as the C++ verifier reads them, and where that is what the Python verifier reads. */
module JsonReceipts {
  import opened Bytes
  import opened Options
  import opened Merkle
  import opened PythonReceipts

  /** The value of a character, which is not checked, in eight bits; characters are signed. */
  function CharValue(c: char): byte {
    var n := c as int;
    if n >= 128 || n <= '9' as int then (n - '0' as int) % 256
    else if n <= 'F' as int then (n - 'A' as int + 10) % 256
    else if n <= 'f' as int then (n - 'a' as int + 10) % 256
    else n
  }

  function Values(s: string): seq<byte> {
    if |s| < 2 then [] else [(16 * CharValue(s[0]) + CharValue(s[1])) % 256] + Values(s[2..])
  }

  /** A digest, if the string has as many characters as it takes. */
  function ReadHash(s: string): Option<Digest> {
    if |s| != 2 * DIGEST_SIZE then None else Some(Values(s))
  }

  /** A step has one of the two keys, and not the other. */
  function ReadStep(n: Dict): Option<Step> {
    if ("left" in n) == ("right" in n) then None
    else
      match ReadHash(if "left" in n then n["left"] else n["right"])
      case None => None
      case Some(hash) => Some(if "left" in n then Left(hash) else Right(hash))
  }

  function ReadProof(proof: seq<Dict>): Option<seq<Step>> {
    if proof == [] then Some([])
    else
      match (ReadStep(proof[0]), ReadProof(proof[1..]))
      case (Some(step), Some(rest)) => Some([step] + rest)
      case _ => None
  }

  // ----- Hexadecimal digits

  predicate IsHexDigit(c: char) {
    '0' <= c <= '9' || 'a' <= c <= 'f' || 'A' <= c <= 'F'
  }

  predicate AllHex(s: string) {
    forall c <- s :: IsHexDigit(c)
  }

  lemma DigitAgrees(c: char)
    ensures DigitValue(c).Some? <==> IsHexDigit(c)
    ensures IsHexDigit(c) ==> DigitValue(c) == Some(CharValue(c)) && CharValue(c) < 16 && !IsSpace(c)
  {
  }

  lemma {:induction false} DigitsAgree(s: string)
    requires AllHex(s) && |s| % 2 == 0
    ensures FromHex(s) == Some(Values(s))
    decreases |s|
  {
    if s != [] {
      DigitAgrees(s[0]);
      DigitAgrees(s[1]);
      hide DigitValue, CharValue, IsSpace;
      DigitsAgree(s[2..]);
    }
  }

  lemma {:induction false} ValuesLength(s: string)
    ensures |Values(s)| == |s| / 2
    decreases |s|
  {
    if |s| >= 2 {
      ValuesLength(s[2..]);
    }
  }

  /** Only digits, two for every byte, and white space are read; if there is none of that, all are digits. */
  lemma {:induction false} DigitsRead(s: string)
    requires FromHex(s).Some?
    ensures 2 * |FromHex(s).value| <= |s| && forall c <- s :: IsHexDigit(c) || IsSpace(c)
    ensures 2 * |FromHex(s).value| == |s| ==> AllHex(s)
    decreases |s|
  {
    if s != [] {
      if IsSpace(s[0]) {
        DigitsRead(s[1..]);
        assert s == [s[0]] + s[1..];
      } else {
        DigitAgrees(s[0]);
        DigitAgrees(s[1]);
        DigitsRead(s[2..]);
        assert s == [s[0], s[1]] + s[2..];
      }
    }
  }

  /** Of a string that the C++ verifier accepts, the Python verifier reads the same digest if and only if all its
      characters are hexadecimal digits. */
  lemma HashAgreesIff(s: string)
    requires ReadHash(s).Some?
    ensures FromHex(s) == ReadHash(s) <==> AllHex(s)
  {
    hide FromHex, Values, AllHex;
    ValuesLength(s);
    if AllHex(s) {
      DigitsAgree(s);
    }
    if FromHex(s) == ReadHash(s) {
      DigitsRead(s);
    }
  }

  // ----- Whole proofs

  predicate AllDigits(n: Dict) {
    forall key <- n :: AllHex(n[key])
  }

  lemma StepAgrees(sha: Sha, current: Digest, n: Dict)
    requires ReadStep(n).Some? && AllDigits(n)
    ensures Combined(sha, current, n) == Some(Fold(sha, current, [ReadStep(n).value]))
  {
    hide FromHex, Values, AllHex, Fold;
    var step := ReadStep(n).value;
    HashAgreesIff(if "left" in n then n["left"] else n["right"]);
    FoldOne(sha, current, step);
  }

  lemma FoldOne(sha: Sha, current: Digest, step: Step)
    ensures Fold(sha, current, [step]) == if step.Left? then sha(step.hash + current) else sha(current + step.hash)
  {
    var one := [step];
    assert one[1..] == [];
  }

  /** On every proof in JSON that the C++ verifier accepts, and whose digests are hexadecimal, the Python verifier
      computes the same root. */
  lemma {:induction false} JsonVerifiersAgree(sha: Sha, leaf: Digest, proof: seq<Dict>)
    requires ReadProof(proof).Some? && forall n <- proof :: AllDigits(n)
    ensures Folded(sha, leaf, proof) == Some(Fold(sha, leaf, ReadProof(proof).value))
    decreases |proof|
  {
    hide Combined, ReadStep, AllDigits;
    if proof != [] {
      var step, rest := ReadStep(proof[0]).value, ReadProof(proof[1..]).value;
      StepAgrees(sha, leaf, proof[0]);
      JsonVerifiersAgree(sha, Fold(sha, leaf, [step]), proof[1..]);
      FoldConcat(sha, leaf, [step], rest);
    }
  }

  lemma {:induction false} HexDigits(bytes: seq<byte>)
    ensures AllHex(Hex(bytes)) && |Hex(bytes)| == 2 * |bytes|
  {
    if bytes != [] {
      HexDigits(bytes[1..]);
      assert IsHexDigit(HexDigit(bytes[0] / 16)) && IsHexDigit(HexDigit(bytes[0] % 16));
    }
  }

  lemma StepReadBack(step: Step)
    requires |step.hash| == DIGEST_SIZE
    ensures ReadStep(AsDict(step)) == Some(step)
  {
    hide Hex, FromHex, Values, AllHex;
    HexDigits(step.hash);
    HexRead(step.hash);
    DigitsAgree(Hex(step.hash));
  }

  /** A proof written to JSON is read back as it was. */
  lemma {:induction false} ProofReadBack(proof: seq<Step>)
    requires Sized(proof)
    ensures ReadProof(AsDicts(proof)) == Some(proof)
    decreases |proof|
  {
    hide AsDict, ReadStep;
    if proof != [] {
      StepReadBack(proof[0]);
      ProofReadBack(proof[1..]);
      assert AsDicts(proof)[1..] == AsDicts(proof[1..]);
      assert proof == [proof[0]] + proof[1..];
    }
  }

  /** The Python verifier reads more: of a step with both keys the left one, which the C++ verifier rejects.  Neither
      accepts one without any. */
  lemma BothKeys(sha: Sha, current: Digest, n: Dict)
    ensures "left" in n && "right" in n ==>
      ReadStep(n) == None && Combined(sha, current, n) == Combined(sha, current, n - {"right"})
    ensures "left" !in n && "right" !in n ==> ReadStep(n) == None && Combined(sha, current, n) == None
  {
    hide FromHex, Values;
  }
}
