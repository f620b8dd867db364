/** The leaf of a transaction: as a node adds it to its tree, as an audit of the ledger recomputes it, and as a receipt
    for the transaction does. */
module TransactionLeaves {
  import opened Bytes
  import opened Options
  import opened Merkle

  /** What the ledger holds of a transaction: its serialised write set, and the digests of its commit evidence and
      claims if it has them. */
  datatype Transaction = Transaction(writeSet: seq<byte>, evidence: Option<Digest>, claims: Option<Digest>)

  /** The leaf that a node adds. */
  function EntryLeaf(sha: Sha, tx: Transaction): Digest {
    var written := sha(tx.writeSet);
    match (tx.evidence, tx.claims)
    case (Some(evidence), None) => sha(written + evidence)
    case (Some(evidence), Some(claims)) => sha(written + evidence + claims)
    case (None, None) => written
    case (None, Some(claims)) => sha(written + claims)
  }

  /** The leaf that the audit computes; `None` where its assertion fails. */
  function AuditLeaf(sha: Sha, tx: Transaction): Option<Digest> {
    var written := sha(tx.writeSet);
    match tx.claims
    case None =>
      (match tx.evidence
       case None => Some(written)
       case Some(evidence) => Some(sha(written + evidence)))
    case Some(claims) =>
      if tx.evidence.None? || tx.evidence.value == [] then None
      else Some(sha(written + tx.evidence.value + claims))
  }

  predicate Auditable(tx: Transaction) {
    tx.claims.Some? ==> tx.evidence.Some? && |tx.evidence.value| > 0
  }

  lemma AuditAgrees(sha: Sha, tx: Transaction)
    ensures AuditLeaf(sha, tx) == if Auditable(tx) then Some(EntryLeaf(sha, tx)) else None
  {
  }

  function EntryLeaves(sha: Sha, txs: seq<Transaction>): (leaves: seq<Digest>)
    ensures |leaves| == |txs| && forall i :: 0 <= i < |txs| ==> leaves[i] == EntryLeaf(sha, txs[i])
  {
    seq(|txs|, i requires 0 <= i < |txs| => EntryLeaf(sha, txs[i]))
  }

  /** The components of the receipt that is issued for a transaction with this commit evidence. */
  function Issued(sha: Sha, tx: Transaction, evidence: seq<byte>): Components {
    Components(sha(tx.writeSet), evidence, tx.claims)
  }

  predicate Evidences(sha: Sha, tx: Transaction, evidence: seq<byte>) {
    tx.evidence == Some(sha(evidence))
  }

  /** The receipt issued for any transaction of a ledger verifies against the root of the node's tree. */
  lemma IssuedReceiptVerifies(sha: Sha, txs: seq<Transaction>, i: nat, evidence: seq<byte>)
    requires i < |txs| && Evidences(sha, txs[i], evidence)
    ensures var leaves := EntryLeaves(sha, txs);
      Fold(sha, LeafDigest(sha, Issued(sha, txs[i], evidence)), Path(sha, leaves, i)) == BottomUp(sha, leaves)
  {
    hide Fold, Path, BottomUp;
    PathLeadsToRoot(sha, EntryLeaves(sha, txs), i);
  }

  /**
  A receipt with the directions of transaction `i` that folds to the root of the node's tree has the write set digest,
  the commit evidence and the claims of that transaction, and no other proof than its path; or else it and the receipt
  that was issued collide.
  */
  lemma ReceiptForTransaction(
    sha: Sha, txs: seq<Transaction>, i: nat, evidence: seq<byte>, c: Components, proof: seq<Step>)
    requires HashesSized(sha) && i < |txs| && Evidences(sha, txs[i], evidence) && ComponentsSized(c) && Sized(proof)
    requires txs[i].claims.Some? ==> |txs[i].claims.value| == DIGEST_SIZE
    requires var leaves := EntryLeaves(sha, txs);
      SameDirections(proof, Path(sha, leaves, i)) && Fold(sha, LeafDigest(sha, c), proof) == BottomUp(sha, leaves)
    ensures var issued, path := Issued(sha, txs[i], evidence), Path(sha, EntryLeaves(sha, txs), i);
      || (c == issued && proof == path) || LeavesCollide(sha, c, issued)
      || FoldsCollide(sha, LeafDigest(sha, c), proof, LeafDigest(sha, issued), path)
  {
    hide Fold, Path, BottomUp, LeavesCollide, FoldsCollide;
    var leaves := EntryLeaves(sha, txs);
    IssuedReceiptVerifies(sha, txs, i, evidence);
    PathSized(sha, leaves, i);
    ReceiptBinds(sha, c, proof, Issued(sha, txs[i], evidence), Path(sha, leaves, i));
  }

  // ----- Auditing a ledger

  /** The leaves that the audit computes, if none of its assertions fails. */
  function AuditLeaves(sha: Sha, txs: seq<Transaction>): Option<seq<Digest>> {
    if txs == [] then Some([])
    else
      match (AuditLeaf(sha, txs[0]), AuditLeaves(sha, txs[1..]))
      case (Some(leaf), Some(rest)) => Some([leaf] + rest)
      case _ => None
  }

  lemma LeavesFirst(sha: Sha, tx: Transaction, rest: seq<Transaction>)
    ensures EntryLeaves(sha, [tx] + rest) == [EntryLeaf(sha, tx)] + EntryLeaves(sha, rest)
  {
  }

  /** The audit of a ledger ends with the leaves of the node's tree, and so with its root, exactly if no transaction has
      claims without commit evidence. */
  lemma {:induction false} AuditFindsTree(sha: Sha, txs: seq<Transaction>)
    ensures AuditLeaves(sha, txs) ==
      if forall tx <- txs :: Auditable(tx) then Some(EntryLeaves(sha, txs)) else None
  {
    hide AuditLeaf, EntryLeaf, Auditable;
    if txs == [] {
      assert EntryLeaves(sha, txs) == [];
    } else {
      var first, rest := txs[0], txs[1..];
      assert txs == [first] + rest;
      AuditFindsTree(sha, rest);
      AuditAgrees(sha, first);
      LeavesFirst(sha, first, rest);
      assert (forall tx <- txs :: Auditable(tx)) <==> Auditable(first) && forall tx <- rest :: Auditable(tx);
    }
  }
}
