/** The vocabulary shared by every model of the session workspace: what a directory
    entry is, and how a stored claim about a file is checked. */
module Volumes {

  datatype Option<+T> = None | Some(value: T)

  /** Stands for the device and inode (or volume and file index) of a file. */
  type Identity = nat

  /** Stands for a SHA-256 digest; digests are taken to be collision free. */
  type Digest = nat

  datatype Node = File(id: Identity, digest: Digest) | Directory(id: Identity)

  /** What one directory entry holds: nothing, a file or a directory. */
  type Slot = Option<Node>

  /** What a record remembers about a file. An empty string in the record is `None`. */
  datatype Claim = Claim(id: Option<Identity>, digest: Option<Digest>)

  const NO_CLAIM := Claim(None, None)

  predicate IsFile(slot: Slot) {
    slot.Some? && slot.value.File?
  }

  predicate IsDirectory(slot: Slot) {
    slot.Some? && slot.value.Directory?
  }

  /** The identity alone agrees with the claim. */
  predicate SameIdentity(slot: Slot, claim: Claim) {
    slot.Some? && claim.id == Some(slot.value.id)
  }

  /** A regular file whose identity and content both agree with the claim. */
  predicate Proof(slot: Slot, claim: Claim) {
    IsFile(slot) && SameIdentity(slot, claim) && claim.digest == Some(slot.value.digest)
  }

  function ClaimOf(file: Node): Claim
    requires file.File?
  {
    Claim(Some(file.id), Some(file.digest))
  }

  /** A claim with both parts is proved by one file and one content only: a file with this
      identity that was rewritten is no proof, and neither is a copy. */
  lemma ProofExactlyOfItsFile(slot: Slot, id: Identity, digest: Digest)
    ensures Proof(slot, Claim(Some(id), Some(digest))) <==> slot == Some(File(id, digest))
  {
  }

  function At<K, V>(m: map<K, V>, k: K): Option<V> {
    if k in m then Some(m[k]) else None
  }
}
