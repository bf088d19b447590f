/**
 * The level-by-level reading of merkle_drop/merkle_tree.py, on hashes only: one round of the
 * `while` loop in `build_tree` maps a level to the next (`Reduce`), the root is what remains
 * when a single hash is left (`MerkleRoot`), a leaf's proof is the list of hashes it is paired
 * with on the way up (`Siblings`), and `validate_proof` folds such a list back into a root
 * (`Fold`). The arena-based tree of module MerkleTree is proved to agree with these functions.
 */
module MerkleLevels {
  import opened MerkleHash

  /** Position `p` of a level of `n` nodes has a partner: `zip` pairs (0,1), (2,3), ... and
      leaves an odd last node alone. */
  predicate Paired(n: nat, p: nat) {
    p + 1 < n || (p + 1 == n && n % 2 == 0)
  }

  /** The position `p` is paired with. */
  function Partner(p: nat): nat {
    if p % 2 == 0 then p + 1 else p - 1
  }

  /** One round of `build_tree`: hash each adjacent pair, carry an odd last hash up unchanged. */
  function Reduce(h: Hasher, hs: seq<Digest>): (r: seq<Digest>)
    ensures |r| == (|hs| + 1) / 2
  {
    if |hs| <= 1 then hs else [PairHash(h, hs[0], hs[1])] + Reduce(h, hs[2..])
  }

  /** Entry `q` of the next level hashes entries `2q` and `2q+1`, or is the carried odd last. */
  lemma {:induction false} ReduceAt(h: Hasher, hs: seq<Digest>, q: nat)
    requires q < (|hs| + 1) / 2
    ensures 2 * q + 1 < |hs| ==> Reduce(h, hs)[q] == PairHash(h, hs[2 * q], hs[2 * q + 1])
    ensures 2 * q + 1 == |hs| ==> Reduce(h, hs)[q] == hs[2 * q]
  {
    if |hs| > 1 {
      var tail := hs[2..];
      var r := Reduce(h, hs);
      assert r == [PairHash(h, hs[0], hs[1])] + Reduce(h, tail);
      if q > 0 {
        ReduceAt(h, tail, q - 1);
        assert r[q] == Reduce(h, tail)[q - 1];
        assert 2 * q + 1 < |hs| ==> tail[2 * (q - 1)] == hs[2 * q] && tail[2 * (q - 1) + 1] == hs[2 * q + 1];
        assert 2 * q + 1 == |hs| ==> tail[2 * (q - 1)] == hs[2 * q];
      }
    }
  }

  /** The hash left when rounds are repeated until one remains: `tree.root.hash`. */
  function MerkleRoot(h: Hasher, hs: seq<Digest>): Digest
    requires |hs| >= 1
    decreases |hs|
  {
    if |hs| == 1 then hs[0] else MerkleRoot(h, Reduce(h, hs))
  }

  /** The proof of position `p`: the partner's hash at every level where `p` has a partner. */
  function Siblings(h: Hasher, hs: seq<Digest>, p: nat): seq<Digest>
    requires p < |hs|
    decreases |hs|
  {
    if |hs| == 1 then []
    else (if Paired(|hs|, p) then [hs[Partner(p)]] else []) + Siblings(h, Reduce(h, hs), p / 2)
  }

  /** `hash = sha(hash, h)` for each `h` of the proof, in order. */
  function Fold(h: Hasher, d: Digest, proof: seq<Digest>): Digest
    decreases |proof|
  {
    if |proof| == 0 then d else Fold(h, PairHash(h, d, proof[0]), proof[1..])
  }

  /** The number of levels at which position `p` of `n` leaves has a partner. */
  function PathLength(n: nat, p: nat): nat
    decreases n
  {
    if n <= 1 then 0 else (if Paired(n, p) then 1 else 0) + PathLength((n + 1) / 2, p / 2)
  }

  lemma {:induction false} FoldSnoc(h: Hasher, d: Digest, proof: seq<Digest>, x: Digest)
    ensures Fold(h, d, proof + [x]) == PairHash(h, Fold(h, d, proof), x)
    decreases |proof|
  {
    if |proof| == 0 {
      assert [] + [x] == [x] && [x][1..] == [];
    } else {
      assert (proof + [x])[1..] == proof[1..] + [x];
      FoldSnoc(h, PairHash(h, d, proof[0]), proof[1..], x);
    }
  }

  /** Where `p` has a partner, hashing `p`'s hash with the partner's gives the parent's hash,
      whichever of the two is on the left. */
  lemma PairWithPartner(h: Hasher, hs: seq<Digest>, p: nat)
    requires p < |hs| && Paired(|hs|, p)
    ensures PairHash(h, hs[p], hs[Partner(p)]) == Reduce(h, hs)[p / 2]
  {
    var q := p / 2;
    PartnerPositions(|hs|, p);
    ReduceAt(h, hs, q);
    if p % 2 == 1 {
      PairHashSymmetric(h, hs[2 * q + 1], hs[2 * q]);
    }
  }

  lemma PartnerPositions(n: nat, p: nat)
    requires Paired(n, p)
    ensures 2 * (p / 2) + 1 < n
    ensures p % 2 == 1 ==> p == 2 * (p / 2) + 1 && Partner(p) == 2 * (p / 2)
    ensures p % 2 == 0 ==> p == 2 * (p / 2) && Partner(p) == 2 * (p / 2) + 1
  {
  }

  /** An unpaired position is the odd last one, carried up unchanged. */
  lemma CarriedUp(h: Hasher, hs: seq<Digest>, p: nat)
    requires p < |hs| && !Paired(|hs|, p)
    ensures p == |hs| - 1 && |hs| % 2 == 1 && p / 2 == |Reduce(h, hs)| - 1
    ensures Reduce(h, hs)[p / 2] == hs[p]
  {
    ReduceAt(h, hs, p / 2);
  }

  /** Completeness on hashes: folding a position's proof into its own hash gives the root. */
  lemma {:induction false} SiblingsFoldToRoot(h: Hasher, hs: seq<Digest>, p: nat)
    requires p < |hs|
    ensures Fold(h, hs[p], Siblings(h, hs, p)) == MerkleRoot(h, hs)
    decreases |hs|
  {
    if |hs| > 1 {
      var up := Reduce(h, hs);
      var rest := Siblings(h, up, p / 2);
      SiblingsFoldToRoot(h, up, p / 2);
      if Paired(|hs|, p) {
        PartnerPositions(|hs|, p);
        PairWithPartner(h, hs, p);
        var s := [hs[Partner(p)]] + rest;
        assert s[0] == hs[Partner(p)] && s[1..] == rest;
      } else {
        CarriedUp(h, hs, p);
        assert [] + rest == rest;
      }
    }
  }

  /** A proof has one entry per level at which the position was paired. */
  lemma {:induction false} SiblingsLength(h: Hasher, hs: seq<Digest>, p: nat)
    requires p < |hs|
    ensures |Siblings(h, hs, p)| == PathLength(|hs|, p)
    decreases |hs|
  {
    if |hs| > 1 {
      SiblingsLength(h, Reduce(h, hs), p / 2);
    }
  }

  /** Every hash of the level is a digest of SHA-256's length. */
  ghost predicate AllDigests(hs: seq<Digest>) {
    forall i :: 0 <= i < |hs| ==> |hs[i]| == DigestLength
  }

  /** Under 32-byte digests a round of pairing yields 32-byte hashes only. */
  lemma {:induction false} ReduceDigests(h: Hasher, hs: seq<Digest>)
    requires Sha256Shaped(h) && AllDigests(hs)
    ensures AllDigests(Reduce(h, hs))
    decreases |hs|
  {
    if |hs| > 1 {
      var rest := hs[2..];
      assert AllDigests(rest) by {
        forall i | 0 <= i < |rest| ensures |rest[i]| == DigestLength {
          assert rest[i] == hs[i + 2];
        }
      }
      ReduceDigests(h, rest);
      PairHashLength(h, hs[0], hs[1]);
    }
  }

  /** Under 32-byte digests the root and every hash of a proof are 32 bytes: the `bytes32`
      values the drop contract is given. */
  lemma {:induction false} RootAndProofDigests(h: Hasher, hs: seq<Digest>, p: nat)
    requires Sha256Shaped(h) && AllDigests(hs) && p < |hs|
    ensures |MerkleRoot(h, hs)| == DigestLength && AllDigests(Siblings(h, hs, p))
    decreases |hs|
  {
    if |hs| > 1 {
      ReduceDigests(h, hs);
      RootAndProofDigests(h, Reduce(h, hs), p / 2);
    }
  }

  /** A single hash is its own root and has the empty proof. */
  lemma SingleLevel(h: Hasher, d: Digest)
    ensures MerkleRoot(h, [d]) == d && Siblings(h, [d], 0) == []
  {
  }

  /** The proof lengths of `merkle_tree.py`'s five-value example and of a three-leaf tree:
      positions 0 and 4 of five leaves need 3 and 1 hashes, position 0 of three leaves 2. */
  lemma ExamplePathLengths()
    ensures PathLength(5, 0) == 3 && PathLength(5, 4) == 1 && PathLength(3, 0) == 2
  {
  }
}
