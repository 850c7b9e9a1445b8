/** Verifying one block's proof, and one transaction's inclusion in a block. */
module Proof {
  import opened Common
  import opened Merkle
  import opened Material

  datatype HintsChecks = HintsChecks(
    thresholdMet: bool,
    blsSignatureValid: bool,
    mergedKzgValid: bool,
    parsumKzgValid: bool,
    bSkIdentityValid: bool,
    parsumAccumulationValid: bool,
    parsumConstraintValid: bool,
    bitmapWellFormednessValid: bool,
    bitmapConstraintValid: bool,
    degreeCheckValid: bool)
  {
    predicate AllPassed() {
      && thresholdMet && blsSignatureValid && mergedKzgValid && parsumKzgValid && bSkIdentityValid
      && parsumAccumulationValid && parsumConstraintValid && bitmapWellFormednessValid
      && bitmapConstraintValid && degreeCheckValid
    }
  }

  /** The three cryptographic verifiers, as arbitrary functions; None is a structural error. */
  datatype Crypto = Crypto(
    hints: (ProofLayout, Digest) -> Option<HintsChecks>,
    schnorr: (ProofLayout, Bootstrap) -> Option<bool>,
    wraps: (ProofLayout, Bootstrap) -> Option<bool>)

  datatype BlockProofVerification = BlockProofVerification(
    blockNumber: u64,
    hints: HintsChecks,
    schnorr: Option<bool>,
    wraps: Option<bool>)
  {
    predicate Valid() {
      hints.AllPassed() && (schnorr.None? || schnorr.value) && (wraps.None? || wraps.value)
    }
  }

  function VerifyProofOverRoot(crypto: Crypto, material: BlockProofMaterial, bootstrap: Bootstrap, root: Digest)
    : Result<BlockProofVerification>
  {
    match crypto.hints(material.layout, root)
    case None => Failure(HintsRejected)
    case Some(hints) =>
      match material.layout.path
      case AggregateSchnorr =>
        var schnorr := crypto.schnorr(material.layout, bootstrap);
        if schnorr.None? then Failure(SchnorrRejected)
        else Success(BlockProofVerification(material.blockNumber, hints, schnorr, None))
      case WrapsCompressedProof =>
        var wraps := crypto.wraps(material.layout, bootstrap);
        if wraps.None? then Failure(WrapsRejected)
        else Success(BlockProofVerification(material.blockNumber, hints, None, wraps))
      case Unknown => Failure(UnknownProofSuffix)
  }

  function VerifyBlockProof(crypto: Crypto, material: BlockProofMaterial, bootstrap: Bootstrap)
    : Result<BlockProofVerification>
  {
    VerifyProofOverRoot(crypto, material, bootstrap, material.blockRoot)
  }

  function VerifyInclusion(sha384: Sha384, crypto: Crypto, tx: Bytes, w: BlockInclusionWitness,
                           material: BlockProofMaterial, bootstrap: Bootstrap): Result<BlockProofVerification>
  {
    var recomputed := RecomputedRoot(sha384, tx, w);
    if recomputed != material.blockRoot then Failure(RootMismatch)
    else VerifyProofOverRoot(crypto, material, bootstrap, recomputed)
  }

  /** A valid outcome always rests on the hinTS check and on exactly one suffix check. */
  lemma ValidRestsOnBothChecks(crypto: Crypto, material: BlockProofMaterial, bootstrap: Bootstrap, root: Digest)
    ensures var r := VerifyProofOverRoot(crypto, material, bootstrap, root);
            (r.Success? && r.value.Valid()) <==>
              && crypto.hints(material.layout, root).Some? && crypto.hints(material.layout, root).value.AllPassed()
              && ((material.layout.path.AggregateSchnorr? && crypto.schnorr(material.layout, bootstrap) == Some(true))
                  || (material.layout.path.WrapsCompressedProof? && crypto.wraps(material.layout, bootstrap) == Some(true)))
  {
    match material.layout.path {
      case AggregateSchnorr =>
      case WrapsCompressedProof =>
      case Unknown =>
    }
  }

  /** A mismatch is reported exactly for a witness that recomputes another root; otherwise it is block verification. */
  lemma MismatchExactly(sha384: Sha384, crypto: Crypto, tx: Bytes, w: BlockInclusionWitness,
                        material: BlockProofMaterial, bootstrap: Bootstrap)
    ensures var r := VerifyInclusion(sha384, crypto, tx, w, material, bootstrap);
            && (r == Failure(RootMismatch) <==> RecomputedRoot(sha384, tx, w) != material.blockRoot)
            && (r != Failure(RootMismatch) ==> r == VerifyBlockProof(crypto, material, bootstrap))
  {
  }

  /** What verifying a block answers: number, checks and the one suffix outcome, or the first part that cannot be read. */
  lemma BlockProofAnswers(crypto: Crypto, material: BlockProofMaterial, bootstrap: Bootstrap)
    ensures var (r, hints) := (VerifyBlockProof(crypto, material, bootstrap), crypto.hints(material.layout, material.blockRoot));
            var (schnorr, wraps) := (crypto.schnorr(material.layout, bootstrap), crypto.wraps(material.layout, bootstrap));
            && (hints == None ==> r == Failure(HintsRejected))
            && (hints != None && material.layout.path == Unknown ==> r == Failure(UnknownProofSuffix))
            && (hints != None && material.layout.path == AggregateSchnorr ==>
                  r == if schnorr == None then Failure(SchnorrRejected)
                       else Success(BlockProofVerification(material.blockNumber, hints.value, schnorr, None)))
            && (hints != None && material.layout.path == WrapsCompressedProof ==>
                  r == if wraps == None then Failure(WrapsRejected)
                       else Success(BlockProofVerification(material.blockNumber, hints.value, None, wraps)))
  {
  }
}
