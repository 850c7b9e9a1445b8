/** What one saved root says about every block the sentinel verified to get to it. */
module ChainTheorems {
  import opened Common
  import opened Material
  import opened Binding
  import opened BlockTheorems
  import opened Proof
  import opened Sentinel
  import opened SentinelTheorems

  /** An entry whose material the block scan extracted from its bytes. */
  predicate Scanned(lib: Library, v: Verified) {
    ExtractProofMaterial(lib, v.bytes) == Success(v.material) && v.number == v.material.blockNumber
  }

  /** Entries numbered without gaps, each footer naming the root before it. */
  predicate Linked(lib: Library, log: seq<Verified>) {
    forall i :: 0 <= i < |log| ==>
      && Scanned(lib, log[i]) && log[i].number == log[0].number + i
      && (i > 0 ==> log[i].material.previousBlockRoot == log[i - 1].material.blockRoot)
  }

  /** The k-th entry before the last one. */
  function Back(log: seq<Verified>, k: nat): Verified
    requires k < |log|
  {
    log[|log| - 1 - k]
  }

  function FooterOf(lib: Library, v: Verified): Footer
    requires Scanned(lib, v)
  {
    LastFooter(lib, ItemsIn(lib, v.bytes).value).value
  }

  predicate SameEntry(lib: Library, v: Verified, w: Verified) {
    && Scanned(lib, v) && Scanned(lib, w) && v.number == w.number
    && SameBlock(lib, ItemsIn(lib, v.bytes).value, ItemsIn(lib, w.bytes).value)
  }

  predicate SameClaims(lib: Library, v: Verified, w: Verified) {
    && Scanned(lib, v) && Scanned(lib, w)
    && FooterOf(lib, v).previousBlockRoot == FooterOf(lib, w).previousBlockRoot
    && FooterOf(lib, v).allBlockHashesRoot == FooterOf(lib, w).allBlockHashesRoot
  }

  /** What was hashed to get the roots of two entries contains a collision. */
  ghost predicate Collide(lib: Library, v: Verified, w: Verified) {
    && Scanned(lib, v) && Scanned(lib, w)
    && Collision(lib.sha384, BlockInputs(lib, ItemsIn(lib, v.bytes).value), BlockInputs(lib, ItemsIn(lib, w.bytes).value))
  }

  lemma RootsMeet(lib: Library, v: Verified, w: Verified)
    requires Scanned(lib, v) && Scanned(lib, w) && v.material.blockRoot == w.material.blockRoot
    ensures SameEntry(lib, v, w) || Collide(lib, v, w)
  {
    BlockBinding(lib, v.bytes, w.bytes);
  }

  lemma ClaimsMeet(lib: Library, v: Verified, w: Verified)
    requires SameEntry(lib, v, w) && |v.material.previousBlockRoot| == |w.material.previousBlockRoot|
    ensures SameClaims(lib, v, w) && v.material.previousBlockRoot == w.material.previousBlockRoot
  {
    SameBlockSameRoot(lib, v.bytes, w.bytes);
  }

  /** Both entries are the same block, and where both logs go on further back, so are the two chain hashes. */
  predicate AgreeAt(lib: Library, a: seq<Verified>, b: seq<Verified>, k: nat)
    requires k < |a| && k < |b|
  {
    && SameEntry(lib, Back(a, k), Back(b, k))
    && (k + 1 < |a| && k + 1 < |b| ==> SameClaims(lib, Back(a, k), Back(b, k)))
  }

  lemma OneStepBack(lib: Library, a: seq<Verified>, b: seq<Verified>, k: nat)
    requires Linked(lib, a) && Linked(lib, b) && k < |a| && k < |b|
    requires Back(a, k).material.blockRoot == Back(b, k).material.blockRoot
    ensures AgreeAt(lib, a, b, k) || Collide(lib, Back(a, k), Back(b, k))
    ensures AgreeAt(lib, a, b, k) && k + 1 < |a| && k + 1 < |b| ==>
              Back(a, k + 1).material.blockRoot == Back(b, k + 1).material.blockRoot
  {
    var v, w := Back(a, k), Back(b, k);
    RootsMeet(lib, v, w);
    if SameEntry(lib, v, w) && k + 1 < |a| && k + 1 < |b| {
      assert v.material.previousBlockRoot == Back(a, k + 1).material.blockRoot;
      assert w.material.previousBlockRoot == Back(b, k + 1).material.blockRoot;
      ClaimsMeet(lib, v, w);
    }
  }

  /** Logs that end at one root agree entry by entry backwards, as far as both go, or collide somewhere. */
  lemma {:induction false} AgreeBack(lib: Library, a: seq<Verified>, b: seq<Verified>, k: nat)
    returns (collided: bool, at: nat)
    requires Linked(lib, a) && Linked(lib, b) && k < |a| && k < |b|
    requires Back(a, 0).material.blockRoot == Back(b, 0).material.blockRoot
    ensures collided ==> at <= k && Collide(lib, Back(a, at), Back(b, at))
    ensures !collided ==>
              && (forall j :: 0 <= j <= k ==> AgreeAt(lib, a, b, j))
              && (k + 1 < |a| && k + 1 < |b| ==> Back(a, k + 1).material.blockRoot == Back(b, k + 1).material.blockRoot)
  {
    collided, at := false, k;
    if k > 0 {
      collided, at := AgreeBack(lib, a, b, k - 1);
    }
    if !collided {
      OneStepBack(lib, a, b, k);
      collided, at := !AgreeAt(lib, a, b, k), k;
    }
  }

  predicate OneRange(lib: Library, a: seq<Verified>, b: seq<Verified>) {
    forall k :: 0 <= k < |a| && k < |b| ==> AgreeAt(lib, a, b, k)
  }

  ghost predicate Collided(lib: Library, a: seq<Verified>, b: seq<Verified>) {
    exists k :: 0 <= k < |a| && k < |b| && Collide(lib, Back(a, k), Back(b, k))
  }

  lemma RangesMeet(lib: Library, a: seq<Verified>, b: seq<Verified>)
    requires Linked(lib, a) && Linked(lib, b) && a != [] && b != []
    requires Back(a, 0).material.blockRoot == Back(b, 0).material.blockRoot
    ensures OneRange(lib, a, b) || Collided(lib, a, b)
  {
    var last := if |a| < |b| then |a| - 1 else |b| - 1;
    var collided, at := AgreeBack(lib, a, b, last);
    if collided {
      assert Collide(lib, Back(a, at), Back(b, at));
    } else {
      forall k | 0 <= k < |a| && k < |b| ensures AgreeAt(lib, a, b, k) {
        assert k <= last;
      }
    }
  }

  lemma LengthsMeet(lib: Library, a: seq<Verified>, b: seq<Verified>)
    requires Linked(lib, a) && Linked(lib, b) && a != [] && b != [] && OneRange(lib, a, b)
    ensures a[0].number == b[0].number ==> |a| == |b|
  {
    assert AgreeAt(lib, a, b, 0);
  }

  lemma SafeIsLinked(lib: Library, crypto: Crypto, blockProofs: bool, log: seq<Verified>, file: StateFile)
    requires Safe(Production(lib, crypto, blockProofs), log, file)
    ensures Linked(lib, log)
    ensures log != [] ==> file.anchor.lastRoot == Some(Hex(Back(log, 0).material.blockRoot))
  {
    forall i | 0 <= i < |log|
      ensures Scanned(lib, log[i]) && log[i].number == log[0].number + i
      ensures i > 0 ==> log[i].material.previousBlockRoot == log[i - 1].material.blockRoot
    {
      assert GoodBlock(Production(lib, crypto, blockProofs), log, i);
    }
  }

  /**
   * One saved root fixes the whole verified range. Sentinels of any build and any run history whose
   * state files name one root verified the same blocks, back to where the shorter log began, or two of
   * those blocks collide. Comparing roots from block to block also settles how the two chain hashes are
   * split, which one block's root leaves open.
   */
  lemma LastRootFixesTheRange(lib: Library,
                              crypto: Crypto, proofs: bool, a: seq<Verified>, fileA: StateFile,
                              crypto': Crypto, proofs': bool, b: seq<Verified>, fileB: StateFile)
    requires Safe(Production(lib, crypto, proofs), a, fileA) && Safe(Production(lib, crypto', proofs'), b, fileB)
    requires a != [] && b != [] && fileA.anchor.lastRoot == fileB.anchor.lastRoot
    ensures OneRange(lib, a, b) || Collided(lib, a, b)
    ensures a[0].number == b[0].number ==> |a| == |b| || Collided(lib, a, b)
  {
    SafeIsLinked(lib, crypto, proofs, a, fileA);
    SafeIsLinked(lib, crypto', proofs', b, fileB);
    HexIsInjective(Back(a, 0).material.blockRoot, Back(b, 0).material.blockRoot);
    RangesMeet(lib, a, b);
    if OneRange(lib, a, b) { LengthsMeet(lib, a, b); }
  }
}
