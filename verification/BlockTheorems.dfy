/** What the block scan, the inclusion witness and the block root promise each other. */
module BlockTheorems {
  import opened Common
  import opened Wire
  import opened WireRoundTrip
  import opened Merkle
  import opened Material
  import opened Binding
  import opened Proof

  // ----- Witness completeness ----------------------------------------------------------------

  /** Whenever both walks of a block succeed, its witness recomputes its root. */
  lemma WitnessRecomputesRoot(lib: Library, bytes: Bytes, index: nat)
    requires WitnessedFrom(lib, bytes, index).Success? && ExtractProofMaterial(lib, bytes).Success?
    ensures ItemsIn(lib, bytes).Success?
    ensures var input := Selected(ItemsIn(lib, bytes).value, InputSlot);
            var (tx, w) := WitnessedFrom(lib, bytes, index).value;
            && index < |input| && tx == input[index]
            && RecomputedRoot(lib.sha384, tx, w) == ExtractProofMaterial(lib, bytes).value.blockRoot
  {
    var input := Selected(ItemsIn(lib, bytes).value, InputSlot);
    WitnessComplete(lib.sha384, LeafHashes(lib.sha384, input), index);
  }

  /** So checking a block's own transaction with its own witness is verifying the block. */
  lemma OwnInclusionVerifies(lib: Library, crypto: Crypto, bytes: Bytes, index: nat, bootstrap: Bootstrap)
    requires WitnessedFrom(lib, bytes, index).Success? && ExtractProofMaterial(lib, bytes).Success?
    ensures var (tx, w) := WitnessedFrom(lib, bytes, index).value;
            var material := ExtractProofMaterial(lib, bytes).value;
            VerifyInclusion(lib.sha384, crypto, tx, w, material, bootstrap) == VerifyBlockProof(crypto, material, bootstrap)
  {
    WitnessRecomputesRoot(lib, bytes, index);
    var (tx, w) := WitnessedFrom(lib, bytes, index).value;
    MismatchExactly(lib.sha384, crypto, tx, w, ExtractProofMaterial(lib, bytes).value, bootstrap);
  }

  lemma {:induction false} FewerDecodesFewerFaults(lib: Library, items: seq<ScannedItem>)
    requires FirstFault(lib, items, SCAN_DECODES).None?
    ensures FirstFault(lib, items, WITNESS_DECODES).None?
  {
    if items != [] {
      FewerDecodesFewerFaults(lib, items[..|items| - 1]);
    }
  }

  /** For a block the scan accepts: exactly which indices have a witness. */
  lemma WitnessExistsExactly(lib: Library, bytes: Bytes, index: nat)
    requires ScannedFrom(lib, bytes).Success?
    ensures var items := ItemsIn(lib, bytes).value;
            var footer := LastFooter(lib, items).value;
            WitnessedFrom(lib, bytes, index).Success? <==>
              && index < |Selected(items, InputSlot)|
              && |StateRoot(footer)| == |footer.previousBlockRoot| == |footer.allBlockHashesRoot| == HASH_LENGTH
  {
    FewerDecodesFewerFaults(lib, ItemsIn(lib, bytes).value);
  }

  // ----- Interleaving ------------------------------------------------------------------------

  /** The header is itself a leaf of the output tree, so that list alone decides it. */
  function HeaderAmong(lib: Library, outputs: seq<Bytes>): Option<Header> {
    if outputs == [] then None
    else
      var last := outputs[|outputs| - 1];
      if ItemKind(last) == Success(F_BLOCK_HEADER) && lib.header(last).Some? then lib.header(last)
      else HeaderAmong(lib, outputs[..|outputs| - 1])
  }

  predicate KindsAreReal(items: seq<ScannedItem>) {
    forall i :: 0 <= i < |items| ==> items[i].bytes != [] && ItemKind(items[i].bytes) == Success(items[i].kind)
  }

  lemma ScannedKindsAreReal(lib: Library, bytes: Bytes)
    requires ItemsIn(lib, bytes).Success?
    ensures KindsAreReal(ItemsIn(lib, bytes).value)
  {
    ItemsNonEmpty(lib.inflate(bytes).value, 0);
  }

  lemma {:induction false} HeaderIsAnOutput(lib: Library, items: seq<ScannedItem>)
    requires KindsAreReal(items)
    ensures LastHeader(lib, items) == HeaderAmong(lib, Selected(items, OutputSlot))
  {
    if items != [] {
      var last := items[|items| - 1];
      var before := Selected(items[..|items| - 1], OutputSlot);
      HeaderIsAnOutput(lib, items[..|items| - 1]);
      if SlotOf(last.kind) == Success(OutputSlot) {
        assert (before + [last.bytes])[..|before|] == before;
      } else {
        assert Selected(items, OutputSlot) == before;
      }
    }
  }

  predicate SameLists(a: seq<ScannedItem>, b: seq<ScannedItem>) {
    && Selected(a, OutputSlot) == Selected(b, OutputSlot)
    && Selected(a, ConsensusSlot) == Selected(b, ConsensusSlot)
    && Selected(a, InputSlot) == Selected(b, InputSlot)
    && Selected(a, StateChangesSlot) == Selected(b, StateChangesSlot)
    && Selected(a, TraceSlot) == Selected(b, TraceSlot)
  }

  /**
   * Items of different categories may be interleaved in any way, and proofs or record files
   * inserted anywhere: root, number and previous-root claim depend only on the five lists and
   * the footer.
   */
  lemma InterleavingInvariance(lib: Library, a: Bytes, b: Bytes)
    requires ScannedFrom(lib, a).Success? && ScannedFrom(lib, b).Success?
    requires SameLists(ItemsIn(lib, a).value, ItemsIn(lib, b).value)
    requires LastFooter(lib, ItemsIn(lib, a).value) == LastFooter(lib, ItemsIn(lib, b).value)
    ensures ChainInfo(lib, a) == ChainInfo(lib, b)
  {
    ScannedKindsAreReal(lib, a);
    ScannedKindsAreReal(lib, b);
    HeaderIsAnOutput(lib, ItemsIn(lib, a).value);
    HeaderIsAnOutput(lib, ItemsIn(lib, b).value);
  }

  // ----- Binding -----------------------------------------------------------------------------

  /** Everything hashed to get the root of a scanned block. */
  function BlockInputs(lib: Library, items: seq<ScannedItem>): set<Bytes>
    requires LastHeader(lib, items).Some? && LastFooter(lib, items).Some?
  {
    UpperInputs(lib.sha384, UpperOf(lib.sha384, items, LastHeader(lib, items).value, LastFooter(lib, items).value))
    + TreeInputs(lib.sha384, Selected(items, OutputSlot))
    + TreeInputs(lib.sha384, Selected(items, ConsensusSlot))
    + TreeInputs(lib.sha384, Selected(items, InputSlot))
    + TreeInputs(lib.sha384, Selected(items, StateChangesSlot))
    + TreeInputs(lib.sha384, Selected(items, TraceSlot))
  }

  /** Everything hashed to recompute a block root from a witness. */
  function RecomputeInputs(sha384: Sha384, tx: Bytes, w: BlockInclusionWitness): set<Bytes> {
    ClimbInputs(sha384, tx, Steps(w.inputWitness))
    + UpperInputs(sha384, UpperOfWitness(Folded(sha384, HashLeaf(sha384, tx), w.inputWitness), w))
  }

  /** A block's root depends on the hash function at these inputs only. */
  lemma BlockInputsSuffice(lib: Library, g: Sha384, items: seq<ScannedItem>)
    requires LastHeader(lib, items).Some? && LastFooter(lib, items).Some?
    requires Agree(lib.sha384, g, BlockInputs(lib, items))
    ensures var (header, footer) := (LastHeader(lib, items).value, LastFooter(lib, items).value);
            BlockRoot(lib.sha384, UpperOf(lib.sha384, items, header, footer)) == BlockRoot(g, UpperOf(g, items, header, footer))
  {
    TreeInputsSuffice(lib.sha384, g, Selected(items, OutputSlot));
    TreeInputsSuffice(lib.sha384, g, Selected(items, ConsensusSlot));
    TreeInputsSuffice(lib.sha384, g, Selected(items, InputSlot));
    TreeInputsSuffice(lib.sha384, g, Selected(items, StateChangesSlot));
    TreeInputsSuffice(lib.sha384, g, Selected(items, TraceSlot));
    UpperInputsSuffice(lib.sha384, g, UpperOf(lib.sha384, items, LastHeader(lib, items).value, LastFooter(lib, items).value));
  }

  lemma RecomputeInputsSuffice(f: Sha384, g: Sha384, tx: Bytes, w: BlockInclusionWitness)
    requires Agree(f, g, RecomputeInputs(f, tx, w))
    ensures RecomputedRoot(f, tx, w) == RecomputedRoot(g, tx, w)
  {
    ClimbInputsSuffice(f, g, tx, Steps(w.inputWitness));
    UpperInputsSuffice(f, g, UpperOfWitness(Folded(f, HashLeaf(f, tx), w.inputWitness), w));
  }

  /** The one claim a root leaves open: no bytes at all, in a block without transactions. */
  predicate EmptyClaim(lib: Library, items: seq<ScannedItem>, tx: Bytes)
    requires LastFooter(lib, items).Some?
  {
    var footer := LastFooter(lib, items).value;
    && tx == [] && Selected(items, InputSlot) == []
    && |footer.previousBlockRoot| + |footer.allBlockHashesRoot| == 2 * HASH_LENGTH && |StateRoot(footer)| == HASH_LENGTH
  }

  /**
   * Inclusion is binding: bytes that get past the root comparison, with a witness of any shape and
   * origin, are one of the block's signed transactions, or the two computations collide. What is then
   * returned is the block's own verification.
   */
  lemma InclusionBinding(lib: Library, crypto: Crypto, bytes: Bytes, tx: Bytes, w: BlockInclusionWitness, bootstrap: Bootstrap)
    requires ExtractProofMaterial(lib, bytes).Success? && !EmptyClaim(lib, ItemsIn(lib, bytes).value, tx)
    requires VerifyInclusion(lib.sha384, crypto, tx, w, ExtractProofMaterial(lib, bytes).value, bootstrap)
             != Failure(RootMismatch)
    ensures var items := ItemsIn(lib, bytes).value;
            || tx in Selected(items, InputSlot)
            || Collision(lib.sha384, RecomputeInputs(lib.sha384, tx, w), BlockInputs(lib, items))
    ensures var material := ExtractProofMaterial(lib, bytes).value;
            VerifyInclusion(lib.sha384, crypto, tx, w, material, bootstrap) == VerifyBlockProof(crypto, material, bootstrap)
  {
    var sha384, items := lib.sha384, ItemsIn(lib, bytes).value;
    var input := Selected(items, InputSlot);
    var u := UpperOfWitness(Folded(sha384, HashLeaf(sha384, tx), w.inputWitness), w);
    var v := UpperOf(sha384, items, LastHeader(lib, items).value, LastFooter(lib, items).value);
    var xs, ys := RecomputeInputs(sha384, tx, w), BlockInputs(lib, items);
    MismatchExactly(sha384, crypto, tx, w, ExtractProofMaterial(lib, bytes).value, bootstrap);
    UpperBinds(sha384, u, v);
    MoreInputs(sha384, UpperInputs(sha384, u), UpperInputs(sha384, v), xs, ys);
    if SameParts(u, v) {
      assert |v.previousBlockRoot + v.allBlockHashesRoot| == 2 * HASH_LENGTH;
      WitnessBinds(sha384, tx, w.inputWitness, input);
      MoreInputs(sha384, ClimbInputs(sha384, tx, Steps(w.inputWitness)), TreeInputs(sha384, input), xs, ys);
    }
  }

  /** For the open claim there is a witness, and checking it hashes nothing that the block did not. */
  lemma EmptyClaimPasses(lib: Library, bytes: Bytes) returns (w: BlockInclusionWitness)
    requires ScannedFrom(lib, bytes).Success? && EmptyClaim(lib, ItemsIn(lib, bytes).value, [])
    ensures RecomputedRoot(lib.sha384, [], w) == ScannedFrom(lib, bytes).value.blockRoot
    ensures RecomputeInputs(lib.sha384, [], w) <= BlockInputs(lib, ItemsIn(lib, bytes).value)
  {
    var sha384, items := lib.sha384, ItemsIn(lib, bytes).value;
    var v := UpperOf(sha384, items, LastHeader(lib, items).value, LastFooter(lib, items).value);
    var joined := v.previousBlockRoot + v.allBlockHashesRoot;
    w := BlockInclusionWitness(
      MerkleWitness([], [], None), v.outputRoot, v.consensusRoot, v.stateChangesRoot, v.traceRoot,
      v.stateRoot, joined[..HASH_LENGTH], joined[HASH_LENGTH..], v.timestamp);
    var u := UpperOfWitness(Folded(sha384, HashLeaf(sha384, []), w.inputWitness), w);
    assert Steps(w.inputWitness) == [];
    assert LeafHashes(sha384, []) == [];
    assert u.previousBlockRoot + u.allBlockHashesRoot == joined;
    RootIgnoresChainHashSplit(sha384, u, v);
    SamePartsSameInputs(sha384, u, v);
  }

  lemma SamePartsSameInputs(sha384: Sha384, u: UpperTree, v: UpperTree)
    requires SameParts(u, v)
    ensures UpperInputs(sha384, u) == UpperInputs(sha384, v)
  {
    assert NodeInput(u.previousBlockRoot, u.allBlockHashesRoot)
           == [INTERNAL_PREFIX] + (u.previousBlockRoot + u.allBlockHashesRoot);
    assert NodeInput(v.previousBlockRoot, v.allBlockHashesRoot)
           == [INTERNAL_PREFIX] + (v.previousBlockRoot + v.allBlockHashesRoot);
  }

  /** Every witness that gets these bytes past the comparison shows that the block holds them. */
  ghost predicate Binds(lib: Library, crypto: Crypto, bytes: Bytes, tx: Bytes, bootstrap: Bootstrap)
    requires ExtractProofMaterial(lib, bytes).Success?
  {
    var material, items := ExtractProofMaterial(lib, bytes).value, ItemsIn(lib, bytes).value;
    forall w :: VerifyInclusion(lib.sha384, crypto, tx, w, material, bootstrap) != Failure(RootMismatch) ==>
      || tx in Selected(items, InputSlot)
      || Collision(lib.sha384, RecomputeInputs(lib.sha384, tx, w), BlockInputs(lib, items))
  }

  /** For a block whose own hashes do not collide, inclusion binds exactly when the claim is not the open one. */
  lemma InclusionBindsExactly(lib: Library, crypto: Crypto, bytes: Bytes, tx: Bytes, bootstrap: Bootstrap)
    requires ExtractProofMaterial(lib, bytes).Success?
    requires var inputs := BlockInputs(lib, ItemsIn(lib, bytes).value); !Collision(lib.sha384, inputs, inputs)
    ensures Binds(lib, crypto, bytes, tx, bootstrap) <==> !EmptyClaim(lib, ItemsIn(lib, bytes).value, tx)
  {
    var items := ItemsIn(lib, bytes).value;
    if EmptyClaim(lib, items, tx) {
      var w := EmptyClaimPasses(lib, bytes);
      MismatchExactly(lib.sha384, crypto, tx, w, ExtractProofMaterial(lib, bytes).value, bootstrap);
      MoreInputs(lib.sha384, RecomputeInputs(lib.sha384, tx, w), BlockInputs(lib, items),
                 BlockInputs(lib, items), BlockInputs(lib, items));
    } else {
      forall w | VerifyInclusion(lib.sha384, crypto, tx, w, ExtractProofMaterial(lib, bytes).value, bootstrap) != Failure(RootMismatch)
        ensures tx in Selected(items, InputSlot)
                || Collision(lib.sha384, RecomputeInputs(lib.sha384, tx, w), BlockInputs(lib, items))
      {
        InclusionBinding(lib, crypto, bytes, tx, w, bootstrap);
      }
    }
  }

  lemma {:induction false} SelectedNoneEmpty(items: seq<ScannedItem>, slot: Slot)
    requires KindsAreReal(items)
    ensures NoneEmpty(Selected(items, slot))
  {
    if items != [] {
      SelectedNoneEmpty(items[..|items| - 1], slot);
    }
  }

  lemma SlotBinds(sha384: Sha384, a: seq<ScannedItem>, b: seq<ScannedItem>, slot: Slot, xs: set<Bytes>, ys: set<Bytes>)
    requires KindsAreReal(a) && KindsAreReal(b)
    requires SlotRoot(sha384, a, slot) == SlotRoot(sha384, b, slot)
    requires TreeInputs(sha384, Selected(a, slot)) <= xs && TreeInputs(sha384, Selected(b, slot)) <= ys
    ensures Selected(a, slot) == Selected(b, slot) || Collision(sha384, xs, ys)
  {
    SelectedNoneEmpty(a, slot);
    SelectedNoneEmpty(b, slot);
    RootsBind(sha384, Selected(a, slot), Selected(b, slot));
    MoreInputs(sha384, TreeInputs(sha384, Selected(a, slot)), TreeInputs(sha384, Selected(b, slot)), xs, ys);
  }

  /** What equal block roots pin down; the two chain hashes only as one concatenation. */
  predicate SameBlock(lib: Library, a: seq<ScannedItem>, b: seq<ScannedItem>) {
    && SameLists(a, b)
    && LastHeader(lib, a) == LastHeader(lib, b)
    && LastFooter(lib, a).Some? && LastFooter(lib, b).Some?
    && var (f, g) := (LastFooter(lib, a).value, LastFooter(lib, b).value);
       && StateRoot(f) == StateRoot(g)
       && f.previousBlockRoot + f.allBlockHashesRoot == g.previousBlockRoot + g.allBlockHashesRoot
  }

  lemma JoinedAlike(a: Bytes, b: Bytes, c: Bytes, d: Bytes)
    requires a + b == c + d
    ensures a == c && b == d <==> |a| == |c|
  {
    if |a| == |c| {
      assert a == (a + b)[..|a|] && c == (c + d)[..|a|];
      assert b == (a + b)[|a|..] && d == (c + d)[|a|..];
    }
  }

  /** Conversely the same block has one root, and the two claims agree exactly when their lengths do. */
  lemma SameBlockSameRoot(lib: Library, a: Bytes, b: Bytes)
    requires ScannedFrom(lib, a).Success? && ScannedFrom(lib, b).Success?
    requires SameBlock(lib, ItemsIn(lib, a).value, ItemsIn(lib, b).value)
    ensures ScannedFrom(lib, a).value.blockRoot == ScannedFrom(lib, b).value.blockRoot
    ensures var f, g := LastFooter(lib, ItemsIn(lib, a).value).value, LastFooter(lib, ItemsIn(lib, b).value).value;
            f.previousBlockRoot == g.previousBlockRoot && f.allBlockHashesRoot == g.allBlockHashesRoot
            <==> |f.previousBlockRoot| == |g.previousBlockRoot|
  {
    var p, q := ItemsIn(lib, a).value, ItemsIn(lib, b).value;
    var f, g := LastFooter(lib, p).value, LastFooter(lib, q).value;
    JoinedAlike(f.previousBlockRoot, f.allBlockHashesRoot, g.previousBlockRoot, g.allBlockHashesRoot);
    RootIgnoresChainHashSplit(lib.sha384,
      UpperOf(lib.sha384, p, LastHeader(lib, p).value, f), UpperOf(lib.sha384, q, LastHeader(lib, q).value, g));
  }

  /** Two scanned blocks with one root are the same block, up to a collision between what they hashed. */
  lemma BlockBinding(lib: Library, a: Bytes, b: Bytes)
    requires ScannedFrom(lib, a).Success? && ScannedFrom(lib, b).Success?
    requires ScannedFrom(lib, a).value.blockRoot == ScannedFrom(lib, b).value.blockRoot
    ensures var (items, items') := (ItemsIn(lib, a).value, ItemsIn(lib, b).value);
            SameBlock(lib, items, items') || Collision(lib.sha384, BlockInputs(lib, items), BlockInputs(lib, items'))
  {
    var sha384, p, q := lib.sha384, ItemsIn(lib, a).value, ItemsIn(lib, b).value;
    var xs, ys := BlockInputs(lib, p), BlockInputs(lib, q);
    var u := UpperOf(sha384, p, LastHeader(lib, p).value, LastFooter(lib, p).value);
    var v := UpperOf(sha384, q, LastHeader(lib, q).value, LastFooter(lib, q).value);
    UpperBinds(sha384, u, v);
    MoreInputs(sha384, UpperInputs(sha384, u), UpperInputs(sha384, v), xs, ys);
    if SameParts(u, v) {
      ScannedKindsAreReal(lib, a);
      ScannedKindsAreReal(lib, b);
      SlotBinds(sha384, p, q, OutputSlot, xs, ys);
      SlotBinds(sha384, p, q, ConsensusSlot, xs, ys);
      SlotBinds(sha384, p, q, InputSlot, xs, ys);
      SlotBinds(sha384, p, q, StateChangesSlot, xs, ys);
      SlotBinds(sha384, p, q, TraceSlot, xs, ys);
      HeaderIsAnOutput(lib, p);
      HeaderIsAnOutput(lib, q);
    }
  }

  /**
   * The scan never checks the lengths of the two chain hashes, and moving bytes from one to the
   * other keeps every root: that split is all a block root leaves open.
   */
  lemma RootIgnoresChainHashSplit(sha384: Sha384, u: UpperTree, v: UpperTree)
    requires SameParts(u, v)
    ensures BlockRoot(sha384, u) == BlockRoot(sha384, v)
    ensures u == v <==> |u.previousBlockRoot| == |v.previousBlockRoot|
  {
    assert [INTERNAL_PREFIX] + u.previousBlockRoot + u.allBlockHashesRoot
           == [INTERNAL_PREFIX] + (u.previousBlockRoot + u.allBlockHashesRoot);
    assert [INTERNAL_PREFIX] + v.previousBlockRoot + v.allBlockHashesRoot
           == [INTERNAL_PREFIX] + (v.previousBlockRoot + v.allBlockHashesRoot);
    JoinedAlike(u.previousBlockRoot, u.allBlockHashesRoot, v.previousBlockRoot, v.allBlockHashesRoot);
  }

  // ----- Two blocks that differ only in the split --------------------------------------------

  const HEADER_ITEM: Field := Field(F_BLOCK_HEADER, [])

  /** A footer whose first chain hash is the byte 7, and one whose second is: fields 1 and 2 of the message. */
  const FIRST_FOOTER: Field := Field(F_BLOCK_FOOTER, [10, 1, 7])
  const SECOND_FOOTER: Field := Field(F_BLOCK_FOOTER, [18, 1, 7])

  /** A library that decodes these items as protobuf does; nothing is compressed. */
  function PlainLibrary(sha384: Sha384): Library {
    Library(
      sha384,
      bytes => if |bytes| < TWO_63 then Some(bytes) else None,
      bytes => if bytes == EncodeItem(HEADER_ITEM) then Some(Header(0, None)) else None,
      bytes => if bytes == EncodeItem(FIRST_FOOTER) then Some(Footer([7], [], []))
               else if bytes == EncodeItem(SECOND_FOOTER) then Some(Footer([], [7], []))
               else None,
      bytes => None,
      bytes => None,
      bytes => None)
  }

  function TwoItems(footer: Field): seq<ScannedItem> {
    [ScannedItem(F_BLOCK_HEADER, EncodeItem(HEADER_ITEM)), ScannedItem(F_BLOCK_FOOTER, EncodeItem(footer))]
  }

  lemma EncodedParts(footer: Field)
    requires footer == FIRST_FOOTER || footer == SECOND_FOOTER
    ensures EncodeItem(HEADER_ITEM) == [10, 0] && EncodeItem(footer) == [98, 3] + footer.payload
    ensures EncodeField(1, EncodeItem(HEADER_ITEM)) == [10, 2, 10, 0]
    ensures EncodeField(1, EncodeItem(footer)) == [10, 5, 98, 3] + footer.payload
  {
  }

  lemma EncodedFooter(footer: Field)
    requires footer == FIRST_FOOTER || footer == SECOND_FOOTER
    ensures EncodeBlock([HEADER_ITEM, footer]) == [10, 2, 10, 0, 10, 5, 98, 3, footer.payload[0], 1, 7]
    ensures BlockItems(EncodeBlock([HEADER_ITEM, footer])) == Success(TwoItems(footer))
  {
    var items := [HEADER_ITEM, footer];
    EncodedParts(footer);
    assert items[1..] == [footer] && [footer][1..] == [];
    assert EncodeBlock([footer]) == [10, 5, 98, 3] + footer.payload + [];
    EncodeThenScan(items);
    assert Map((f: Field) => ScannedItem(f.number, EncodeItem(f)), items) == TwoItems(footer);
  }

  lemma SplitScan(sha384: Sha384, footer: Field)
    requires footer == FIRST_FOOTER || footer == SECOND_FOOTER
    ensures var lib, items := PlainLibrary(sha384), TwoItems(footer);
            && FirstFault(lib, items, SCAN_DECODES).None?
            && LastHeader(lib, items) == Some(Header(0, None))
            && LastFooter(lib, items) == lib.footer(EncodeItem(footer))
            && forall slot :: slot != NoSlot ==>
                 Selected(items, slot) == if slot == OutputSlot then [EncodeItem(HEADER_ITEM)] else []
  {
    var lib, items := PlainLibrary(sha384), TwoItems(footer);
    assert [] + [items[0]] == [items[0]] && [items[0]] + [items[1]] == items;
    assert EncodeItem(footer)[2..] == footer.payload by { assert EncodeItem(footer) == [98, 3] + footer.payload; }
    Push(lib, [], items[0], SCAN_DECODES);
    Push(lib, [items[0]], items[1], SCAN_DECODES);
    assert items[..1] == [items[0]] && lib.Decodes(items[0]) && lib.Decodes(items[1]);
    forall slot | slot != NoSlot
      ensures Selected(items, slot) == if slot == OutputSlot then [EncodeItem(HEADER_ITEM)] else []
    {
      assert Selected([], slot) == [];
      assert Selected([] + [items[0]], slot) == if slot == OutputSlot then [EncodeItem(HEADER_ITEM)] else [];
      assert Selected([items[0]] + [items[1]], slot) == Selected([items[0]], slot);
    }
  }

  lemma SplitIsScanned(sha384: Sha384, footer: Field)
    requires footer == FIRST_FOOTER || footer == SECOND_FOOTER
    ensures var lib, bytes := PlainLibrary(sha384), EncodeBlock([HEADER_ITEM, footer]);
            && ItemsIn(lib, bytes) == Success(TwoItems(footer)) && ScannedFrom(lib, bytes).Success?
            && ScannedFrom(lib, bytes).value.previousBlockRoot == if footer == FIRST_FOOTER then [7] else []
  {
    EncodedFooter(footer);
    SplitScan(sha384, footer);
    DecodedFooters(sha384);
  }

  lemma DecodedFooters(sha384: Sha384)
    ensures PlainLibrary(sha384).footer(EncodeItem(FIRST_FOOTER)) == Some(Footer([7], [], []))
    ensures PlainLibrary(sha384).footer(EncodeItem(SECOND_FOOTER)) == Some(Footer([], [7], []))
  {
    assert EncodeItem(FIRST_FOOTER) == [98, 3] + FIRST_FOOTER.payload;
    assert EncodeItem(SECOND_FOOTER) == [98, 3] + SECOND_FOOTER.payload;
    assert EncodeItem(FIRST_FOOTER)[2] == 10 && EncodeItem(SECOND_FOOTER)[2] == 18;
  }

  /** Two byte strings the scan accepts, with one root and different claims, whatever the hash function. */
  lemma ChainHashSplitExample(sha384: Sha384) returns (lib: Library, a: Bytes, b: Bytes)
    ensures lib.sha384 == sha384
    ensures a == [10, 2, 10, 0, 10, 5, 98, 3, 10, 1, 7] && b == [10, 2, 10, 0, 10, 5, 98, 3, 18, 1, 7]
    ensures ScannedFrom(lib, a).Success? && ScannedFrom(lib, b).Success?
    ensures ScannedFrom(lib, a).value.blockRoot == ScannedFrom(lib, b).value.blockRoot
    ensures ScannedFrom(lib, a).value.previousBlockRoot == [7] && ScannedFrom(lib, b).value.previousBlockRoot == []
  {
    lib := PlainLibrary(sha384);
    a, b := EncodeBlock([HEADER_ITEM, FIRST_FOOTER]), EncodeBlock([HEADER_ITEM, SECOND_FOOTER]);
    EncodedFooter(FIRST_FOOTER);
    EncodedFooter(SECOND_FOOTER);
    SplitIsScanned(sha384, FIRST_FOOTER);
    SplitIsScanned(sha384, SECOND_FOOTER);
    SplitIsSameBlock(sha384);
    SameBlockSameRoot(lib, a, b);
  }

  lemma SplitIsSameBlock(sha384: Sha384)
    ensures SameBlock(PlainLibrary(sha384), TwoItems(FIRST_FOOTER), TwoItems(SECOND_FOOTER))
  {
    SplitScan(sha384, FIRST_FOOTER);
    SplitScan(sha384, SECOND_FOOTER);
    DecodedFooters(sha384);
    SameButFooter(PlainLibrary(sha384), TwoItems(FIRST_FOOTER), TwoItems(SECOND_FOOTER), Footer([7], [], []), Footer([], [7], []));
  }

  lemma SameButFooter(lib: Library, a: seq<ScannedItem>, b: seq<ScannedItem>, f: Footer, g: Footer)
    requires forall slot :: slot != NoSlot ==> Selected(a, slot) == Selected(b, slot)
    requires LastHeader(lib, a) == LastHeader(lib, b) && LastFooter(lib, a) == Some(f) && LastFooter(lib, b) == Some(g)
    requires f.previousBlockRoot + f.allBlockHashesRoot == g.previousBlockRoot + g.allBlockHashesRoot
    requires f.startOfBlockStateRoot == g.startOfBlockStateRoot
    ensures SameBlock(lib, a, b)
  {
  }
}
