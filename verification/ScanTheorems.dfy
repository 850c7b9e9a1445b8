/** What a scanned block's answers mean, by the field numbers of its items and their positions. */
module ScanTheorems {
  import opened Common
  import opened Wire
  import opened Merkle
  import opened Material
  import opened Binding
  import opened BlockTheorems

  // ----- The five lists ----------------------------------------------------------------------

  /** The bytes of the items of some kinds, in file order. */
  function OfKinds(items: seq<ScannedItem>, kinds: set<nat>): seq<Bytes> {
    if items == [] then []
    else (if items[0].kind in kinds then [items[0].bytes] else []) + OfKinds(items[1..], kinds)
  }

  lemma {:induction false} OfKindsPush(items: seq<ScannedItem>, item: ScannedItem, kinds: set<nat>)
    ensures OfKinds(items + [item], kinds) == OfKinds(items, kinds) + if item.kind in kinds then [item.bytes] else []
  {
    if items == [] {
      assert [] + [item] == [item];
    } else {
      assert (items + [item])[0] == items[0] && (items + [item])[1..] == items[1..] + [item];
      OfKindsPush(items[1..], item, kinds);
      Regroup(if items[0].kind in kinds then [items[0].bytes] else [], OfKinds(items[1..], kinds),
              if item.kind in kinds then [item.bytes] else []);
    }
  }

  lemma {:induction false} SelectedIs(items: seq<ScannedItem>, slot: Slot, kinds: set<nat>)
    requires forall kind: nat :: SlotOf(kind) == Success(slot) <==> kind in kinds
    ensures Selected(items, slot) == OfKinds(items, kinds)
  {
    if items != [] {
      SelectedIs(items[..|items| - 1], slot, kinds);
      OfKindsPush(items[..|items| - 1], items[|items| - 1], kinds);
      FrontAndLast(items);
    }
  }

  lemma FiveLists(items: seq<ScannedItem>)
    ensures Selected(items, OutputSlot) == OfKinds(items, {1, 5, 6})
    ensures Selected(items, ConsensusSlot) == OfKinds(items, {2, 3})
    ensures Selected(items, InputSlot) == OfKinds(items, {4})
    ensures Selected(items, StateChangesSlot) == OfKinds(items, {7})
    ensures Selected(items, TraceSlot) == OfKinds(items, {11})
  {
    SelectedIs(items, OutputSlot, {1, 5, 6});
    SelectedIs(items, ConsensusSlot, {2, 3});
    SelectedIs(items, InputSlot, {4});
    SelectedIs(items, StateChangesSlot, {7});
    SelectedIs(items, TraceSlot, {11});
  }

  /** The items of a block file. */
  predicate Holds(lib: Library, bytes: Bytes, items: seq<ScannedItem>) {
    lib.inflate(bytes).Some? && BlockItems(lib.inflate(bytes).value) == Success(items)
  }

  /** Two scanned blocks with one root hold the same items of each tree's kinds, in order, or their hashes collide. */
  lemma RootBindsKinds(lib: Library, a: Bytes, b: Bytes, p: seq<ScannedItem>, q: seq<ScannedItem>)
    requires Holds(lib, a, p) && Holds(lib, b, q)
    requires ScannedFrom(lib, a).Success? && ScannedFrom(lib, b).Success?
    requires ScannedFrom(lib, a).value.blockRoot == ScannedFrom(lib, b).value.blockRoot
    ensures || (&& OfKinds(p, {1, 5, 6}) == OfKinds(q, {1, 5, 6}) && OfKinds(p, {2, 3}) == OfKinds(q, {2, 3})
                && OfKinds(p, {4}) == OfKinds(q, {4}) && OfKinds(p, {7}) == OfKinds(q, {7})
                && OfKinds(p, {11}) == OfKinds(q, {11}))
            || Collision(lib.sha384, BlockInputs(lib, p), BlockInputs(lib, q))
  {
    BlockBinding(lib, a, b);
    FiveLists(p);
    FiveLists(q);
  }

  // ----- Which items are accepted ------------------------------------------------------------

  /** A kind the scan knows and takes whole. */
  predicate Known(kind: nat) {
    1 <= kind <= 7 || 9 <= kind <= 12
  }

  /** An item of a known kind that decodes if it has to: headers and footers always, proofs and transactions in the scan. */
  predicate Readable(lib: Library, item: ScannedItem, scan: bool) {
    && Known(item.kind)
    && (item.kind == 1 ==> lib.header(item.bytes).Some?)
    && (item.kind == 12 ==> lib.footer(item.bytes).Some?)
    && (scan && item.kind == 9 ==> lib.proof(item.bytes).Some?)
    && (scan && item.kind == 4 ==> lib.signedTransaction(item.bytes).Some?)
  }

  function Decoded(scan: bool): set<nat> {
    if scan then SCAN_DECODES else WITNESS_DECODES
  }

  /** The error an unreadable item stops the walk with. */
  function Refusal(item: ScannedItem): Error {
    if item.kind == 8 || item.kind == 19 then FilteredItem
    else if Known(item.kind) then CannotDecode
    else UnknownItem(item.kind)
  }

  lemma FaultIs(lib: Library, item: ScannedItem, scan: bool)
    ensures ItemFault(lib, item, Decoded(scan)) == if Readable(lib, item, scan) then None else Some(Refusal(item))
  {
  }

  lemma {:induction false} NoFaultIs(lib: Library, items: seq<ScannedItem>, scan: bool)
    ensures FirstFault(lib, items, Decoded(scan)).None? <==>
            forall i :: 0 <= i < |items| ==> Readable(lib, items[i], scan)
  {
    if items != [] {
      NoFaultIs(lib, items[..|items| - 1], scan);
      FaultIs(lib, items[|items| - 1], scan);
    }
  }

  /** The first unreadable item decides the error of either walk. */
  lemma FirstUnreadable(lib: Library, items: seq<ScannedItem>, i: nat, scan: bool)
    requires i < |items| && !Readable(lib, items[i], scan)
    requires forall j :: 0 <= j < i ==> Readable(lib, items[j], scan)
    ensures scan ==> Scanned(lib, items) == Failure(Refusal(items[i]))
    ensures !scan ==> forall index :: Witnessed(lib, items, index) == Failure(Refusal(items[i]))
  {
    NoFaultIs(lib, items[..i], scan);
    FaultIs(lib, items[i], scan);
    FaultAt(lib, items, i, Decoded(scan));
  }

  predicate Has(items: seq<ScannedItem>, kind: nat) {
    exists i :: 0 <= i < |items| && items[i].kind == kind
  }

  predicate LastOf(items: seq<ScannedItem>, kind: nat, i: nat) {
    i < |items| && items[i].kind == kind && forall j :: i < j < |items| ==> items[j].kind != kind
  }

  lemma {:induction false} FindLast(items: seq<ScannedItem>, kind: nat) returns (i: nat)
    requires Has(items, kind)
    ensures LastOf(items, kind, i)
  {
    i := |items| - 1;
    if items[i].kind != kind {
      var k :| 0 <= k < |items| && items[k].kind == kind;
      assert items[..i][k] == items[k];
      var j := FindLast(items[..i], kind);
      i := j;
    }
  }

  lemma {:induction false} LastHeaderIs(lib: Library, items: seq<ScannedItem>, i: nat)
    requires LastOf(items, 1, i) && lib.header(items[i].bytes).Some?
    ensures LastHeader(lib, items) == lib.header(items[i].bytes)
  {
    if i < |items| - 1 {
      assert items[..|items| - 1][i] == items[i];
      LastHeaderIs(lib, items[..|items| - 1], i);
    }
  }

  lemma {:induction false} LastFooterIs(lib: Library, items: seq<ScannedItem>, i: nat)
    requires LastOf(items, 12, i) && lib.footer(items[i].bytes).Some?
    ensures LastFooter(lib, items) == lib.footer(items[i].bytes)
  {
    if i < |items| - 1 {
      assert items[..|items| - 1][i] == items[i];
      LastFooterIs(lib, items[..|items| - 1], i);
    }
  }

  lemma {:induction false} NoEnds(lib: Library, items: seq<ScannedItem>)
    ensures !Has(items, 1) ==> LastHeader(lib, items) == None
    ensures !Has(items, 12) ==> LastFooter(lib, items) == None
  {
    if items != [] {
      var front := items[..|items| - 1];
      NoEnds(lib, front);
      if Has(front, 1) { var i :| 0 <= i < |front| && front[i].kind == 1; assert items[i].kind == 1; }
      if Has(front, 12) { var i :| 0 <= i < |front| && front[i].kind == 12; assert items[i].kind == 12; }
      assert items[|items| - 1] == items[|items| - 1];
    }
  }

  lemma HeaderIs(lib: Library, items: seq<ScannedItem>, scan: bool)
    requires forall i :: 0 <= i < |items| ==> Readable(lib, items[i], scan)
    ensures LastHeader(lib, items).Some? <==> Has(items, 1)
    ensures forall i: nat :: LastOf(items, 1, i) ==> LastHeader(lib, items) == lib.header(items[i].bytes)
  {
    NoEnds(lib, items);
    if Has(items, 1) {
      var i := FindLast(items, 1);
      LastHeaderIs(lib, items, i);
    }
    forall i: nat | LastOf(items, 1, i) ensures LastHeader(lib, items) == lib.header(items[i].bytes) {
      LastHeaderIs(lib, items, i);
    }
  }

  lemma FooterIs(lib: Library, items: seq<ScannedItem>, scan: bool)
    requires forall i :: 0 <= i < |items| ==> Readable(lib, items[i], scan)
    ensures LastFooter(lib, items).Some? <==> Has(items, 12)
    ensures forall i: nat :: LastOf(items, 12, i) ==> LastFooter(lib, items) == lib.footer(items[i].bytes)
  {
    NoEnds(lib, items);
    if Has(items, 12) {
      var i := FindLast(items, 12);
      LastFooterIs(lib, items, i);
    }
    forall i: nat | LastOf(items, 12, i) ensures LastFooter(lib, items) == lib.footer(items[i].bytes) {
      LastFooterIs(lib, items, i);
    }
  }

  /** Header and footer, as either walk takes them from readable items. */
  lemma EndsAre(lib: Library, items: seq<ScannedItem>, scan: bool)
    requires forall i :: 0 <= i < |items| ==> Readable(lib, items[i], scan)
    ensures LastHeader(lib, items).Some? <==> Has(items, 1)
    ensures LastFooter(lib, items).Some? <==> Has(items, 12)
    ensures forall i: nat :: LastOf(items, 1, i) ==> LastHeader(lib, items) == lib.header(items[i].bytes)
    ensures forall i: nat :: LastOf(items, 12, i) ==> LastFooter(lib, items) == lib.footer(items[i].bytes)
  {
    HeaderIs(lib, items, scan);
    FooterIs(lib, items, scan);
  }

  /** A block is scanned exactly if every item is readable and there are a header and a footer. */
  lemma ScanSucceedsExactly(lib: Library, bytes: Bytes, items: seq<ScannedItem>)
    requires Holds(lib, bytes, items)
    ensures ScannedFrom(lib, bytes).Success? <==>
              (forall i :: 0 <= i < |items| ==> Readable(lib, items[i], true)) && Has(items, 1) && Has(items, 12)
  {
    NoFaultIs(lib, items, true);
    if forall i :: 0 <= i < |items| ==> Readable(lib, items[i], true) {
      EndsAre(lib, items, true);
    }
  }

  /** What the walks say of a file that is not a list of items, or lacks an end; the header is missed first. */
  lemma MissingParts(lib: Library, bytes: Bytes, index: nat)
    ensures lib.inflate(bytes) == None ==>
              ScannedFrom(lib, bytes) == Failure(CannotInflate) && WitnessedFrom(lib, bytes, index) == Failure(CannotInflate)
    ensures forall e :: lib.inflate(bytes) != None && BlockItems(lib.inflate(bytes).value) == Failure(e) ==>
              ScannedFrom(lib, bytes) == Failure(e) && WitnessedFrom(lib, bytes, index) == Failure(e)
    ensures forall items {:trigger Holds(lib, bytes, items)} ::
              Holds(lib, bytes, items) && (forall i :: 0 <= i < |items| ==> Readable(lib, items[i], true)) ==>
                && (!Has(items, 1) ==> ScannedFrom(lib, bytes) == Failure(HeaderMissing))
                && (Has(items, 1) && !Has(items, 12) ==> ScannedFrom(lib, bytes) == Failure(FooterMissing))
    ensures forall items {:trigger Holds(lib, bytes, items)} ::
              Holds(lib, bytes, items) && (forall i :: 0 <= i < |items| ==> Readable(lib, items[i], false)) ==>
                && (!Has(items, 1) ==> WitnessedFrom(lib, bytes, index) == Failure(HeaderMissing))
                && (Has(items, 1) && !Has(items, 12) ==> WitnessedFrom(lib, bytes, index) == Failure(FooterMissing))
                && (Has(items, 1) && Has(items, 12) && index >= |OfKinds(items, {4})| ==>
                      WitnessedFrom(lib, bytes, index) == Failure(IndexOutOfRange))
  {
    forall items | Holds(lib, bytes, items) && (forall i :: 0 <= i < |items| ==> Readable(lib, items[i], true))
      ensures !Has(items, 1) ==> ScannedFrom(lib, bytes) == Failure(HeaderMissing)
      ensures Has(items, 1) && !Has(items, 12) ==> ScannedFrom(lib, bytes) == Failure(FooterMissing)
    {
      NoFaultIs(lib, items, true);
      EndsAre(lib, items, true);
    }
    forall items | Holds(lib, bytes, items) && (forall i :: 0 <= i < |items| ==> Readable(lib, items[i], false))
      ensures !Has(items, 1) ==> WitnessedFrom(lib, bytes, index) == Failure(HeaderMissing)
      ensures Has(items, 1) && !Has(items, 12) ==> WitnessedFrom(lib, bytes, index) == Failure(FooterMissing)
      ensures Has(items, 1) && Has(items, 12) && index >= |OfKinds(items, {4})| ==>
                WitnessedFrom(lib, bytes, index) == Failure(IndexOutOfRange)
    {
      NoFaultIs(lib, items, false);
      EndsAre(lib, items, false);
      FiveLists(items);
    }
  }

  // ----- The block root ----------------------------------------------------------------------

  /** The root of the tree over the items of some kinds. */
  function KindsRoot(sha384: Sha384, items: seq<ScannedItem>, kinds: set<nat>): Digest {
    var leaves := OfKinds(items, kinds);
    RootByHalves(sha384, seq(|leaves|, i requires 0 <= i < |leaves| => sha384([0x00] + leaves[i])))
  }

  /** The root written out: timestamp, chain hashes, state root and the five trees, each in its place. */
  function WrittenOut(sha384: Sha384, items: seq<ScannedItem>, header: Header, footer: Footer): Digest {
    var timestamp := if header.timestamp.Some? then header.timestamp.value else [];
    var state := if footer.startOfBlockStateRoot == [] then seq(48, _ => 0) else footer.startOfBlockStateRoot;
    var chain := sha384([0x02] + footer.previousBlockRoot + footer.allBlockHashesRoot);
    var states := sha384([0x02] + state + KindsRoot(sha384, items, {2, 3}));
    var transactions := sha384([0x02] + KindsRoot(sha384, items, {4}) + KindsRoot(sha384, items, {1, 5, 6}));
    var changes := sha384([0x02] + KindsRoot(sha384, items, {7}) + KindsRoot(sha384, items, {11}));
    var top := sha384([0x02] + sha384([0x02] + chain + states) + sha384([0x02] + transactions + changes));
    sha384([0x02] + sha384([0x00] + timestamp) + sha384([0x01] + top))
  }

  lemma SlotRootIs(sha384: Sha384, items: seq<ScannedItem>, slot: Slot, kinds: set<nat>)
    requires Selected(items, slot) == OfKinds(items, kinds)
    ensures SlotRoot(sha384, items, slot) == KindsRoot(sha384, items, kinds)
  {
    var leaves := OfKinds(items, kinds);
    var hashes := seq(|leaves|, i requires 0 <= i < |leaves| => sha384([0x00] + leaves[i]));
    assert LeafHashes(sha384, leaves) == hashes;
    RootIsByHalves(sha384, hashes);
  }

  lemma FiveRoots(sha384: Sha384, items: seq<ScannedItem>)
    ensures SlotRoot(sha384, items, OutputSlot) == KindsRoot(sha384, items, {1, 5, 6})
    ensures SlotRoot(sha384, items, ConsensusSlot) == KindsRoot(sha384, items, {2, 3})
    ensures SlotRoot(sha384, items, InputSlot) == KindsRoot(sha384, items, {4})
    ensures SlotRoot(sha384, items, StateChangesSlot) == KindsRoot(sha384, items, {7})
    ensures SlotRoot(sha384, items, TraceSlot) == KindsRoot(sha384, items, {11})
  {
    FiveLists(items);
    SlotRootIs(sha384, items, OutputSlot, {1, 5, 6});
    SlotRootIs(sha384, items, ConsensusSlot, {2, 3});
    SlotRootIs(sha384, items, InputSlot, {4});
    SlotRootIs(sha384, items, StateChangesSlot, {7});
    SlotRootIs(sha384, items, TraceSlot, {11});
  }

  lemma StateRootIs(footer: Footer)
    ensures StateRoot(footer) == if footer.startOfBlockStateRoot == [] then seq(48, _ => 0) else footer.startOfBlockStateRoot
  {
  }

  lemma RootIsWrittenOut(sha384: Sha384, items: seq<ScannedItem>, header: Header, footer: Footer)
    ensures BlockRoot(sha384, UpperOf(sha384, items, header, footer)) == WrittenOut(sha384, items, header, footer)
  {
    FiveRoots(sha384, items);
    StateRootIs(footer);
  }

  /**
   * What a scan answers, from the last header item i and the last footer item j: number, root and
   * previous-root claim.
   */
  lemma ScanAnswers(lib: Library, bytes: Bytes, items: seq<ScannedItem>, i: nat, j: nat)
    requires Holds(lib, bytes, items) && ScannedFrom(lib, bytes).Success? && LastOf(items, 1, i) && LastOf(items, 12, j)
    ensures lib.header(items[i].bytes).Some? && lib.footer(items[j].bytes).Some?
    ensures var (header, footer, block) :=
              (lib.header(items[i].bytes).value, lib.footer(items[j].bytes).value, ScannedFrom(lib, bytes).value);
            && block.blockNumber == header.number
            && block.previousBlockRoot == footer.previousBlockRoot
            && block.blockRoot == WrittenOut(lib.sha384, items, header, footer)
  {
    ScanSucceedsExactly(lib, bytes, items);
    EndsAre(lib, items, true);
    RootIsWrittenOut(lib.sha384, items, lib.header(items[i].bytes).value, lib.footer(items[j].bytes).value);
  }

  // ----- Signature and bootstrap -------------------------------------------------------------

  /** Item i is the last block proof that carries a signature, and this is it. */
  predicate CarriesSignature(lib: Library, items: seq<ScannedItem>, i: nat, signature: Bytes) {
    && i < |items| && items[i].kind == 9 && lib.proof(items[i].bytes) == Some(Some(signature))
    && forall j :: i < j < |items| && items[j].kind == 9 ==> lib.proof(items[j].bytes) == Some(None)
  }

  /** The publication a signed-transaction item decodes to, if any. */
  predicate Publishes(lib: Library, item: ScannedItem, published: Bootstrap) {
    && item.kind == 4 && lib.signedTransaction(item.bytes).Some?
    && lib.publication(lib.signedTransaction(item.bytes).value) == Some(published)
  }

  /** Item i is the first signed transaction that is a ledger-ID publication, and this is it. */
  ghost predicate FirstPublishes(lib: Library, items: seq<ScannedItem>, i: nat, published: Bootstrap) {
    && i < |items| && Publishes(lib, items[i], published)
    && forall j, other :: 0 <= j < i ==> !Publishes(lib, items[j], other)
  }

  lemma {:induction false} SignatureIs(lib: Library, items: seq<ScannedItem>, signature: Bytes)
    requires forall i :: 0 <= i < |items| ==> Readable(lib, items[i], true)
    ensures LastSignature(lib, items) == Some(signature) <==> exists i: nat :: CarriesSignature(lib, items, i, signature)
    ensures LastSignature(lib, items) == None ==>
              forall i :: 0 <= i < |items| && items[i].kind == 9 ==> lib.proof(items[i].bytes) == Some(None)
    decreases |items|
  {
    if items != [] {
      var n := |items| - 1;
      var front, last := items[..n], items[n];
      SignatureIs(lib, front, signature);
      if last.kind == 9 && lib.proof(last.bytes).value.Some? {
        assert last.kind == 9 && lib.proof(last.bytes) == Some(Some(signature)) ==> CarriesSignature(lib, items, n, signature);
      } else {
        if i: nat :| CarriesSignature(lib, front, i, signature) {
          assert CarriesSignature(lib, items, i, signature);
        }
        if i: nat :| CarriesSignature(lib, items, i, signature) {
          assert front[i] == items[i];
          assert CarriesSignature(lib, front, i, signature);
        }
      }
    }
  }

  lemma {:induction false} BootstrapIs(lib: Library, items: seq<ScannedItem>, published: Bootstrap)
    requires forall i :: 0 <= i < |items| ==> Readable(lib, items[i], true)
    ensures FirstBootstrap(lib, items) == Some(published) <==> exists i: nat :: FirstPublishes(lib, items, i, published)
    ensures FirstBootstrap(lib, items) == None <==>
              forall i, other :: 0 <= i < |items| ==> !Publishes(lib, items[i], other)
    decreases |items|
  {
    if items != [] {
      var n := |items| - 1;
      var front, last := items[..n], items[n];
      var before := FirstBootstrap(lib, front);
      BootstrapIs(lib, front, published);
      if before.Some? {
        BootstrapIs(lib, front, before.value);
        var k: nat :| FirstPublishes(lib, front, k, before.value);
        assert items[k] == front[k] && FirstPublishes(lib, items, k, before.value);
        if i: nat :| FirstPublishes(lib, items, i, published) {
          assert i == k;
        }
      } else {
        assert forall j, other :: 0 <= j < n ==> !Publishes(lib, items[j], other) by {
          forall j, other | 0 <= j < n ensures !Publishes(lib, items[j], other) { assert front[j] == items[j]; }
        }
        LastPublishes(lib, items, published);
      }
    }
  }

  lemma LastPublishes(lib: Library, items: seq<ScannedItem>, published: Bootstrap)
    requires items != [] && Readable(lib, items[|items| - 1], true) && FirstBootstrap(lib, items[..|items| - 1]) == None
    requires forall j, other :: 0 <= j < |items| - 1 ==> !Publishes(lib, items[j], other)
    ensures FirstBootstrap(lib, items) == Some(published) <==> exists i: nat :: FirstPublishes(lib, items, i, published)
    ensures FirstBootstrap(lib, items) == None <==>
              forall i, other :: 0 <= i < |items| ==> !Publishes(lib, items[i], other)
  {
    var n := |items| - 1;
    var found := FirstBootstrap(lib, items);
    assert found == Some(published) <==> Publishes(lib, items[n], published);
    if found == Some(published) {
      assert FirstPublishes(lib, items, n, published);
    }
    if i: nat :| FirstPublishes(lib, items, i, published) {
      assert i == n;
    }
    if found.Some? {
      assert Publishes(lib, items[n], found.value);
    }
  }

  /** The signature is that of the last block proof carrying one, and the bootstrap the first publication. */
  lemma ScanCarries(lib: Library, bytes: Bytes, items: seq<ScannedItem>, signature: Bytes, published: Bootstrap)
    requires Holds(lib, bytes, items) && ScannedFrom(lib, bytes).Success?
    ensures var block := ScannedFrom(lib, bytes).value;
            && (block.blockSignature == Some(signature) <==> exists i: nat :: CarriesSignature(lib, items, i, signature))
            && (block.bootstrap == Some(published) <==> exists i: nat :: FirstPublishes(lib, items, i, published))
  {
    ScanSucceedsExactly(lib, bytes, items);
    SignatureIs(lib, items, signature);
    BootstrapIs(lib, items, published);
  }

  /** Proof material and chain view hand these answers on, the signature as its classified layout. */
  lemma MaterialIsScanned(lib: Library, bytes: Bytes)
    requires ScannedFrom(lib, bytes).Success?
    ensures var (block, extracted, info) := (ScannedFrom(lib, bytes).value, ExtractProofMaterial(lib, bytes), ChainInfo(lib, bytes));
            && (extracted.Success? <==> block.blockSignature != None)
            && (block.blockSignature == None ==> extracted == Failure(SignedProofMissing))
            && (extracted.Success? ==>
                  var (m, signature) := (extracted.value, block.blockSignature.value);
                  && m.blockNumber == block.blockNumber && m.blockRoot == block.blockRoot
                  && m.previousBlockRoot == block.previousBlockRoot && m.bootstrap == block.bootstrap
                  && m.layout.hintsVerificationKey + m.layout.hintsSignature + m.layout.suffix == signature
                  && (|signature| >= 2728 ==> |m.layout.hintsVerificationKey| == 1096 && |m.layout.hintsSignature| == 1632)
                  && (|signature| < 2728 ==> m.layout.suffix == signature)
                  && (m.layout.path == AggregateSchnorr <==> |signature| == 2920)
                  && (m.layout.path == WrapsCompressedProof <==> |signature| == 3432))
            && info == Success(BlockChainInfo(block.blockNumber, block.blockRoot, block.previousBlockRoot))
  {
  }

  // ----- Witnesses ---------------------------------------------------------------------------

  /** A footer whose hashes fit a witness; the state root may be missing. */
  predicate FitsWitness(footer: Footer) {
    && |footer.previousBlockRoot| == 48 && |footer.allBlockHashesRoot| == 48
    && (footer.startOfBlockStateRoot == [] || |footer.startOfBlockStateRoot| == 48)
  }

  /** A witness is given out exactly for readable items, a fitting last footer and an index of a transaction. */
  lemma WitnessSucceedsExactly(lib: Library, bytes: Bytes, items: seq<ScannedItem>, index: nat)
    requires Holds(lib, bytes, items)
    ensures WitnessedFrom(lib, bytes, index).Success? <==>
              && (forall i :: 0 <= i < |items| ==> Readable(lib, items[i], false)) && Has(items, 1)
              && (exists j: nat :: LastOf(items, 12, j) && FitsWitness(lib.footer(items[j].bytes).value))
              && index < |OfKinds(items, {4})|
  {
    NoFaultIs(lib, items, false);
    FiveLists(items);
    if forall i :: 0 <= i < |items| ==> Readable(lib, items[i], false) {
      EndsAre(lib, items, false);
      if Has(items, 12) {
        var j := FindLast(items, 12);
        assert LastFooter(lib, items) == lib.footer(items[j].bytes);
        forall k: nat | LastOf(items, 12, k) ensures k == j {}
      }
    }
  }

  /** What is in it, from the last header item i and the last footer item j. */
  lemma WitnessAnswers(lib: Library, bytes: Bytes, items: seq<ScannedItem>, index: nat, i: nat, j: nat)
    requires Holds(lib, bytes, items) && WitnessedFrom(lib, bytes, index).Success?
    requires LastOf(items, 1, i) && LastOf(items, 12, j)
    ensures lib.header(items[i].bytes).Some? && lib.footer(items[j].bytes).Some? && index < |OfKinds(items, {4})|
    ensures var (header, footer) := (lib.header(items[i].bytes).value, lib.footer(items[j].bytes).value);
            var (tx, w) := WitnessedFrom(lib, bytes, index).value;
            && tx == OfKinds(items, {4})[index]
            && w.outputRoot == KindsRoot(lib.sha384, items, {1, 5, 6})
            && w.consensusRoot == KindsRoot(lib.sha384, items, {2, 3})
            && w.stateChangesRoot == KindsRoot(lib.sha384, items, {7})
            && w.traceRoot == KindsRoot(lib.sha384, items, {11})
            && w.previousBlockRoot == footer.previousBlockRoot && w.allBlockHashesRoot == footer.allBlockHashesRoot
            && w.stateRoot == (if footer.startOfBlockStateRoot == [] then seq(48, _ => 0) else footer.startOfBlockStateRoot)
            && w.timestamp == if header.timestamp.Some? then header.timestamp.value else []
  {
    WitnessSucceedsExactly(lib, bytes, items, index);
    EndsAre(lib, items, false);
    FiveLists(items);
    FiveRoots(lib.sha384, items);
    StateRootIs(lib.footer(items[j].bytes).value);
  }
}
