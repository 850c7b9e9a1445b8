/** Extraction of proof material and inclusion witnesses from block bytes. */
module Material {
  import opened Common
  import opened Wire
  import opened WireRoundTrip
  import opened Merkle

  // ----- What is decoded elsewhere -----------------------------------------------------------

  /** Header fields in use; the timestamp is kept as its protobuf encoding. */
  datatype Header = Header(number: u64, timestamp: Option<Bytes>)

  datatype Footer = Footer(previousBlockRoot: Bytes, allBlockHashesRoot: Bytes, startOfBlockStateRoot: Bytes)

  datatype NodeContribution = NodeContribution(nodeId: u64, weight: u64, historyProofKey: Bytes)

  datatype Bootstrap = Bootstrap(
    ledgerId: Bytes,
    historyProofVerificationKey: Bytes,
    nodeContributions: seq<NodeContribution>)

  /**
   * Library code, as arbitrary functions. The typed decode of a BlockItem fills the oneof case its
   * one field names, so it appears as one partial function for each field that is decoded.
   */
  datatype Library = Library(
    sha384: Sha384,
    inflate: Bytes -> Option<Buffer>,
    header: Bytes -> Option<Header>,
    footer: Bytes -> Option<Footer>,
    proof: Bytes -> Option<Option<Buffer>>,      // the inner None is a proof of another variant
    signedTransaction: Bytes -> Option<Bytes>,
    publication: Bytes -> Option<Bootstrap>)
  {
    predicate Decodes(item: ScannedItem) {
      match item.kind
      case 1 => header(item.bytes).Some?
      case 12 => footer(item.bytes).Some?
      case 9 => proof(item.bytes).Some?
      case 4 => signedTransaction(item.bytes).Some?
      case _ => true
    }
  }

  // ----- Proof layout ------------------------------------------------------------------------

  datatype ProofPath = AggregateSchnorr | WrapsCompressedProof | Unknown

  datatype ProofLayout = ProofLayout(
    path: ProofPath,
    hintsVerificationKey: Bytes,
    hintsSignature: Bytes,
    suffix: Bytes)

  const HINTS_VK_LENGTH := 1096
  const HINTS_SIG_LENGTH := 1632
  const FIXED_PREFIX_LENGTH := HINTS_VK_LENGTH + HINTS_SIG_LENGTH
  const SCHNORR_SUFFIX_LENGTH := 192
  const WRAPS_SUFFIX_LENGTH := 704

  /** The split loses no byte, and each known path has exactly one signature length. */
  function ClassifyLayout(signature: Bytes): (layout: ProofLayout)
    ensures layout.hintsVerificationKey + layout.hintsSignature + layout.suffix == signature
    ensures layout.path.AggregateSchnorr? <==> |signature| == 2920
    ensures layout.path.WrapsCompressedProof? <==> |signature| == 3432
    ensures !layout.path.Unknown? ==>
              |layout.hintsVerificationKey| == HINTS_VK_LENGTH && |layout.hintsSignature| == HINTS_SIG_LENGTH
  {
    if |signature| < FIXED_PREFIX_LENGTH then ProofLayout(Unknown, [], [], signature)
    else
      var suffix := signature[FIXED_PREFIX_LENGTH..];
      var path := if |suffix| == SCHNORR_SUFFIX_LENGTH then AggregateSchnorr
                  else if |suffix| == WRAPS_SUFFIX_LENGTH then WrapsCompressedProof
                  else Unknown;
      ProofLayout(path, signature[..HINTS_VK_LENGTH], signature[HINTS_VK_LENGTH..FIXED_PREFIX_LENGTH], suffix)
  }

  // ----- The fixed upper tree ----------------------------------------------------------------

  datatype UpperTree = UpperTree(
    previousBlockRoot: Bytes,
    allBlockHashesRoot: Bytes,
    stateRoot: Bytes,
    consensusRoot: Digest,
    inputRoot: Digest,
    outputRoot: Digest,
    stateChangesRoot: Digest,
    traceRoot: Digest,
    timestamp: Bytes)

  function BlockRoot(sha384: Sha384, u: UpperTree): Digest {
    var depth5x1 := HashInternal(sha384, u.previousBlockRoot, u.allBlockHashesRoot);
    var depth5x2 := HashInternal(sha384, u.stateRoot, u.consensusRoot);
    var depth5x3 := HashInternal(sha384, u.inputRoot, u.outputRoot);
    var depth5x4 := HashInternal(sha384, u.stateChangesRoot, u.traceRoot);
    var depth4x1 := HashInternal(sha384, depth5x1, depth5x2);
    var depth4x2 := HashInternal(sha384, depth5x3, depth5x4);
    var fixedRoot := HashInternalSingleChild(sha384, HashInternal(sha384, depth4x1, depth4x2));
    HashInternal(sha384, HashLeaf(sha384, u.timestamp), fixedRoot)
  }

  // ----- What a block's items say ------------------------------------------------------------

  datatype Slot = OutputSlot | ConsensusSlot | InputSlot | StateChangesSlot | TraceSlot | NoSlot

  /** Which of the five trees an item is a leaf of, or why it is refused. */
  function SlotOf(kind: nat): Result<Slot> {
    if kind == F_BLOCK_HEADER || kind == F_TRANSACTION_RESULT || kind == F_TRANSACTION_OUTPUT then Success(OutputSlot)
    else if kind == F_EVENT_HEADER || kind == F_ROUND_HEADER then Success(ConsensusSlot)
    else if kind == F_SIGNED_TRANSACTION then Success(InputSlot)
    else if kind == F_STATE_CHANGES then Success(StateChangesSlot)
    else if kind == F_TRACE_DATA then Success(TraceSlot)
    else if kind == F_BLOCK_PROOF || kind == F_BLOCK_FOOTER || kind == F_RECORD_FILE then Success(NoSlot)
    else if kind == F_FILTERED_SINGLE_ITEM || kind == F_REDACTED_ITEM then Failure(FilteredItem)
    else Failure(UnknownItem(kind))
  }

  /** The bytes of the items of one slot, in file order. */
  function Selected(items: seq<ScannedItem>, slot: Slot): seq<Bytes> {
    if items == [] then []
    else
      var last := items[|items| - 1];
      Selected(items[..|items| - 1], slot) + if SlotOf(last.kind) == Success(slot) then [last.bytes] else []
  }

  function ItemFault(lib: Library, item: ScannedItem, decoded: set<nat>): Option<Error> {
    match SlotOf(item.kind)
    case Failure(e) => Some(e)
    case Success(_) => if item.kind in decoded && !lib.Decodes(item) then Some(CannotDecode) else None
  }

  /** The first item that stops the scan. */
  function FirstFault(lib: Library, items: seq<ScannedItem>, decoded: set<nat>): Option<Error> {
    if items == [] then None
    else
      var before := FirstFault(lib, items[..|items| - 1], decoded);
      if before.Some? then before else ItemFault(lib, items[|items| - 1], decoded)
  }

  function LastHeader(lib: Library, items: seq<ScannedItem>): Option<Header> {
    if items == [] then None
    else
      var last := items[|items| - 1];
      if last.kind == F_BLOCK_HEADER && lib.header(last.bytes).Some? then lib.header(last.bytes)
      else LastHeader(lib, items[..|items| - 1])
  }

  function LastFooter(lib: Library, items: seq<ScannedItem>): Option<Footer> {
    if items == [] then None
    else
      var last := items[|items| - 1];
      if last.kind == F_BLOCK_FOOTER && lib.footer(last.bytes).Some? then lib.footer(last.bytes)
      else LastFooter(lib, items[..|items| - 1])
  }

  function LastSignature(lib: Library, items: seq<ScannedItem>): Option<Buffer> {
    if items == [] then None
    else
      var last := items[|items| - 1];
      var proof := if last.kind == F_BLOCK_PROOF then lib.proof(last.bytes) else None;
      if proof.Some? && proof.value.Some? then proof.value else LastSignature(lib, items[..|items| - 1])
  }

  function FirstBootstrap(lib: Library, items: seq<ScannedItem>): Option<Bootstrap> {
    if items == [] then None
    else
      var before := FirstBootstrap(lib, items[..|items| - 1]);
      var last := items[|items| - 1];
      if before.None? && last.kind == F_SIGNED_TRANSACTION && lib.signedTransaction(last.bytes).Some?
      then lib.publication(lib.signedTransaction(last.bytes).value)
      else before
  }

  function LeafHashes(sha384: Sha384, items: seq<Bytes>): (hashes: seq<Digest>)
    ensures |hashes| == |items|
    ensures forall i :: 0 <= i < |items| ==> hashes[i] == HashLeaf(sha384, items[i])
  {
    seq(|items|, i requires 0 <= i < |items| => HashLeaf(sha384, items[i]))
  }

  function SlotRoot(sha384: Sha384, items: seq<ScannedItem>, slot: Slot): Digest {
    TreeRoot(sha384, LeafHashes(sha384, Selected(items, slot)))
  }

  function NoStateRoot(): (zeros: Digest)
    ensures forall i :: 0 <= i < HASH_LENGTH ==> zeros[i] == 0
  {
    seq(HASH_LENGTH, _ => 0)
  }

  function StateRoot(footer: Footer): Bytes {
    if footer.startOfBlockStateRoot == [] then NoStateRoot() else footer.startOfBlockStateRoot
  }

  function TimestampBytes(header: Header): Bytes {
    if header.timestamp.Some? then header.timestamp.value else []
  }

  function UpperOf(sha384: Sha384, items: seq<ScannedItem>, header: Header, footer: Footer): UpperTree {
    UpperTree(
      footer.previousBlockRoot,
      footer.allBlockHashesRoot,
      StateRoot(footer),
      SlotRoot(sha384, items, ConsensusSlot),
      SlotRoot(sha384, items, InputSlot),
      SlotRoot(sha384, items, OutputSlot),
      SlotRoot(sha384, items, StateChangesSlot),
      SlotRoot(sha384, items, TraceSlot),
      TimestampBytes(header))
  }

  // ----- Scanning a block --------------------------------------------------------------------

  datatype ScannedBlock = ScannedBlock(
    blockNumber: u64,
    blockRoot: Digest,
    previousBlockRoot: Bytes,
    blockSignature: Option<Buffer>,
    bootstrap: Option<Bootstrap>)

  const SCAN_DECODES: set<nat> := {F_BLOCK_HEADER, F_BLOCK_FOOTER, F_BLOCK_PROOF, F_SIGNED_TRANSACTION}
  const WITNESS_DECODES: set<nat> := {F_BLOCK_HEADER, F_BLOCK_FOOTER}

  /** The items of a block file, or why it has none. */
  function ItemsIn(lib: Library, bytes: Bytes): Result<seq<ScannedItem>> {
    match lib.inflate(bytes)
    case None => Failure(CannotInflate)
    case Some(raw) => BlockItems(raw)
  }

  /** The scan as a function of the items alone. */
  function Scanned(lib: Library, items: seq<ScannedItem>): Result<ScannedBlock> {
    var fault := FirstFault(lib, items, SCAN_DECODES);
    var header, footer := LastHeader(lib, items), LastFooter(lib, items);
    if fault.Some? then Failure(fault.value)
    else if header.None? then Failure(HeaderMissing)
    else if footer.None? then Failure(FooterMissing)
    else
      Success(ScannedBlock(
        header.value.number,
        BlockRoot(lib.sha384, UpperOf(lib.sha384, items, header.value, footer.value)),
        footer.value.previousBlockRoot,
        LastSignature(lib, items),
        FirstBootstrap(lib, items)))
  }

  function ScannedFrom(lib: Library, bytes: Bytes): Result<ScannedBlock> {
    var items :- ItemsIn(lib, bytes);
    Scanned(lib, items)
  }

  /** A hasher that has been fed exactly the selected items. */
  ghost predicate Fed(tree: StreamingTreeHasher, sha384: Sha384, items: seq<ScannedItem>, slot: Slot)
    reads tree
  {
    tree.Valid() && tree.sha384 == sha384 && tree.leaves == LeafHashes(sha384, Selected(items, slot))
  }

  lemma Push(lib: Library, items: seq<ScannedItem>, item: ScannedItem, decoded: set<nat>)
    ensures var before := FirstFault(lib, items, decoded);
            FirstFault(lib, items + [item], decoded)
            == if before.Some? then before else ItemFault(lib, item, decoded)
    ensures forall slot ::
              Selected(items + [item], slot)
              == Selected(items, slot) + if SlotOf(item.kind) == Success(slot) then [item.bytes] else []
    ensures forall slot ::
              LeafHashes(lib.sha384, Selected(items + [item], slot))
              == LeafHashes(lib.sha384, Selected(items, slot))
                 + if SlotOf(item.kind) == Success(slot) then [HashLeaf(lib.sha384, item.bytes)] else []
    ensures item.kind != F_BLOCK_HEADER || lib.header(item.bytes).None? ==>
              LastHeader(lib, items + [item]) == LastHeader(lib, items)
    ensures item.kind != F_BLOCK_FOOTER || lib.footer(item.bytes).None? ==>
              LastFooter(lib, items + [item]) == LastFooter(lib, items)
  {
    assert (items + [item])[..|items|] == items;
  }

  /** The four trees both scans build with a streaming hasher; one item goes to at most one. */
  method Feed(item: ScannedItem, output: StreamingTreeHasher, consensus: StreamingTreeHasher,
              stateChanges: StreamingTreeHasher, trace: StreamingTreeHasher,
              lib: Library, ghost items: seq<ScannedItem>)
    returns (r: Result<Slot>)
    requires output != consensus && output != stateChanges && output != trace
    requires consensus != stateChanges && consensus != trace && stateChanges != trace
    requires Fed(output, lib.sha384, items, OutputSlot) && Fed(consensus, lib.sha384, items, ConsensusSlot)
    requires Fed(stateChanges, lib.sha384, items, StateChangesSlot) && Fed(trace, lib.sha384, items, TraceSlot)
    modifies output, consensus, stateChanges, trace
    ensures r == SlotOf(item.kind)
    ensures Fed(output, lib.sha384, items + [item], OutputSlot)
    ensures Fed(consensus, lib.sha384, items + [item], ConsensusSlot)
    ensures Fed(stateChanges, lib.sha384, items + [item], StateChangesSlot)
    ensures Fed(trace, lib.sha384, items + [item], TraceSlot)
  {
    Push(lib, items, item, {});
    r := SlotOf(item.kind);
    if r == Success(OutputSlot) {
      output.AddLeaf(HashLeaf(lib.sha384, item.bytes));
    } else if r == Success(ConsensusSlot) {
      consensus.AddLeaf(HashLeaf(lib.sha384, item.bytes));
    } else if r == Success(StateChangesSlot) {
      stateChanges.AddLeaf(HashLeaf(lib.sha384, item.bytes));
    } else if r == Success(TraceSlot) {
      trace.AddLeaf(HashLeaf(lib.sha384, item.bytes));
    }
  }

  lemma {:induction false} FaultStays(lib: Library, items: seq<ScannedItem>, i: nat, decoded: set<nat>)
    requires i <= |items| && FirstFault(lib, items[..i], decoded).Some?
    ensures FirstFault(lib, items, decoded) == FirstFault(lib, items[..i], decoded)
  {
    if i < |items| {
      assert items[..|items| - 1][..i] == items[..i];
      FaultStays(lib, items[..|items| - 1], i, decoded);
    } else {
      assert items[..i] == items;
    }
  }

  /** What the typed views hold after the items seen so far. */
  datatype Views = Views(
    header: Option<Header>,
    footer: Option<Footer>,
    blockSignature: Option<Buffer>,
    bootstrap: Option<Bootstrap>)

  function ViewsOf(lib: Library, items: seq<ScannedItem>): Views {
    Views(LastHeader(lib, items), LastFooter(lib, items), LastSignature(lib, items), FirstBootstrap(lib, items))
  }

  /** The typed decode of one item, kept where the scan keeps it. */
  method Decode(lib: Library, item: ScannedItem, views: Views, ghost items: seq<ScannedItem>)
    returns (r: Result<Views>)
    requires views == ViewsOf(lib, items)
    ensures r == if item.kind in SCAN_DECODES && !lib.Decodes(item) then Failure(CannotDecode)
                 else Success(ViewsOf(lib, items + [item]))
  {
    assert (items + [item])[..|items|] == items;
    if item.kind == F_BLOCK_HEADER {
      var header := lib.header(item.bytes);
      if header.None? { return Failure(CannotDecode); }
      return Success(views.(header := header));
    } else if item.kind == F_BLOCK_FOOTER {
      var footer := lib.footer(item.bytes);
      if footer.None? { return Failure(CannotDecode); }
      return Success(views.(footer := footer));
    } else if item.kind == F_BLOCK_PROOF {
      var proof := lib.proof(item.bytes);
      if proof.None? { return Failure(CannotDecode); }
      return Success(if proof.value.Some? then views.(blockSignature := proof.value) else views);
    } else if item.kind == F_SIGNED_TRANSACTION {
      var tx := lib.signedTransaction(item.bytes);
      if tx.None? { return Failure(CannotDecode); }
      return Success(if views.bootstrap.None? then views.(bootstrap := lib.publication(tx.value)) else views);
    }
    return Success(views);
  }

  method FeedInput(item: ScannedItem, slot: Slot, input: StreamingTreeHasher,
                   lib: Library, ghost items: seq<ScannedItem>)
    requires SlotOf(item.kind) == Success(slot) && Fed(input, lib.sha384, items, InputSlot)
    modifies input
    ensures Fed(input, lib.sha384, items + [item], InputSlot)
  {
    Push(lib, items, item, {});
    if slot == InputSlot {
      input.AddLeaf(HashLeaf(lib.sha384, item.bytes));
    }
  }

  datatype Roots = Roots(consensus: Digest, input: Digest, output: Digest, stateChanges: Digest, trace: Digest)

  function RootsOf(sha384: Sha384, items: seq<ScannedItem>): Roots {
    Roots(
      SlotRoot(sha384, items, ConsensusSlot),
      SlotRoot(sha384, items, InputSlot),
      SlotRoot(sha384, items, OutputSlot),
      SlotRoot(sha384, items, StateChangesSlot),
      SlotRoot(sha384, items, TraceSlot))
  }

  lemma FaultAt(lib: Library, items: seq<ScannedItem>, i: nat, decoded: set<nat>)
    requires i < |items| && FirstFault(lib, items[..i], decoded).None?
    ensures ItemFault(lib, items[i], decoded).Some? ==> FirstFault(lib, items, decoded) == ItemFault(lib, items[i], decoded)
    ensures ItemFault(lib, items[i], decoded).None? ==> FirstFault(lib, items[..i + 1], decoded).None?
    ensures items[..i + 1] == items[..i] + [items[i]]
  {
    assert items[..i + 1] == items[..i] + [items[i]];
    Push(lib, items[..i], items[i], decoded);
    if ItemFault(lib, items[i], decoded).Some? {
      FaultStays(lib, items, i + 1, decoded);
    }
  }

  /** The item loop: five hashers grow, the typed views follow, the first fault ends it. */
  method ScanLoop(lib: Library, items: seq<ScannedItem>, input: StreamingTreeHasher, output: StreamingTreeHasher,
                  consensus: StreamingTreeHasher, stateChanges: StreamingTreeHasher, trace: StreamingTreeHasher)
    returns (r: Result<Views>)
    requires input != output && input != consensus && input != stateChanges && input != trace
    requires output != consensus && output != stateChanges && output != trace
    requires consensus != stateChanges && consensus != trace && stateChanges != trace
    requires Fed(input, lib.sha384, [], InputSlot) && Fed(output, lib.sha384, [], OutputSlot)
    requires Fed(consensus, lib.sha384, [], ConsensusSlot)
    requires Fed(stateChanges, lib.sha384, [], StateChangesSlot) && Fed(trace, lib.sha384, [], TraceSlot)
    modifies input, output, consensus, stateChanges, trace
    ensures r == match FirstFault(lib, items, SCAN_DECODES)
                 case Some(e) => Failure(e)
                 case None => Success(ViewsOf(lib, items))
    ensures r.Success? ==>
              && Fed(input, lib.sha384, items, InputSlot) && Fed(output, lib.sha384, items, OutputSlot)
              && Fed(consensus, lib.sha384, items, ConsensusSlot)
              && Fed(stateChanges, lib.sha384, items, StateChangesSlot) && Fed(trace, lib.sha384, items, TraceSlot)
  {
    var views := Views(None, None, None, None);
    ghost var seen: seq<ScannedItem> := [];
    for i := 0 to |items|
      invariant seen == items[..i]
      invariant Fed(input, lib.sha384, seen, InputSlot) && Fed(output, lib.sha384, seen, OutputSlot)
      invariant Fed(consensus, lib.sha384, seen, ConsensusSlot)
      invariant Fed(stateChanges, lib.sha384, seen, StateChangesSlot) && Fed(trace, lib.sha384, seen, TraceSlot)
      invariant views == ViewsOf(lib, seen)
      invariant FirstFault(lib, seen, SCAN_DECODES).None?
    {
      FaultAt(lib, items, i, SCAN_DECODES);
      var slot :- Feed(items[i], output, consensus, stateChanges, trace, lib, seen);
      FeedInput(items[i], slot, input, lib, seen);
      views :- Decode(lib, items[i], views, seen);
      seen := seen + [items[i]];
    }
    assert seen == items;
    return Success(views);
  }

  method ScanItems(lib: Library, items: seq<ScannedItem>) returns (r: Result<(Views, Roots)>)
    ensures r == match FirstFault(lib, items, SCAN_DECODES)
                 case Some(e) => Failure(e)
                 case None => Success((ViewsOf(lib, items), RootsOf(lib.sha384, items)))
  {
    var input := new StreamingTreeHasher(lib.sha384);
    var output := new StreamingTreeHasher(lib.sha384);
    var consensus := new StreamingTreeHasher(lib.sha384);
    var stateChanges := new StreamingTreeHasher(lib.sha384);
    var trace := new StreamingTreeHasher(lib.sha384);
    var views :- ScanLoop(lib, items, input, output, consensus, stateChanges, trace);
    var consensusRoot, _ := consensus.Root();
    var inputRoot, _ := input.Root();
    var outputRoot, _ := output.Root();
    var stateChangesRoot, _ := stateChanges.Root();
    var traceRoot, _ := trace.Root();
    return Success((views, Roots(consensusRoot, inputRoot, outputRoot, stateChangesRoot, traceRoot)));
  }

  method ScanBlock(lib: Library, bytes: Bytes) returns (r: Result<ScannedBlock>)
    ensures r == ScannedFrom(lib, bytes)
  {
    var raw := lib.inflate(bytes);
    if raw.None? {
      return Failure(CannotInflate);
    }
    var items :- ScanBlockItems(raw.value);
    var scanned :- ScanItems(lib, items);
    var (views, roots) := scanned;
    if views.header.None? {
      return Failure(HeaderMissing);
    }
    if views.footer.None? {
      return Failure(FooterMissing);
    }
    var header, footer := views.header.value, views.footer.value;
    var stateRoot := if footer.startOfBlockStateRoot == [] then NoStateRoot() else footer.startOfBlockStateRoot;
    var depth5x1 := HashInternal(lib.sha384, footer.previousBlockRoot, footer.allBlockHashesRoot);
    var depth5x2 := HashInternal(lib.sha384, stateRoot, roots.consensus);
    var depth5x3 := HashInternal(lib.sha384, roots.input, roots.output);
    var depth5x4 := HashInternal(lib.sha384, roots.stateChanges, roots.trace);
    var depth4x1 := HashInternal(lib.sha384, depth5x1, depth5x2);
    var depth4x2 := HashInternal(lib.sha384, depth5x3, depth5x4);
    var fixedRoot := HashInternalSingleChild(lib.sha384, HashInternal(lib.sha384, depth4x1, depth4x2));
    var blockRoot := HashInternal(lib.sha384, HashLeaf(lib.sha384, TimestampBytes(header)), fixedRoot);
    return Success(ScannedBlock(
      header.number, blockRoot, footer.previousBlockRoot, views.blockSignature, views.bootstrap));
  }

  datatype BlockProofMaterial = BlockProofMaterial(
    blockNumber: u64,
    blockRoot: Digest,
    previousBlockRoot: Bytes,
    layout: ProofLayout,
    bootstrap: Option<Bootstrap>)

  function ExtractProofMaterial(lib: Library, bytes: Bytes): Result<BlockProofMaterial> {
    var scanned :- ScannedFrom(lib, bytes);
    if scanned.blockSignature.None? then Failure(SignedProofMissing)
    else
      Success(BlockProofMaterial(
        scanned.blockNumber, scanned.blockRoot, scanned.previousBlockRoot,
        ClassifyLayout(scanned.blockSignature.value), scanned.bootstrap))
  }

  datatype BlockChainInfo = BlockChainInfo(blockNumber: u64, blockRoot: Digest, previousBlockRoot: Bytes)

  function ChainInfo(lib: Library, bytes: Bytes): Result<BlockChainInfo> {
    var scanned :- ScannedFrom(lib, bytes);
    Success(BlockChainInfo(scanned.blockNumber, scanned.blockRoot, scanned.previousBlockRoot))
  }

  // ----- Inclusion witnesses -----------------------------------------------------------------

  datatype BlockInclusionWitness = BlockInclusionWitness(
    inputWitness: MerkleWitness,
    outputRoot: Digest,
    consensusRoot: Digest,
    stateChangesRoot: Digest,
    traceRoot: Digest,
    stateRoot: Digest,
    previousBlockRoot: Digest,
    allBlockHashesRoot: Digest,
    timestamp: Bytes)

  function ToHash48(bytes: Bytes): Result<Digest> {
    if |bytes| == HASH_LENGTH then Success(bytes) else Failure(NotA48ByteHash)
  }

  function UpperOfWitness(inputRoot: Digest, w: BlockInclusionWitness): UpperTree {
    UpperTree(
      w.previousBlockRoot, w.allBlockHashesRoot, w.stateRoot, w.consensusRoot, inputRoot,
      w.outputRoot, w.stateChangesRoot, w.traceRoot, w.timestamp)
  }

  function RecomputedRoot(sha384: Sha384, tx: Bytes, w: BlockInclusionWitness): Digest {
    BlockRoot(sha384, UpperOfWitness(Folded(sha384, HashLeaf(sha384, tx), w.inputWitness), w))
  }

  method RecomputeBlockRoot(sha384: Sha384, tx: Bytes, w: BlockInclusionWitness) returns (root: Digest)
    ensures root == RecomputedRoot(sha384, tx, w)
  {
    var inputRoot := FoldWitness(sha384, HashLeaf(sha384, tx), w.inputWitness);
    var depth5x1 := HashInternal(sha384, w.previousBlockRoot, w.allBlockHashesRoot);
    var depth5x2 := HashInternal(sha384, w.stateRoot, w.consensusRoot);
    var depth5x3 := HashInternal(sha384, inputRoot, w.outputRoot);
    var depth5x4 := HashInternal(sha384, w.stateChangesRoot, w.traceRoot);
    var depth4x1 := HashInternal(sha384, depth5x1, depth5x2);
    var depth4x2 := HashInternal(sha384, depth5x3, depth5x4);
    var fixedRoot := HashInternalSingleChild(sha384, HashInternal(sha384, depth4x1, depth4x2));
    root := HashInternal(sha384, HashLeaf(sha384, w.timestamp), fixedRoot);
  }

  /** The witness as a function of the items alone. */
  function Witnessed(lib: Library, items: seq<ScannedItem>, index: nat): Result<(Bytes, BlockInclusionWitness)> {
    var fault := FirstFault(lib, items, WITNESS_DECODES);
    var header, footer := LastHeader(lib, items), LastFooter(lib, items);
    var input := Selected(items, InputSlot);
    if fault.Some? then Failure(fault.value)
    else if header.None? then Failure(HeaderMissing)
    else if footer.None? then Failure(FooterMissing)
    else if index >= |input| then Failure(IndexOutOfRange)
    else
      WitnessComplete(lib.sha384, LeafHashes(lib.sha384, input), index);
      var stateRoot :- ToHash48(StateRoot(footer.value));
      var previous :- ToHash48(footer.value.previousBlockRoot);
      var allHashes :- ToHash48(footer.value.allBlockHashesRoot);
      Success((input[index],
               BlockInclusionWitness(
                 WitnessOf(lib.sha384, LeafHashes(lib.sha384, input), index).value,
                 SlotRoot(lib.sha384, items, OutputSlot),
                 SlotRoot(lib.sha384, items, ConsensusSlot),
                 SlotRoot(lib.sha384, items, StateChangesSlot),
                 SlotRoot(lib.sha384, items, TraceSlot),
                 stateRoot, previous, allHashes, TimestampBytes(header.value))))
  }

  function WitnessedFrom(lib: Library, bytes: Bytes, index: nat): Result<(Bytes, BlockInclusionWitness)> {
    var items :- ItemsIn(lib, bytes);
    Witnessed(lib, items, index)
  }

  method PushInput(lib: Library, item: ScannedItem, slot: Slot, leaves: seq<Digest>, inputs: seq<Bytes>,
                   ghost items: seq<ScannedItem>)
    returns (newLeaves: seq<Digest>, newInputs: seq<Bytes>)
    requires SlotOf(item.kind) == Success(slot)
    requires inputs == Selected(items, InputSlot) && leaves == LeafHashes(lib.sha384, inputs)
    ensures newInputs == Selected(items + [item], InputSlot) && newLeaves == LeafHashes(lib.sha384, newInputs)
  {
    Push(lib, items, item, {});
    newLeaves, newInputs := leaves, inputs;
    if slot == InputSlot {
      newLeaves := leaves + [HashLeaf(lib.sha384, item.bytes)];
      newInputs := inputs + [item.bytes];
    }
  }

  /** The witness decodes headers and footers only. */
  method DecodeEnds(lib: Library, item: ScannedItem, header: Option<Header>, footer: Option<Footer>,
                    ghost items: seq<ScannedItem>)
    returns (r: Result<(Option<Header>, Option<Footer>)>)
    requires header == LastHeader(lib, items) && footer == LastFooter(lib, items)
    ensures r == if item.kind in WITNESS_DECODES && !lib.Decodes(item) then Failure(CannotDecode)
                 else Success((LastHeader(lib, items + [item]), LastFooter(lib, items + [item])))
  {
    assert (items + [item])[..|items|] == items;
    if item.kind == F_BLOCK_HEADER {
      var decoded := lib.header(item.bytes);
      if decoded.None? { return Failure(CannotDecode); }
      return Success((decoded, footer));
    } else if item.kind == F_BLOCK_FOOTER {
      var decoded := lib.footer(item.bytes);
      if decoded.None? { return Failure(CannotDecode); }
      return Success((header, decoded));
    }
    return Success((header, footer));
  }

  method WitnessLoop(lib: Library, items: seq<ScannedItem>, output: StreamingTreeHasher,
                     consensus: StreamingTreeHasher, stateChanges: StreamingTreeHasher, trace: StreamingTreeHasher)
    returns (r: Result<(Option<Header>, Option<Footer>, seq<Digest>, seq<Bytes>)>)
    requires output != consensus && output != stateChanges && output != trace
    requires consensus != stateChanges && consensus != trace && stateChanges != trace
    requires Fed(output, lib.sha384, [], OutputSlot) && Fed(consensus, lib.sha384, [], ConsensusSlot)
    requires Fed(stateChanges, lib.sha384, [], StateChangesSlot) && Fed(trace, lib.sha384, [], TraceSlot)
    modifies output, consensus, stateChanges, trace
    ensures r == match FirstFault(lib, items, WITNESS_DECODES)
                 case Some(e) => Failure(e)
                 case None =>
                   var input := Selected(items, InputSlot);
                   Success((LastHeader(lib, items), LastFooter(lib, items), LeafHashes(lib.sha384, input), input))
    ensures r.Success? ==>
              && Fed(output, lib.sha384, items, OutputSlot) && Fed(consensus, lib.sha384, items, ConsensusSlot)
              && Fed(stateChanges, lib.sha384, items, StateChangesSlot) && Fed(trace, lib.sha384, items, TraceSlot)
  {
    var header: Option<Header>, footer: Option<Footer> := None, None;
    var inputLeaves: seq<Digest>, inputItems: seq<Bytes> := [], [];
    ghost var seen: seq<ScannedItem> := [];
    for i := 0 to |items|
      invariant seen == items[..i]
      invariant Fed(output, lib.sha384, seen, OutputSlot) && Fed(consensus, lib.sha384, seen, ConsensusSlot)
      invariant Fed(stateChanges, lib.sha384, seen, StateChangesSlot) && Fed(trace, lib.sha384, seen, TraceSlot)
      invariant header == LastHeader(lib, seen) && footer == LastFooter(lib, seen)
      invariant inputItems == Selected(seen, InputSlot) && inputLeaves == LeafHashes(lib.sha384, inputItems)
      invariant FirstFault(lib, seen, WITNESS_DECODES).None?
    {
      FaultAt(lib, items, i, WITNESS_DECODES);
      var slot :- Feed(items[i], output, consensus, stateChanges, trace, lib, seen);
      inputLeaves, inputItems := PushInput(lib, items[i], slot, inputLeaves, inputItems, seen);
      var ends :- DecodeEnds(lib, items[i], header, footer, seen);
      header, footer := ends.0, ends.1;
      seen := seen + [items[i]];
    }
    assert seen == items;
    return Success((header, footer, inputLeaves, inputItems));
  }

  lemma {:induction false} SelectedAtMostItems(items: seq<ScannedItem>, slot: Slot)
    ensures |Selected(items, slot)| <= |items|
  {
    if items != [] {
      SelectedAtMostItems(items[..|items| - 1], slot);
    }
  }

  method MakeInclusionWitness(lib: Library, bytes: Bytes, index: nat)
    returns (r: Result<(Bytes, BlockInclusionWitness)>)
    ensures r == WitnessedFrom(lib, bytes, index)
  {
    var raw := lib.inflate(bytes);
    if raw.None? {
      return Failure(CannotInflate);
    }
    var items :- ScanBlockItems(raw.value);
    ItemsNonEmpty(raw.value, 0);
    SelectedAtMostItems(items, InputSlot);
    var output := new StreamingTreeHasher(lib.sha384);
    var consensus := new StreamingTreeHasher(lib.sha384);
    var stateChanges := new StreamingTreeHasher(lib.sha384);
    var trace := new StreamingTreeHasher(lib.sha384);
    var walked :- WitnessLoop(lib, items, output, consensus, stateChanges, trace);
    var (header, footer, inputLeaves, inputItems) := walked;
    if header.None? {
      return Failure(HeaderMissing);
    }
    if footer.None? {
      return Failure(FooterMissing);
    }
    if index >= |inputItems| {
      return Failure(IndexOutOfRange);
    }
    var inputWitness := WitnessFor(lib.sha384, inputLeaves, index);
    WitnessComplete(lib.sha384, inputLeaves, index);
    var stateRoot := NoStateRoot();
    if footer.value.startOfBlockStateRoot != [] {
      stateRoot :- ToHash48(footer.value.startOfBlockStateRoot);
    }
    var outputRoot, _ := output.Root();
    var consensusRoot, _ := consensus.Root();
    var stateChangesRoot, _ := stateChanges.Root();
    var traceRoot, _ := trace.Root();
    var previous :- ToHash48(footer.value.previousBlockRoot);
    var allHashes :- ToHash48(footer.value.allBlockHashesRoot);
    return Success((inputItems[index],
                    BlockInclusionWitness(
                      inputWitness.value, outputRoot, consensusRoot, stateChangesRoot, traceRoot,
                      stateRoot, previous, allHashes, TimestampBytes(header.value))));
  }
}
