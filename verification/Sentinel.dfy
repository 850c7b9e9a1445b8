/** The sentinel: a resumable, windowed, batch-fetching check of a live block chain. */
module Sentinel {
  import opened Common
  import opened Merkle
  import opened Material
  import opened Proof

  /** Blocks fetched side by side. */
  const FETCH_BATCH := 32

  /** How blocks are read and signatures checked, and whether the binary has the proof stack at all. */
  datatype Build = Build(
    extract: Bytes -> Result<BlockProofMaterial>,
    hints: (ProofLayout, Digest) -> Option<HintsChecks>,
    blockProofs: bool)

  /** The build that reads blocks with the block scan and verifies with the proof module's hinTS check. */
  function Production(lib: Library, crypto: Crypto, blockProofs: bool): Build {
    Build(bytes => ExtractProofMaterial(lib, bytes), crypto.hints, blockProofs)
  }

  datatype Alarm =
    | NoLastBlock
    | NoInitBlock
    | ProbeFailed
    | Gap(block: nat)
    | Unreadable(block: nat)
    | SequenceBreak(block: nat)
    | RootChainBreak(block: nat)
    | ProofFormatChanged(block: nat)
    | SignatureLayoutChanged(block: nat)
    | LedgerIdPublication(block: nat)
    | HintsInvalid(block: nat)
    | ProofStackMissing(block: nat)

  // ----- The state file ----------------------------------------------------------------------

  function HexDigit(n: nat): char
    requires n < 16
  {
    if n < 10 then '0' + n as char else 'a' + (n - 10) as char
  }

  function Hex(bytes: Bytes): (text: string)
    ensures |text| == 2 * |bytes|
  {
    if bytes == [] then [] else [HexDigit(bytes[0] / 16), HexDigit(bytes[0] % 16)] + Hex(bytes[1..])
  }

  lemma {:induction false} HexIsInjective(a: Bytes, b: Bytes)
    requires Hex(a) == Hex(b)
    ensures a == b
  {
    if a != [] {
      assert Hex(a)[..2] == [HexDigit(a[0] / 16), HexDigit(a[0] % 16)] && Hex(a)[2..] == Hex(a[1..]);
      assert Hex(b)[..2] == [HexDigit(b[0] / 16), HexDigit(b[0] % 16)] && Hex(b)[2..] == Hex(b[1..]);
      assert Hex(a)[..2][0] == Hex(b)[..2][0] && Hex(a)[..2][1] == Hex(b)[..2][1];
      assert a[0] == b[0];
      HexIsInjective(a[1..], b[1..]);
      assert a == [a[0]] + a[1..] && b == [b[0]] + b[1..];
    }
  }

  /** The part of the state that a block is checked against; the root is hex text. */
  datatype Anchor = Anchor(
    lastBlock: Option<u64>,
    lastRoot: Option<string>,
    proofPath: Option<string>,
    signatureBytes: Option<nat>)

  const BLANK := Anchor(None, None, None, None)

  /** The state file's fields. */
  datatype StateFile = StateFile(
    comment: string,
    initialized: bool,
    anchor: Anchor,
    verifiedTotal: Option<nat>,
    since: Option<string>,
    checked: Option<string>)
  {
    /** Not initialized, whatever its comment says and whenever it was last looked at. */
    predicate Uninitialized() {
      !initialized && anchor == BLANK && verifiedTotal == None && since == None
    }

    /** Numbers a JSON reader takes back as 64-bit ones. */
    predicate Storable() {
      && (verifiedTotal.Some? ==> verifiedTotal.value < TWO_64)
      && (anchor.signatureBytes.Some? ==> anchor.signatureBytes.value < TWO_64)
    }
  }

  /** A JSON value as far as the state file goes. */
  datatype Json = Null | Bool(truth: bool) | Number(number: int) | Text(text: string) | Other

  type JsonObject = map<string, Json>

  /** Indexing a value: a missing field is null. */
  function Get(v: JsonObject, key: string): Json {
    if key in v then v[key] else Null
  }

  function AsU64(v: Json): Option<u64> {
    if v.Number? && 0 <= v.number < TWO_64 then Some(v.number) else None
  }

  function AsText(v: Json): Option<string> {
    if v.Text? then Some(v.text) else None
  }

  function FileOf(v: JsonObject): (file: StateFile)
    ensures file.Storable()
  {
    var comment := AsText(Get(v, "_comment"));
    StateFile(
      if comment.Some? then comment.value else "",
      Get(v, "initialized").Bool? && Get(v, "initialized").truth,
      Anchor(AsU64(Get(v, "lastBlock")), AsText(Get(v, "lastRoot")), AsText(Get(v, "proofPath")), AsU64(Get(v, "signatureBytes"))),
      AsU64(Get(v, "verifiedTotal")),
      AsText(Get(v, "since")),
      AsText(Get(v, "checked")))
  }

  function NumberOf(n: Option<nat>): Json {
    if n.Some? then Number(n.value) else Null
  }

  function TextOf(s: Option<string>): Json {
    if s.Some? then Text(s.value) else Null
  }

  function JsonOf(file: StateFile): JsonObject {
    map[
      "_comment" := Text(file.comment),
      "initialized" := Bool(file.initialized),
      "lastBlock" := NumberOf(file.anchor.lastBlock),
      "lastRoot" := TextOf(file.anchor.lastRoot),
      "proofPath" := TextOf(file.anchor.proofPath),
      "signatureBytes" := NumberOf(file.anchor.signatureBytes),
      "verifiedTotal" := NumberOf(file.verifiedTotal),
      "since" := TextOf(file.since),
      "checked" := TextOf(file.checked)]
  }

  lemma NamesDiffer()
    ensures |{"_comment", "initialized", "lastBlock", "lastRoot", "proofPath",
              "signatureBytes", "verifiedTotal", "since", "checked"}| == 9
  {
    assert |"_comment"| == 8 && |"initialized"| == 11 && |"lastBlock"| == 9 && |"lastRoot"| == 8 && |"proofPath"| == 9;
    assert |"signatureBytes"| == 14 && |"verifiedTotal"| == 13 && |"since"| == 5 && |"checked"| == 7;
    assert "_comment"[0] == '_' && "lastRoot"[0] == 'l' && "lastBlock"[0] == 'l' && "proofPath"[0] == 'p';
  }

  /** What one run saves the next one loads. */
  lemma SaveThenLoad(file: StateFile)
    requires file.Storable()
    ensures FileOf(JsonOf(file)) == file
  {
    NamesDiffer();
  }

  /** One saved state, field by field. */
  lemma SavedExample()
    ensures FileOf(map["_comment" := Text("c"), "initialized" := Bool(true), "lastBlock" := Number(7), "lastRoot" := Text("ab09"),
                       "proofPath" := Text("wraps"), "signatureBytes" := Number(3432), "verifiedTotal" := Number(3),
                       "since" := Text("2026-01-02"), "checked" := Text("2026-01-03T04:05:06Z")])
            == StateFile("c", true, Anchor(Some(7), Some("ab09"), Some("wraps"), Some(3432)), Some(3), Some("2026-01-02"),
                         Some("2026-01-03T04:05:06Z"))
    ensures Hex([0xab, 0x09]) == "ab09"
  {
    NamesDiffer();
    assert Hex([0x09]) == "09" by { assert [0x09][1..] == []; }
    assert [0xab, 0x09][1..] == [0x09];
  }

  /** A file with none of the fields is an uninitialized one. */
  lemma EmptyIsUninitialized()
    ensures FileOf(map[]).Uninitialized()
  {
  }

  // ----- One block ---------------------------------------------------------------------------

  function PathName(path: ProofPath): string {
    match path
    case AggregateSchnorr => "aggregateSchnorr"
    case WrapsCompressedProof => "wraps"
    case Unknown => "unknown"
  }

  function SignatureBytes(layout: ProofLayout): nat {
    |layout.hintsVerificationKey| + |layout.hintsSignature| + |layout.suffix|
  }

  predicate HintsPass(build: Build, m: BlockProofMaterial) {
    && build.hints(m.layout, m.blockRoot).Some?
    && build.hints(m.layout, m.blockRoot).value.AllPassed()
  }

  datatype Verdict = Pass(anchor: Anchor) | Stop(alarm: Alarm)

  /** The four sentinel invariants, in the order they are tried. */
  function Judge(build: Build, n: u64, bytes: Bytes, a: Anchor): Verdict {
    match build.extract(bytes)
    case Failure(_) => Stop(Unreadable(n))
    case Success(m) =>
      if m.blockNumber != n then Stop(SequenceBreak(n))
      else if a.lastRoot.Some? && Hex(m.previousBlockRoot) != a.lastRoot.value then Stop(RootChainBreak(n))
      else if a.proofPath.Some? && a.proofPath.value != PathName(m.layout.path) then Stop(ProofFormatChanged(n))
      else if a.signatureBytes.Some? && a.signatureBytes.value != SignatureBytes(m.layout) then Stop(SignatureLayoutChanged(n))
      else if m.bootstrap.Some? then Stop(LedgerIdPublication(n))
      else if !m.layout.path.Unknown? && !build.blockProofs then Stop(ProofStackMissing(n))
      else if !m.layout.path.Unknown? && !HintsPass(build, m) then Stop(HintsInvalid(n))
      else Pass(Anchor(Some(n), Some(Hex(m.blockRoot)), Some(PathName(m.layout.path)), Some(SignatureBytes(m.layout))))
  }

  type Source = map<nat, Bytes>

  datatype Outcome = Outcome(anchor: Anchor, verified: nat, alarm: Option<Alarm>) {
    /** The same end after k more blocks. */
    function Plus(k: nat): Outcome {
      this.(verified := verified + k)
    }
  }

  /** The plain sequential check of blocks n..to. */
  function Sequential(build: Build, source: Source, n: nat, to: u64, a: Anchor): Outcome
    decreases 1 + to - n
  {
    if n > to then Outcome(a, 0, None)
    else if n !in source then Outcome(a, 0, Some(Gap(n)))
    else
      match Judge(build, n, source[n], a)
      case Stop(alarm) => Outcome(a, 0, Some(alarm))
      case Pass(next) =>
        Sequential(build, source, n + 1, to, next).Plus(1)
  }

  lemma {:induction false} SplitSequential(build: Build, source: Source, n: nat, mid: u64, to: u64, a: Anchor)
    requires n <= mid + 1 && mid <= to
    ensures var o, o1 := Sequential(build, source, n, to, a), Sequential(build, source, n, mid, a);
            if o1.alarm.Some? then o == o1 && n + o1.verified <= mid
            else
              var o2 := Sequential(build, source, mid + 1, to, o1.anchor);
              n + o1.verified == mid + 1 && o == o2.Plus(o1.verified)
    decreases 1 + mid - n
  {
    if n <= mid && n in source && Judge(build, n, source[n], a).Pass? {
      SplitSequential(build, source, n + 1, mid, to, Judge(build, n, source[n], a).anchor);
    }
  }

  /** The anchor after k blocks names the k-th, and without an alarm every block was passed. */
  lemma {:induction false} SequentialEnd(build: Build, source: Source, n: nat, to: u64, a: Anchor)
    ensures var o := Sequential(build, source, n, to, a);
            && (o.verified == 0 ==> o.anchor == a)
            && (o.verified > 0 ==> o.anchor.lastBlock == Some(n + o.verified - 1))
            && (o.alarm.Some? ==> n + o.verified <= to)
            && (o.alarm.None? ==> n + o.verified == if n <= to then to + 1 else n)
    decreases 1 + to - n
  {
    if n <= to && n in source && Judge(build, n, source[n], a).Pass? {
      SequentialEnd(build, source, n + 1, to, Judge(build, n, source[n], a).anchor);
    }
  }

  /** One run's surroundings: blocks available, newest one found, flags, and the clock. */
  datatype Surroundings = Surroundings(
    source: Source,
    newest: Option<u64>,
    initBlock: Option<u64>,
    maxBlocks: nat,
    today: string,
    now: string)

  datatype Window = CaughtUp | Blocked(alarm: Alarm) | Verify(from: nat, to: u64)

  function First(init: Option<u64>, s: StateFile): Option<nat> {
    if s.initialized then (if s.anchor.lastBlock.Some? then Some(s.anchor.lastBlock.value + 1) else None) else init
  }

  function WindowOf(w: Surroundings, s: StateFile): Window
    requires w.maxBlocks >= 1
  {
    var first := First(w.initBlock, s);
    if first.None? then Blocked(if s.initialized then NoLastBlock else NoInitBlock)
    else if w.newest.None? then Blocked(ProbeFailed)
    else if w.newest.value < first.value then CaughtUp
    else if w.newest.value - first.value + 1 > w.maxBlocks then Verify(first.value, first.value + w.maxBlocks - 1)
    else Verify(first.value, w.newest.value)
  }

  function Persist(s: StateFile, o: Outcome, today: string, now: string): StateFile {
    if o.verified == 0 then s.(anchor := o.anchor, checked := Some(now))
    else
      StateFile(
        s.comment, true, o.anchor,
        Some(o.verified + if s.verifiedTotal.Some? then s.verifiedTotal.value else 0),
        if s.since.Some? then s.since else Some(today),
        Some(now))
  }

  /** What one whole run does to the state file, and the alarm it ends with. */
  function RunOf(build: Build, w: Surroundings, s: StateFile): (StateFile, Option<Alarm>)
    requires w.maxBlocks >= 1
  {
    match WindowOf(w, s)
    case CaughtUp => (s, None)
    case Blocked(alarm) => (s, Some(alarm))
    case Verify(from, to) =>
      var o := Sequential(build, w.source, from, to, s.anchor);
      (Persist(s, o, w.today, w.now), o.alarm)
  }

  // ----- The program -------------------------------------------------------------------------

  class State {
    var comment: string
    var initialized: bool
    var lastBlock: Option<u64>
    var lastRoot: Option<string>
    var proofPath: Option<string>
    var signatureBytes: Option<nat>
    var verifiedTotal: Option<u64>
    var since: Option<string>
    var checked: Option<string>

    function Anchored(): Anchor
      reads this
    {
      Anchor(lastBlock, lastRoot, proofPath, signatureBytes)
    }

    function File(): StateFile
      reads this
    {
      StateFile(comment, initialized, Anchored(), verifiedTotal, since, checked)
    }

    constructor Load(v: JsonObject)
      ensures File() == FileOf(v)
    {
      var text := AsText(Get(v, "_comment"));
      comment := if text.Some? then text.value else "";
      var flag := Get(v, "initialized");
      initialized := if flag.Bool? then flag.truth else false;
      lastBlock, lastRoot := AsU64(Get(v, "lastBlock")), AsText(Get(v, "lastRoot"));
      proofPath, signatureBytes := AsText(Get(v, "proofPath")), AsU64(Get(v, "signatureBytes"));
      verifiedTotal := AsU64(Get(v, "verifiedTotal"));
      since, checked := AsText(Get(v, "since")), AsText(Get(v, "checked"));
    }

    /** What verified blocks leave in the file besides the anchor, which has moved already. */
    method Record(count: u64, today: string, now: string, ghost before: StateFile, ghost o: Outcome)
      requires File() == before.(anchor := o.anchor) && o.verified == count
      requires (if verifiedTotal.Some? then verifiedTotal.value else 0) + count < TWO_64
      modifies this
      ensures File() == Persist(before, o, today, now)
    {
      if count > 0 {
        initialized := true;
        var total: u64 := if verifiedTotal.Some? then verifiedTotal.value else 0;
        verifiedTotal := Some(total + count);
        if since.None? {
          since := Some(today);
        }
      }
      checked := Some(now);
    }

    method Save() returns (v: JsonObject)
      ensures v == JsonOf(File())
      ensures File().Storable() ==> FileOf(v) == File()
    {
      v := map["_comment" := Text(comment), "initialized" := Bool(initialized)];
      v := v["lastBlock" := NumberOf(lastBlock)]["lastRoot" := TextOf(lastRoot)];
      v := v["proofPath" := TextOf(proofPath)]["signatureBytes" := NumberOf(signatureBytes)];
      v := v["verifiedTotal" := NumberOf(verifiedTotal)]["since" := TextOf(since)]["checked" := TextOf(checked)];
      NamesDiffer();
      assert v == JsonOf(File());
      if File().Storable() { SaveThenLoad(File()); }
    }
  }

  method CheckBlock(build: Build, n: u64, bytes: Bytes, state: State) returns (alarm: Option<Alarm>)
    modifies state`lastBlock, state`lastRoot, state`proofPath, state`signatureBytes
    ensures match Judge(build, n, bytes, old(state.Anchored()))
            case Stop(a) => alarm == Some(a) && state.Anchored() == old(state.Anchored())
            case Pass(next) => alarm == None && state.Anchored() == next
  {
    var extracted := build.extract(bytes);
    if extracted.Failure? {
      return Some(Unreadable(n));
    }
    var material := extracted.value;
    if material.blockNumber != n {
      return Some(SequenceBreak(n));
    }
    var root, claim := Hex(material.blockRoot), Hex(material.previousBlockRoot);
    if state.lastRoot.Some? && claim != state.lastRoot.value {
      return Some(RootChainBreak(n));
    }
    var path, isTss := "unknown", false;
    match material.layout.path {
      case AggregateSchnorr => path, isTss := "aggregateSchnorr", true;
      case WrapsCompressedProof => path, isTss := "wraps", true;
      case Unknown =>
    }
    var layout := material.layout;
    var sigBytes := |layout.hintsVerificationKey| + |layout.hintsSignature| + |layout.suffix|;
    if state.proofPath.Some? && state.proofPath.value != path {
      return Some(ProofFormatChanged(n));
    }
    if state.signatureBytes.Some? && state.signatureBytes.value != sigBytes {
      return Some(SignatureLayoutChanged(n));
    }
    if material.bootstrap.Some? {
      return Some(LedgerIdPublication(n));
    }
    if isTss {
      if !build.blockProofs {
        return Some(ProofStackMissing(n));
      }
      var hints := build.hints(layout, material.blockRoot);
      if hints.None? || !hints.value.AllPassed() {
        return Some(HintsInvalid(n));
      }
    }
    state.lastBlock := Some(n);
    state.lastRoot := Some(root);
    state.proofPath := Some(path);
    state.signatureBytes := Some(sigBytes);
    return None;
  }

  function Fetch(source: Source, n: nat): Option<Bytes> {
    if n in source then Some(source[n]) else None
  }

  /** A batch of fetches, joined in order. */
  method FetchBatch(source: Source, from: u64, to: u64) returns (fetched: seq<Option<Bytes>>)
    requires from <= to
    ensures |fetched| == to - from + 1
    ensures IsBatch(source, from, fetched)
  {
    fetched := seq(to - from + 1, k requires 0 <= k => Fetch(source, from + k));
  }

  /** What the next block does to a sequential check that has passed k already. */
  lemma NextBlock(build: Build, source: Source, n: nat, to: u64, a: Anchor, k: nat)
    requires n <= to
    ensures var all := Sequential(build, source, n, to, a).Plus(k);
            if n !in source then all == Outcome(a, k, Some(Gap(n)))
            else
              match Judge(build, n, source[n], a)
              case Stop(alarm) => all == Outcome(a, k, Some(alarm))
              case Pass(next) => all == Sequential(build, source, n + 1, to, next).Plus(k + 1)
  {
  }

  /** One fetched block: it ends the check with an alarm, or the check goes on behind it. */
  method VerifyNext(build: Build, source: Source, n: u64, to: u64, fetched: Option<Bytes>, state: State, ghost k: nat)
    returns (alarm: Option<Alarm>)
    requires n <= to && fetched == Fetch(source, n)
    modifies state`lastBlock, state`lastRoot, state`proofPath, state`signatureBytes
    ensures Sequential(build, source, n, to, old(state.Anchored())).Plus(k)
            == if alarm.Some? then Outcome(state.Anchored(), k, alarm)
               else Sequential(build, source, n + 1, to, state.Anchored()).Plus(k + 1)
  {
    NextBlock(build, source, n, to, state.Anchored(), k);
    if fetched.None? {
      return Some(Gap(n));
    }
    alarm := CheckBlock(build, n, fetched.value, state);
  }

  /** A batch of blocks from `from` on, as fetched. */
  predicate IsBatch(source: Source, from: nat, fetched: seq<Option<Bytes>>) {
    forall k :: 0 <= k < |fetched| ==> fetched[k] == Fetch(source, from + k)
  }

  /** The block at one offset of a batch. */
  method VerifyFetched(build: Build, source: Source, from: u64, to: u64, fetched: seq<Option<Bytes>>, offset: u64, state: State)
    returns (alarm: Option<Alarm>)
    requires IsBatch(source, from, fetched) && offset < |fetched| && from + offset <= to
    modifies state`lastBlock, state`lastRoot, state`proofPath, state`signatureBytes
    ensures Sequential(build, source, from + offset, to, old(state.Anchored())).Plus(offset)
            == if alarm.Some? then Outcome(state.Anchored(), offset, alarm)
               else Sequential(build, source, from + offset + 1, to, state.Anchored()).Plus(offset + 1)
  {
    var n: u64 := from + offset;
    alarm := VerifyNext(build, source, n, to, fetched[offset], state, offset);
  }

  /** One batch, checked in order. */
  method VerifyBatch(build: Build, source: Source, from: u64, to: u64, state: State)
    returns (verified: u64, alarm: Option<Alarm>)
    requires from <= to < TWO_64 - 1
    modifies state`lastBlock, state`lastRoot, state`proofPath, state`signatureBytes
    ensures Outcome(state.Anchored(), verified, alarm) == Sequential(build, source, from, to, old(state.Anchored()))
  {
    var fetched := FetchBatch(source, from, to);
    verified, alarm := 0, None;
    ghost var all := Sequential(build, source, from, to, state.Anchored());
    while verified < |fetched|
      invariant verified <= |fetched| && alarm == None
      invariant all == Sequential(build, source, from + verified, to, state.Anchored()).Plus(verified)
      decreases |fetched| - verified
    {
      alarm := VerifyFetched(build, source, from, to, fetched, verified, state);
      if alarm.Some? {
        return;
      }
      verified := verified + 1;
    }
  }

  /** After k blocks, a batch ends the window with its alarm, or leaves the rest of the window to do. */
  lemma BatchStep(build: Build, source: Source, start: nat, end: u64, to: u64, a: Anchor, k: nat)
    requires start <= end <= to
    ensures var all, o := Sequential(build, source, start, to, a).Plus(k), Sequential(build, source, start, end, a);
            && start + o.verified <= end + 1
            && (o.alarm.Some? ==> all == o.Plus(k))
            && (o.alarm.None? ==>
                  && start + o.verified == end + 1
                  && all == Sequential(build, source, end + 1, to, o.anchor).Plus(k + o.verified))
  {
    SplitSequential(build, source, start, end, to, a);
    SequentialEnd(build, source, start, end, a);
  }

  method BatchEnd(start: u64, to: u64) returns (end: u64)
    requires start <= to && to + FETCH_BATCH < TWO_64
    ensures start <= end <= to && (end == to || end == start + FETCH_BATCH - 1)
  {
    var next: u64 := start + FETCH_BATCH;
    end := if next - 1 < to then next - 1 else to;
  }

  /** The batch that starts at `start`: it ends the window with an alarm, or the window goes on behind it. */
  method VerifyNextBatch(build: Build, source: Source, start: u64, to: u64, state: State, passed: u64)
    returns (next: u64, verified: u64, alarm: Option<Alarm>)
    requires passed <= start <= to && to + FETCH_BATCH < TWO_64
    modifies state`lastBlock, state`lastRoot, state`proofPath, state`signatureBytes
    ensures start < next <= to + 1 && verified <= next && (alarm.None? ==> verified == passed + (next - start))
    ensures Sequential(build, source, start, to, old(state.Anchored())).Plus(passed)
            == if alarm.Some? then Outcome(state.Anchored(), verified, alarm)
               else Sequential(build, source, next, to, state.Anchored()).Plus(verified)
  {
    var end := BatchEnd(start, to);
    BatchStep(build, source, start, end, to, state.Anchored(), passed);
    var count;
    count, alarm := VerifyBatch(build, source, start, end, state);
    next, verified := end + 1, passed + count;
  }

  /** The batched loop verifies exactly what the sequential one does, in 64-bit steps. */
  method VerifyWindow(build: Build, source: Source, from: u64, to: u64, state: State)
    returns (verified: u64, alarm: Option<Alarm>)
    requires from <= to && to + FETCH_BATCH < TWO_64
    modifies state`lastBlock, state`lastRoot, state`proofPath, state`signatureBytes
    ensures Outcome(state.Anchored(), verified, alarm) == Sequential(build, source, from, to, old(state.Anchored()))
  {
    verified, alarm := 0, None;
    ghost var all := Sequential(build, source, from, to, state.Anchored());
    var batchStart: u64 := from;
    while batchStart <= to
      invariant verified == batchStart - from && batchStart <= to + 1 && alarm == None
      invariant all == Sequential(build, source, batchStart, to, state.Anchored()).Plus(verified)
      decreases 1 + to - batchStart
    {
      batchStart, verified, alarm := VerifyNextBatch(build, source, batchStart, to, state, verified);
      if alarm.Some? {
        return;
      }
    }
  }

  /** A state whose next block and next total fit 64 bits: totals count blocks 0..lastBlock. */
  predicate Resumable(s: StateFile) {
    && (s.anchor.lastBlock.Some? ==> s.anchor.lastBlock.value + 1 < TWO_64)
    && (s.verifiedTotal.Some? ==>
          s.initialized && s.anchor.lastBlock.Some? && s.verifiedTotal.value <= s.anchor.lastBlock.value + 1)
  }

  /** The stretch of blocks a run takes on; every number in it is a u64. */
  method ChooseWindow(w: Surroundings, state: State) returns (window: Window)
    requires 1 <= w.maxBlocks < TWO_64 && Resumable(state.File())
    requires w.newest.Some? ==> w.newest.value + FETCH_BATCH < TWO_64
    ensures window == WindowOf(w, state.File())
  {
    var from: u64;
    if state.initialized {
      if state.lastBlock.None? {
        return Blocked(NoLastBlock);
      }
      from := state.lastBlock.value + 1;
    } else {
      if w.initBlock.None? {
        return Blocked(NoInitBlock);
      }
      from := w.initBlock.value;
    }
    if w.newest.None? {
      return Blocked(ProbeFailed);
    }
    var newest: u64, maxBlocks: u64 := w.newest.value, w.maxBlocks;
    if newest < from {
      return CaughtUp;
    }
    var to: u64 := newest;
    var length: u64 := to - from + 1;
    if length > maxBlocks {
      var past: u64 := from + maxBlocks;
      to := past - 1;
    }
    return Verify(from, to);
  }

  /** One run, from the loaded state to the saved one; the sums it makes are u64 as well. */
  method Run(build: Build, w: Surroundings, state: State) returns (alarm: Option<Alarm>)
    requires 1 <= w.maxBlocks < TWO_64 && Resumable(state.File())
    requires w.newest.Some? ==> w.newest.value + FETCH_BATCH < TWO_64
    modifies state
    ensures (state.File(), alarm) == RunOf(build, w, old(state.File()))
  {
    var window := ChooseWindow(w, state);
    match window {
      case CaughtUp => return None;
      case Blocked(a) => return Some(a);
      case Verify(from, to) =>
        ghost var before := state.File();
        ghost var o := Sequential(build, w.source, from, to, before.anchor);
        SequentialEnd(build, w.source, from, to, before.anchor);
        var verified: u64;
        verified, alarm := VerifyWindow(build, w.source, from, to, state);
        state.Record(verified, w.today, w.now, before, o);
    }
  }

  /** The production build reads blocks as proof material and checks them with the proof module's hinTS check. */
  lemma ProductionReads(lib: Library, crypto: Crypto, blockProofs: bool, bytes: Bytes, layout: ProofLayout, root: Digest)
    ensures var build := Production(lib, crypto, blockProofs);
            && build.extract(bytes) == ExtractProofMaterial(lib, bytes) && build.blockProofs == blockProofs
            && build.hints(layout, root) == crypto.hints(layout, root)
  {
  }
}
