/** What the sentinel guarantees over any sequence of runs, and that its windows do not matter. */
module SentinelTheorems {
  import opened Common
  import opened Merkle
  import opened Material
  import opened Proof
  import opened Sentinel

  // ----- Safety over all runs ----------------------------------------------------------------

  /** A block the sentinel has passed, with what was extracted from it. */
  datatype Verified = Verified(number: nat, bytes: Bytes, material: BlockProofMaterial)

  function PassedBlock(build: Build, n: nat, bytes: Bytes): Verified
    requires build.extract(bytes).Success?
  {
    Verified(n, bytes, build.extract(bytes).value)
  }

  function Log(build: Build, source: Source, n: nat, to: u64, a: Anchor): (log: seq<Verified>)
    ensures |log| == Sequential(build, source, n, to, a).verified
    decreases 1 + to - n
  {
    if n > to || n !in source then []
    else
      match Judge(build, n, source[n], a)
      case Stop(_) => []
      case Pass(next) => [PassedBlock(build, n, source[n])] + Log(build, source, n + 1, to, next)
  }

  function RunLog(build: Build, w: Surroundings, s: StateFile): seq<Verified>
    requires w.maxBlocks >= 1
  {
    match WindowOf(w, s)
    case Verify(from, to) => Log(build, w.source, from, to, s.anchor)
    case _ => []
  }

  predicate Capped(runs: seq<Surroundings>) {
    forall i :: 0 <= i < |runs| ==> runs[i].maxBlocks >= 1
  }

  /** The state file after some runs on an uninitialized one, each with blocks, newest block, flags and failures of its own. */
  function After(build: Build, start: StateFile, runs: seq<Surroundings>): StateFile
    requires Capped(runs)
  {
    if runs == [] then start
    else RunOf(build, runs[|runs| - 1], After(build, start, runs[..|runs| - 1])).0
  }

  /** Every block passed by some runs, in the order they were passed. */
  function LogAfter(build: Build, start: StateFile, runs: seq<Surroundings>): seq<Verified>
    requires Capped(runs)
  {
    if runs == [] then []
    else
      var before := runs[..|runs| - 1];
      LogAfter(build, start, before) + RunLog(build, runs[|runs| - 1], After(build, start, before))
  }

  /** What is known of the i-th block of a log. */
  predicate GoodBlock(build: Build, log: seq<Verified>, i: nat)
    requires i < |log|
  {
    var m := log[i].material;
    && build.extract(log[i].bytes) == Success(m)
    && m.blockNumber == log[i].number == log[0].number + i
    && (i > 0 ==> m.previousBlockRoot == log[i - 1].material.blockRoot)
    && m.layout.path == log[0].material.layout.path
    && SignatureBytes(m.layout) == SignatureBytes(log[0].material.layout)
    && m.bootstrap.None?
    && (!m.layout.path.Unknown? ==> build.blockProofs && HintsPass(build, m))
  }

  predicate GoodLog(build: Build, log: seq<Verified>, a: Anchor) {
    && (forall i :: 0 <= i < |log| ==> GoodBlock(build, log, i))
    && (log == [] ==> a == BLANK)
    && (log != [] ==>
          var last := log[|log| - 1];
          && a.lastBlock == Some(last.number)
          && a.lastRoot == Some(Hex(last.material.blockRoot))
          && a.proofPath == Some(PathName(log[0].material.layout.path))
          && a.signatureBytes == Some(SignatureBytes(log[0].material.layout)))
  }

  lemma PathNamesDiffer(p: ProofPath, q: ProofPath)
    ensures PathName(p) == PathName(q) ==> p == q
    ensures PathName(AggregateSchnorr) == "aggregateSchnorr" && PathName(WrapsCompressedProof) == "wraps"
    ensures PathName(Unknown) == "unknown"
  {
    assert "aggregateSchnorr"[0] == 'a' && "wraps"[0] == 'w' && "unknown"[0] == 'u';
  }

  lemma PassExtends(build: Build, log: seq<Verified>, n: u64, bytes: Bytes, a: Anchor)
    requires GoodLog(build, log, a) && Judge(build, n, bytes, a).Pass?
    requires log != [] ==> n == log[|log| - 1].number + 1
    ensures GoodLog(build, log + [PassedBlock(build, n, bytes)], Judge(build, n, bytes, a).anchor)
  {
    var longer := log + [PassedBlock(build, n, bytes)];
    if log != [] {
      assert GoodBlock(build, log, |log| - 1);
      PathNamesDiffer(build.extract(bytes).value.layout.path, log[0].material.layout.path);
      HexIsInjective(build.extract(bytes).value.previousBlockRoot, log[|log| - 1].material.blockRoot);
    }
    forall i | 0 <= i < |longer|
      ensures GoodBlock(build, longer, i)
    {
      if i < |log| {
        assert GoodBlock(build, log, i);
      }
    }
  }

  /** No false alarm and no missed one: a readable block passes exactly if it extends a good log. */
  lemma PassesExactly(build: Build, log: seq<Verified>, n: u64, bytes: Bytes, a: Anchor)
    requires GoodLog(build, log, a) && build.extract(bytes).Success?
    requires log != [] ==> n == log[|log| - 1].number + 1
    ensures Judge(build, n, bytes, a).Pass?
            <==> GoodBlock(build, log + [PassedBlock(build, n, bytes)], |log|)
  {
    var m := build.extract(bytes).value;
    var longer := log + [PassedBlock(build, n, bytes)];
    if log != [] {
      assert GoodBlock(build, log, |log| - 1);
      PathNamesDiffer(m.layout.path, log[0].material.layout.path);
      if Hex(m.previousBlockRoot) == Hex(log[|log| - 1].material.blockRoot) {
        HexIsInjective(m.previousBlockRoot, log[|log| - 1].material.blockRoot);
      }
    }
  }

  lemma PassContinues(build: Build, source: Source, n: nat, to: u64, a: Anchor)
    requires n <= to && n in source && Judge(build, n, source[n], a).Pass?
    ensures var next := Judge(build, n, source[n], a).anchor;
            && Sequential(build, source, n, to, a).anchor == Sequential(build, source, n + 1, to, next).anchor
            && Log(build, source, n, to, a)
               == [PassedBlock(build, n, source[n])] + Log(build, source, n + 1, to, next)
  {
  }

  lemma StopEnds(build: Build, source: Source, n: nat, to: u64, a: Anchor)
    requires n <= to && n in source ==> !Judge(build, n, source[n], a).Pass?
    ensures Sequential(build, source, n, to, a).anchor == a && Log(build, source, n, to, a) == []
  {
  }

  lemma {:induction false} SequentialExtends(build: Build, log: seq<Verified>, source: Source, n: nat, to: u64, a: Anchor,
                                             longer: seq<Verified>, end: Anchor)
    requires GoodLog(build, log, a)
    requires log != [] ==> n == log[|log| - 1].number + 1
    requires longer == log + Log(build, source, n, to, a) && end == Sequential(build, source, n, to, a).anchor
    ensures GoodLog(build, longer, end)
    decreases 1 + to - n
  {
    if n <= to && n in source && Judge(build, n, source[n], a).Pass? {
      var v, next := PassedBlock(build, n, source[n]), Judge(build, n, source[n], a).anchor;
      PassExtends(build, log, n, source[n], a);
      PassContinues(build, source, n, to, a);
      Regroup(log, [v], Log(build, source, n + 1, to, next));
      SequentialExtends(build, log + [v], source, n + 1, to, next, longer, end);
    } else {
      StopEnds(build, source, n, to, a);
      assert longer == log;
    }
  }

  lemma LogStartsAt(build: Build, source: Source, n: nat, to: u64, a: Anchor)
    ensures Log(build, source, n, to, a) != [] ==> Log(build, source, n, to, a)[0].number == n
  {
  }

  /** The sentinel's promise: a gapless, root-chained, format-stable range, and a state that names its end. */
  predicate Safe(build: Build, log: seq<Verified>, s: StateFile) {
    && GoodLog(build, log, s.anchor)
    && s.initialized == (log != [])
    && s.verifiedTotal == (if log == [] then None else Some(|log|))
    && s.since.Some? == (log != [])
  }

  lemma PersistKeepsSafe(build: Build, log: seq<Verified>, more: seq<Verified>, s: StateFile, o: Outcome, today: string, now: string)
    requires Safe(build, log, s) && GoodLog(build, log + more, o.anchor) && o.verified == |more|
    ensures Safe(build, log + more, Persist(s, o, today, now))
    ensures Persist(s, o, today, now).since == if log == [] && more != [] then Some(today) else s.since
  {
  }

  lemma RunKeepsSafe(build: Build, w: Surroundings, log: seq<Verified>, s: StateFile)
    requires w.maxBlocks >= 1 && Safe(build, log, s)
    ensures Safe(build, log + RunLog(build, w, s), RunOf(build, w, s).0)
    ensures log == [] && RunLog(build, w, s) != [] ==>
              w.initBlock == Some(RunLog(build, w, s)[0].number) && RunOf(build, w, s).0.since == Some(w.today)
    ensures log != [] ==> RunOf(build, w, s).0.since == s.since
  {
    if WindowOf(w, s).Verify? {
      var Verify(from, to) := WindowOf(w, s);
      var more := Log(build, w.source, from, to, s.anchor);
      var o := Sequential(build, w.source, from, to, s.anchor);
      SequentialExtends(build, log, w.source, from, to, s.anchor, log + more, o.anchor);
      LogStartsAt(build, w.source, from, to, s.anchor);
      PersistKeepsSafe(build, log, more, s, o, w.today, w.now);
    } else {
      assert log + RunLog(build, w, s) == log;
    }
  }

  /** The run that verified the first block began at its own init block and dated the state. */
  predicate Began(w: Surroundings, log: seq<Verified>, s: StateFile) {
    log != [] && w.initBlock == Some(log[0].number) && s.since == Some(w.today)
  }

  /** Whatever the runs and their failures, the state and the blocks passed so far are safe. */
  lemma {:induction false} SafeAfterAnyRuns(build: Build, start: StateFile, runs: seq<Surroundings>)
    requires Capped(runs) && start.Uninitialized()
    ensures Safe(build, LogAfter(build, start, runs), After(build, start, runs))
    ensures LogAfter(build, start, runs) != [] ==>
              exists i :: 0 <= i < |runs| && Began(runs[i], LogAfter(build, start, runs), After(build, start, runs))
  {
    if runs != [] {
      var before, w := runs[..|runs| - 1], runs[|runs| - 1];
      SafeAfterAnyRuns(build, start, before);
      RunKeepsSafe(build, w, LogAfter(build, start, before), After(build, start, before));
      if LogAfter(build, start, before) != [] {
        var i :| 0 <= i < |before| && Began(before[i], LogAfter(build, start, before), After(build, start, before));
        assert Began(runs[i], LogAfter(build, start, runs), After(build, start, runs));
      } else if RunLog(build, w, After(build, start, before)) != [] {
        assert Began(runs[|runs| - 1], LogAfter(build, start, runs), After(build, start, runs));
      }
    }
  }

  // ----- How a run ends ----------------------------------------------------------------------

  /** In which way block n does not extend a verified range, in the order the reasons are tried. */
  predicate Fails(build: Build, source: Source, log: seq<Verified>, n: nat, alarm: Alarm) {
    if n !in source then alarm == Gap(n)
    else
      match build.extract(source[n])
      case Failure(_) => alarm == Unreadable(n)
      case Success(m) =>
        var first := if log == [] then m.layout else log[0].material.layout;
        var known := m.layout.path == AggregateSchnorr || m.layout.path == WrapsCompressedProof;
        if m.blockNumber != n then alarm == SequenceBreak(n)
        else if log != [] && m.previousBlockRoot != log[|log| - 1].material.blockRoot then alarm == RootChainBreak(n)
        else if m.layout.path != first.path then alarm == ProofFormatChanged(n)
        else if |m.layout.hintsVerificationKey| + |m.layout.hintsSignature| + |m.layout.suffix|
                != |first.hintsVerificationKey| + |first.hintsSignature| + |first.suffix|
        then alarm == SignatureLayoutChanged(n)
        else if m.bootstrap != None then alarm == LedgerIdPublication(n)
        else if known && !build.blockProofs then alarm == ProofStackMissing(n)
        else
          && known && alarm == HintsInvalid(n)
          && (match build.hints(m.layout, m.blockRoot) case None => true case Some(checks) => !checks.AllPassed())
  }

  /** Blocks of the source, from `first` on, that extend a verified range one after the other. */
  predicate Extends(build: Build, source: Source, log: seq<Verified>, first: nat, more: seq<Verified>) {
    forall i :: 0 <= i < |more| ==> IsEntry(source, first, more, i) && GoodBlock(build, log + more, |log| + i)
  }

  lemma {:induction false} LogEntries(build: Build, source: Source, n: nat, to: u64, a: Anchor, i: nat)
    requires i < |Log(build, source, n, to, a)|
    ensures n + i in source
    ensures var v := Log(build, source, n, to, a)[i]; v.number == n + i && v.bytes == source[n + i]
    decreases i
  {
    if i > 0 {
      LogEntries(build, source, n + 1, to, Judge(build, n, source[n], a).anchor, i - 1);
    }
  }

  lemma StopFails(build: Build, source: Source, log: seq<Verified>, n: u64, a: Anchor)
    requires GoodLog(build, log, a) && (log != [] ==> n == log[|log| - 1].number + 1)
    requires n in source ==> Judge(build, n, source[n], a).Stop?
    ensures Fails(build, source, log, n, if n in source then Judge(build, n, source[n], a).alarm else Gap(n))
  {
    if n in source && build.extract(source[n]).Success? && log != [] {
      var m, last := build.extract(source[n]).value, log[|log| - 1].material;
      assert GoodBlock(build, log, |log| - 1);
      PathNamesDiffer(m.layout.path, log[0].material.layout.path);
      if Hex(m.previousBlockRoot) == Hex(last.blockRoot) {
        HexIsInjective(m.previousBlockRoot, last.blockRoot);
      }
    }
  }

  lemma {:induction false} AlarmFails(build: Build, log: seq<Verified>, source: Source, n: nat, to: u64, a: Anchor,
                                      longer: seq<Verified>, at: nat, alarm: Alarm)
    requires GoodLog(build, log, a) && (log != [] ==> n == log[|log| - 1].number + 1)
    requires Sequential(build, source, n, to, a).alarm == Some(alarm)
    requires longer == log + Log(build, source, n, to, a) && at == n + Sequential(build, source, n, to, a).verified
    ensures Fails(build, source, longer, at, alarm)
    decreases 1 + to - n
  {
    if n in source && Judge(build, n, source[n], a).Pass? {
      var v, next := PassedBlock(build, n, source[n]), Judge(build, n, source[n], a).anchor;
      PassExtends(build, log, n, source[n], a);
      PassContinues(build, source, n, to, a);
      Regroup(log, [v], Log(build, source, n + 1, to, next));
      AlarmFails(build, log + [v], source, n + 1, to, next, longer, at, alarm);
    } else {
      StopEnds(build, source, n, to, a);
      assert longer == log;
      StopFails(build, source, log, n, a);
    }
  }

  /** A block that fails is not among blocks that extend the range. */
  lemma FailsOrExtends(build: Build, source: Source, log: seq<Verified>, first: nat, more: seq<Verified>, k: nat, alarm: Alarm)
    requires Extends(build, source, log, first, more) && k < |more|
    ensures !Fails(build, source, log + more[..k], first + k, alarm)
  {
    var longer, all, m := log + more[..k], log + more, more[k].material;
    assert IsEntry(source, first, more, k);
    assert GoodBlock(build, all, |log| + k) && all[|log| + k] == more[k];
    if longer != [] {
      assert longer[0] == all[0] && longer[|longer| - 1] == all[|log| + k - 1];
    } else {
      assert all[0] == more[0];
    }
  }

  /** Blocks that extend a range are what the source holds, so two such lists agree as far as both go. */
  lemma ExtensionIsUnique(build: Build, source: Source, log: seq<Verified>, first: nat, a: seq<Verified>, b: seq<Verified>)
    requires Extends(build, source, log, first, a) && Extends(build, source, log, first, b) && |a| <= |b|
    ensures a == b[..|a|]
  {
    forall i | 0 <= i < |a| ensures a[i] == b[i] {
      assert IsEntry(source, first, a, i) && IsEntry(source, first, b, i);
      assert GoodBlock(build, log + a, |log| + i) && (log + a)[|log| + i] == a[i];
      assert GoodBlock(build, log + b, |log| + i) && (log + b)[|log| + i] == b[i];
    }
  }

  /** The first block a run takes on, and the last. */
  function FirstBlock(w: Surroundings, log: seq<Verified>): nat
    requires log != [] || w.initBlock.Some?
  {
    if log != [] then log[|log| - 1].number + 1 else w.initBlock.value
  }

  function EndBlock(w: Surroundings, first: nat): nat
    requires w.maxBlocks >= 1 && w.newest.Some?
  {
    if w.newest.value <= first + w.maxBlocks - 1 then w.newest.value else first + w.maxBlocks - 1
  }

  lemma WindowIs(build: Build, w: Surroundings, log: seq<Verified>, s: StateFile)
    requires w.maxBlocks >= 1 && Safe(build, log, s) && (log != [] || w.initBlock.Some?)
    requires w.newest.Some? && FirstBlock(w, log) <= w.newest.value
    ensures WindowOf(w, s) == Verify(FirstBlock(w, log), EndBlock(w, FirstBlock(w, log)))
  {
  }

  lemma LogExtends(build: Build, source: Source, log: seq<Verified>, n: nat, to: u64, a: Anchor, more: seq<Verified>)
    requires GoodLog(build, log, a) && (log != [] ==> n == log[|log| - 1].number + 1)
    requires more == Log(build, source, n, to, a)
    ensures Extends(build, source, log, n, more)
  {
    var longer, end := log + more, Sequential(build, source, n, to, a).anchor;
    SequentialExtends(build, log, source, n, to, a, longer, end);
    forall i | 0 <= i < |more| ensures IsEntry(source, n, more, i) {
      LogEntries(build, source, n, to, a, i);
    }
    GoodExtends(build, source, log, n, more, end);
  }

  predicate IsEntry(source: Source, first: nat, more: seq<Verified>, i: nat)
    requires i < |more|
  {
    first + i in source && more[i].number == first + i && more[i].bytes == source[first + i]
  }

  lemma GoodExtends(build: Build, source: Source, log: seq<Verified>, first: nat, more: seq<Verified>, end: Anchor)
    requires GoodLog(build, log + more, end)
    requires forall i :: 0 <= i < |more| ==> IsEntry(source, first, more, i)
    ensures Extends(build, source, log, first, more)
  {
  }

  /** What became of a run over the blocks first..end: how many extended the range, and what stopped it if not all. */
  predicate EndsWith(build: Build, w: Surroundings, log: seq<Verified>, first: nat, end: nat, more: seq<Verified>,
                     s: StateFile, after: StateFile, alarm: Option<Alarm>)
  {
    && Extends(build, w.source, log, first, more) && first + |more| <= end + 1
    && (match alarm
        case None => first + |more| == end + 1
        case Some(a) => first + |more| <= end && Fails(build, w.source, log + more, first + |more|, a))
    && after.anchor.lastBlock == (if more == [] then s.anchor.lastBlock else Some(first + |more| - 1))
    && after.checked == Some(w.now) && after.comment == s.comment
  }

  /**
   * How a run that takes on blocks ends. Without an alarm exactly when every block of its window, up to the
   * newest or as many as it may, is there and extends the range; the last block is then the window's end.
   * Otherwise the alarm names the first block that does not, and says in which way.
   */
  lemma RunOutcome(build: Build, w: Surroundings, log: seq<Verified>, s: StateFile) returns (more: seq<Verified>)
    requires w.maxBlocks >= 1 && Safe(build, log, s) && (log != [] || w.initBlock.Some?)
    requires w.newest.Some? && FirstBlock(w, log) <= w.newest.value
    ensures var (first, (after, alarm)) := (FirstBlock(w, log), RunOf(build, w, s));
            var end := EndBlock(w, first);
            && EndsWith(build, w, log, first, end, more, s, after, alarm)
            && (alarm == None <==> exists all :: Extends(build, w.source, log, first, all) && |all| == end - first + 1)
  {
    WindowIs(build, w, log, s);
    var first := FirstBlock(w, log);
    var end: u64 := EndBlock(w, first);
    var (after, alarm) := RunOf(build, w, s);
    more := SequentialOutcome(build, w, log, first, end, s, after, alarm);
    AllOrAlarm(build, w.source, log, first, end, more, alarm);
  }

  lemma SequentialOutcome(build: Build, w: Surroundings, log: seq<Verified>, first: nat, end: u64, s: StateFile,
                          after: StateFile, alarm: Option<Alarm>)
    returns (more: seq<Verified>)
    requires w.maxBlocks >= 1 && Safe(build, log, s) && (log != [] ==> first == log[|log| - 1].number + 1)
    requires WindowOf(w, s) == Verify(first, end) && first <= end && (after, alarm) == RunOf(build, w, s)
    ensures EndsWith(build, w, log, first, end, more, s, after, alarm)
  {
    var o := Sequential(build, w.source, first, end, s.anchor);
    more := Log(build, w.source, first, end, s.anchor);
    LogExtends(build, w.source, log, first, end, s.anchor, more);
    SequentialEnd(build, w.source, first, end, s.anchor);
    if o.alarm.Some? {
      AlarmFails(build, log, w.source, first, end, s.anchor, log + more, first + |more|, o.alarm.value);
    }
    PersistedOutcome(build, w, log, first, end, s, o, more, after, alarm);
  }

  lemma PersistedOutcome(build: Build, w: Surroundings, log: seq<Verified>, first: nat, end: nat, s: StateFile, o: Outcome,
                         more: seq<Verified>, after: StateFile, alarm: Option<Alarm>)
    requires after == Persist(s, o, w.today, w.now) && alarm == o.alarm
    requires Extends(build, w.source, log, first, more) && o.verified == |more| && first + |more| <= end + 1
    requires o.alarm == None ==> first + |more| == end + 1
    requires o.alarm != None ==> first + |more| <= end && Fails(build, w.source, log + more, first + |more|, o.alarm.value)
    requires if more == [] then o.anchor == s.anchor else o.anchor.lastBlock == Some(first + |more| - 1)
    ensures EndsWith(build, w, log, first, end, more, s, after, alarm)
  {
  }

  /** A whole window extends the range if and only if nothing failed in it. */
  lemma AllOrAlarm(build: Build, source: Source, log: seq<Verified>, first: nat, end: nat, more: seq<Verified>, alarm: Option<Alarm>)
    requires Extends(build, source, log, first, more)
    requires alarm == None ==> first + |more| == end + 1
    requires alarm != None ==> first + |more| <= end && Fails(build, source, log + more, first + |more|, alarm.value)
    ensures alarm == None <==> exists all :: Extends(build, source, log, first, all) && |all| == end - first + 1
  {
    if alarm != None {
      forall all | Extends(build, source, log, first, all) && |all| == end - first + 1 ensures false {
        ExtensionIsUnique(build, source, log, first, more, all);
        FailsOrExtends(build, source, log, first, all, |more|, alarm.value);
      }
    }
  }

  /** A run that takes on no blocks leaves the file alone, and says why unless it is merely caught up. */
  lemma IdleRun(build: Build, w: Surroundings, log: seq<Verified>, s: StateFile)
    requires w.maxBlocks >= 1 && Safe(build, log, s)
    ensures log == [] && w.initBlock == None ==> RunOf(build, w, s) == (s, Some(NoInitBlock))
    ensures (log != [] || w.initBlock != None) && w.newest == None ==> RunOf(build, w, s) == (s, Some(ProbeFailed))
    ensures (log != [] || w.initBlock != None) && w.newest != None && w.newest.value < FirstBlock(w, log) ==>
              RunOf(build, w, s) == (s, None)
  {
  }

  /** All of this at any point of any sequence of runs. */
  lemma AnyRunOutcome(build: Build, start: StateFile, runs: seq<Surroundings>, w: Surroundings) returns (more: seq<Verified>)
    requires Capped(runs) && start.Uninitialized() && w.maxBlocks >= 1
    requires LogAfter(build, start, runs) != [] || w.initBlock.Some?
    requires w.newest.Some? && FirstBlock(w, LogAfter(build, start, runs)) <= w.newest.value
    ensures var (log, s) := (LogAfter(build, start, runs), After(build, start, runs));
            var (first, (after, alarm)) := (FirstBlock(w, log), RunOf(build, w, s));
            var end := EndBlock(w, first);
            && EndsWith(build, w, log, first, end, more, s, after, alarm)
            && (alarm == None <==> exists all :: Extends(build, w.source, log, first, all) && |all| == end - first + 1)
  {
    SafeAfterAnyRuns(build, start, runs);
    more := RunOutcome(build, w, LogAfter(build, start, runs), After(build, start, runs));
  }

  predicate InRange(runs: seq<Surroundings>) {
    forall i :: 0 <= i < |runs| ==> runs[i].newest.Some? ==> runs[i].newest.value + FETCH_BATCH < TWO_64
  }

  lemma LastBlockIsNoNewer(build: Build, w: Surroundings, s: StateFile)
    requires w.maxBlocks >= 1
    ensures var last := RunOf(build, w, s).0.anchor.lastBlock;
            last.Some? ==> last == s.anchor.lastBlock || (w.newest.Some? && last.value <= w.newest.value)
  {
    if WindowOf(w, s).Verify? {
      var Verify(from, to) := WindowOf(w, s);
      SequentialEnd(build, w.source, from, to, s.anchor);
    }
  }

  lemma {:induction false} LastBlockInRange(build: Build, start: StateFile, runs: seq<Surroundings>)
    requires Capped(runs) && start.Uninitialized() && InRange(runs)
    ensures var last := After(build, start, runs).anchor.lastBlock; last.Some? ==> last.value + FETCH_BATCH < TWO_64
  {
    if runs != [] {
      var before := runs[..|runs| - 1];
      LastBlockInRange(build, start, before);
      LastBlockIsNoNewer(build, runs[|runs| - 1], After(build, start, before));
    }
  }

  /** Every reachable state leaves room, in 64 bits, for the next run's numbers: what `Run` asks for. */
  lemma ReachableIsResumable(build: Build, start: StateFile, runs: seq<Surroundings>)
    requires Capped(runs) && start.Uninitialized() && InRange(runs)
    ensures Resumable(After(build, start, runs))
  {
    SafeAfterAnyRuns(build, start, runs);
    LastBlockInRange(build, start, runs);
    var log := LogAfter(build, start, runs);
    if log != [] {
      assert GoodBlock(build, log, |log| - 1);
    }
  }

  /** A build whose signatures are as long as buffers can be. */
  ghost predicate BoundedSignatures(build: Build) {
    forall bytes :: build.extract(bytes).Success? ==> SignatureBytes(build.extract(bytes).value.layout) < TWO_63
  }

  lemma ProductionIsBounded(lib: Library, crypto: Crypto, blockProofs: bool)
    ensures BoundedSignatures(Production(lib, crypto, blockProofs))
  {
    forall bytes | ExtractProofMaterial(lib, bytes).Success?
      ensures SignatureBytes(ExtractProofMaterial(lib, bytes).value.layout) < TWO_63
    {
      var signature := ScannedFrom(lib, bytes).value.blockSignature.value;
      assert |ClassifyLayout(signature).hintsVerificationKey + ClassifyLayout(signature).hintsSignature
              + ClassifyLayout(signature).suffix| == |signature|;
    }
  }

  /** Every reachable state is what the next run loads from the file the last one saved. */
  lemma ReachableIsLoadedBack(build: Build, start: StateFile, runs: seq<Surroundings>)
    requires Capped(runs) && start.Uninitialized() && InRange(runs) && BoundedSignatures(build)
    ensures var s := After(build, start, runs); s.Storable() && FileOf(JsonOf(s)) == s
  {
    SafeAfterAnyRuns(build, start, runs);
    ReachableIsResumable(build, start, runs);
    var log := LogAfter(build, start, runs);
    if log != [] {
      assert GoodBlock(build, log, 0);
    }
    SaveThenLoad(After(build, start, runs));
  }

  // ----- Blocks without a known suffix -------------------------------------------------------

  /** Only known suffixes have a signature to check: a block of another layout passes though every hinTS check fails. */
  lemma UnknownSuffixPasses(number: u64, root: Digest)
    ensures var material := BlockProofMaterial(number, root, [], ClassifyLayout([]), None);
            var build := Build(_ => Success(material), (_, _) => None, true);
            !HintsPass(build, material) && Judge(build, number, [], BLANK).Pass?
  {
  }

  // ----- Windows do not matter ---------------------------------------------------------------

  /** A block that failed fails again, under any later bound, and nothing else happens. */
  lemma {:induction false} FailsAgain(build: Build, source: Source, n: nat, to: u64, later: u64, a: Anchor)
    requires Sequential(build, source, n, to, a).alarm.Some?
    requires n + Sequential(build, source, n, to, a).verified <= later
    ensures var o := Sequential(build, source, n, to, a);
            Sequential(build, source, n + o.verified, later, o.anchor) == Outcome(o.anchor, 0, o.alarm)
    decreases 1 + to - n
  {
    if n in source && Judge(build, n, source[n], a).Pass? {
      FailsAgain(build, source, n + 1, to, later, Judge(build, n, source[n], a).anchor);
    }
  }

  /** The two files differ at most in when they were last checked. */
  predicate SameButChecked(s: StateFile, t: StateFile) {
    s == t.(checked := s.checked)
  }

  /** A second run after an alarm hits the same alarm and changes only the time of the check. */
  lemma RetryRun(build: Build, w: Surroundings, from: nat, to: u64, s: StateFile, later: Surroundings)
    requires w.maxBlocks >= 1 && later.maxBlocks >= 1 && WindowOf(w, s) == Verify(from, to)
    requires later.source == w.source && later.newest == w.newest && later.initBlock == w.initBlock
    requires Sequential(build, w.source, from, to, s.anchor).alarm.Some?
    ensures var (s1, alarm) := RunOf(build, w, s);
            SameButChecked(RunOf(build, later, s1).0, s1) && RunOf(build, later, s1).1 == alarm
  {
    var o := Sequential(build, w.source, from, to, s.anchor);
    SequentialEnd(build, w.source, from, to, s.anchor);
    var s1 := RunOf(build, w, s).0;
    assert First(w.initBlock, s1) == Some(from + o.verified);
    FailsAgain(build, w.source, from, to, WindowOf(later, s1).to, s.anchor);
  }

  /** A clean run reaches the end of its window, and the next one starts right after it. */
  lemma CleanRun(build: Build, w: Surroundings, from: nat, to: u64, s: StateFile)
    requires w.maxBlocks >= 1 && WindowOf(w, s) == Verify(from, to)
    requires Sequential(build, w.source, from, to, s.anchor).alarm.None?
    ensures First(w.initBlock, RunOf(build, w, s).0) == Some(to + 1)
  {
    SequentialEnd(build, w.source, from, to, s.anchor);
  }

  /**
   * On a fixed source and newest block, a run capped at a and then one capped at b leave the state
   * and the alarm that one run capped at a + b would, wherever a failure falls.
   */
  lemma WindowIndependence(build: Build, w: Surroundings, a: nat, b: nat, later: string, s: StateFile)
    requires a >= 1 && b >= 1
    ensures var (s1, _) := RunOf(build, w.(maxBlocks := a), s);
            var (s2, alarm2) := RunOf(build, w.(maxBlocks := b, today := later, now := later), s1);
            var (s12, alarm12) := RunOf(build, w.(maxBlocks := a + b), s);
            SameButChecked(s2, s12) && alarm2 == alarm12
  {
    var wa, wb, wab := w.(maxBlocks := a), w.(maxBlocks := b, today := later, now := later), w.(maxBlocks := a + b);
    if WindowOf(wa, s).Verify? {
      var Verify(from, to) := WindowOf(wa, s);
      var Verify(_, end) := WindowOf(wab, s);
      SplitSequential(build, w.source, from, to, end, s.anchor);
      if Sequential(build, w.source, from, to, s.anchor).alarm.Some? {
        RetryRun(build, wa, from, to, s, wb);
      } else {
        CleanThenMore(build, w, a, b, later, s);
      }
    }
  }

  lemma CleanThenMore(build: Build, w: Surroundings, a: nat, b: nat, later: string, s: StateFile)
    requires a >= 1 && b >= 1 && WindowOf(w.(maxBlocks := a), s).Verify?
    requires var Verify(from, to) := WindowOf(w.(maxBlocks := a), s);
             Sequential(build, w.source, from, to, s.anchor).alarm.None?
    ensures var (s1, _) := RunOf(build, w.(maxBlocks := a), s);
            var (s2, alarm2) := RunOf(build, w.(maxBlocks := b, today := later, now := later), s1);
            var (s12, alarm12) := RunOf(build, w.(maxBlocks := a + b), s);
            SameButChecked(s2, s12) && alarm2 == alarm12
  {
    var wa, wb, wab := w.(maxBlocks := a), w.(maxBlocks := b, today := later, now := later), w.(maxBlocks := a + b);
    var Verify(from, to) := WindowOf(wa, s);
    var Verify(_, end) := WindowOf(wab, s);
    SplitSequential(build, w.source, from, to, end, s.anchor);
    SequentialEnd(build, w.source, from, to, s.anchor);
    CleanRun(build, wa, from, to, s);
    var o, s1 := Sequential(build, w.source, from, to, s.anchor), RunOf(build, wa, s).0;
    if to < end {
      var o2 := Sequential(build, w.source, to + 1, end, o.anchor);
      SequentialEnd(build, w.source, to + 1, end, o.anchor);
      assert WindowOf(wb, s1) == Verify(to + 1, end);
      PersistTwice(s, o, o2, w.today, w.now, later);
    } else {
      assert WindowOf(wb, s1) == CaughtUp;
    }
  }

  /** Persisting two stretches one after the other is persisting them as one. */
  lemma PersistTwice(s: StateFile, o: Outcome, o2: Outcome, today: string, now: string, later: string)
    requires o.verified > 0 && (o2.verified == 0 ==> o2.anchor == o.anchor)
    ensures SameButChecked(Persist(Persist(s, o, today, now), o2, later, later), Persist(s, o2.Plus(o.verified), today, now))
  {
  }
}
