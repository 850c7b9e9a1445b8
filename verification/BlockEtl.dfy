/** The block-era pipeline: blocks sorted by number, chain-checked, and split into day partitions. */
module BlockEtl {
  import opened Common
  import opened Sorting
  import opened Groups
  import opened ThreadedParse
  import opened Transactions
  import opened Material

  datatype BlockFile = BlockFile(name: string, info: BlockChainInfo, transactions: seq<Transaction>)

  datatype Failed =
    | ParseFailed(name: string)
    | BlockGap(prev: string, next: string)
    | ChainBroken(prev: string, next: string)

  datatype Outcome = Done(totalTransactions: nat) | Stopped(failed: Failed)

  // ----- The chain check ---------------------------------------------------------------------

  predicate ByNumber(a: BlockFile, b: BlockFile) {
    a.info.blockNumber <= b.info.blockNumber
  }

  /** A successor's number is one more, without overflow, and its footer names the root before it. */
  predicate Linked(prev: BlockFile, next: BlockFile) {
    next.info.blockNumber == prev.info.blockNumber + 1 && next.info.previousBlockRoot == prev.info.blockRoot
  }

  predicate Chained(blocks: seq<BlockFile>) {
    forall i :: 0 < i < |blocks| ==> Linked(blocks[i - 1], blocks[i])
  }

  /** What `--verify-chain` accepts. */
  predicate Accepted(blocks: seq<BlockFile>) {
    Chained(Sort(ByNumber, blocks))
  }

  /** The i-th block is the first that does not follow its predecessor, and that is how it is reported. */
  predicate FirstBreak(blocks: seq<BlockFile>, i: nat, failed: Failed) {
    && 0 < i < |blocks| && Chained(blocks[..i]) && !Linked(blocks[i - 1], blocks[i])
    && failed == if blocks[i].info.blockNumber != blocks[i - 1].info.blockNumber + 1
                 then BlockGap(blocks[i - 1].name, blocks[i].name)
                 else ChainBroken(blocks[i - 1].name, blocks[i].name)
  }

  method CheckChain(blocks: seq<BlockFile>) returns (failed: Option<Failed>)
    ensures failed.None? <==> Chained(blocks)
    ensures failed.Some? ==> exists i: nat :: FirstBreak(blocks, i, failed.value)
  {
    var i := 1;
    while i < |blocks|
      invariant 1 <= i && (i <= |blocks| || blocks == [])
      invariant forall j :: 0 < j < i && j < |blocks| ==> Linked(blocks[j - 1], blocks[j])
    {
      var prev, next := blocks[i - 1], blocks[i];
      if prev.info.blockNumber == TWO_64 - 1 || next.info.blockNumber != prev.info.blockNumber + 1 {  // checked_add
        assert FirstBreak(blocks, i, BlockGap(prev.name, next.name));
        return Some(BlockGap(prev.name, next.name));
      }
      if next.info.previousBlockRoot != prev.info.blockRoot {
        assert FirstBreak(blocks, i, ChainBroken(prev.name, next.name));
        return Some(ChainBroken(prev.name, next.name));
      }
      i := i + 1;
    }
    return None;
  }

  lemma ByNumberIsTotalPreorder()
    ensures TotalPreorder(ByNumber)
  {
  }

  /** Chained blocks carry consecutive numbers. */
  lemma {:induction false} ChainedNumbers(blocks: seq<BlockFile>, i: nat)
    requires Chained(blocks) && i < |blocks|
    ensures blocks[i].info.blockNumber == blocks[0].info.blockNumber + i
  {
    if i > 0 {
      ChainedNumbers(blocks, i - 1);
      assert Linked(blocks[i - 1], blocks[i]);
    }
  }

  lemma LastInBoth(s: seq<BlockFile>, p: seq<BlockFile>)
    requires multiset(s) == multiset(p) && SortedBy(ByNumber, s) && Chained(p) && s != [] && p != []
    ensures s[|s| - 1] == p[|p| - 1]
  {
    var i := Member(s, p, |s| - 1);
    var j := Member(p, s, |p| - 1);
    ChainedNumbers(p, i);
    ChainedNumbers(p, |p| - 1);
    assert j < |s| - 1 ==> ByNumber(s[j], s[|s| - 1]);
  }

  /** A chained arrangement is the only sorted one. */
  lemma {:induction false} ChainedIsTheSort(s: seq<BlockFile>, p: seq<BlockFile>)
    requires multiset(s) == multiset(p) && SortedBy(ByNumber, s) && Chained(p)
    ensures s == p
    decreases |s|
  {
    SameSize(s, p);
    if s != [] {
      LastInBoth(s, p);
      DropLasts(s, p);
      ChainedIsTheSort(s[..|s| - 1], p[..|p| - 1]);
      assert s == s[..|s| - 1] + [s[|s| - 1]] && p == p[..|p| - 1] + [p[|p| - 1]];
    }
  }

  /** Numbers that go up by one and footers that name the root before, from block to block. */
  predicate IsChain(p: seq<BlockFile>) {
    forall i :: 0 <= i < |p| - 1 ==>
      && p[i + 1].info.blockNumber == p[i].info.blockNumber + 1
      && p[i + 1].info.previousBlockRoot == p[i].info.blockRoot
  }

  lemma ChainIs(p: seq<BlockFile>)
    ensures IsChain(p) <==> Chained(p)
  {
    if IsChain(p) {
      forall i | 0 < i < |p| ensures Linked(p[i - 1], p[i]) {
        assert p[i - 1 + 1].info.blockNumber == p[i - 1].info.blockNumber + 1;
      }
    }
    if Chained(p) {
      forall i | 0 <= i < |p| - 1
        ensures p[i + 1].info.blockNumber == p[i].info.blockNumber + 1
        ensures p[i + 1].info.previousBlockRoot == p[i].info.blockRoot
      {
        assert Linked(p[i + 1 - 1], p[i + 1]);
      }
    }
  }

  /** What a refused set is reported with: the first block, by number, that does not follow its predecessor. */
  lemma BreakMeans(blocks: seq<BlockFile>, i: nat, failed: Failed)
    requires FirstBreak(blocks, i, failed)
    ensures 0 < i < |blocks| && IsChain(blocks[..i])
    ensures blocks[i].info.blockNumber != blocks[i - 1].info.blockNumber + 1 ==>
              failed == BlockGap(blocks[i - 1].name, blocks[i].name)
    ensures blocks[i].info.blockNumber == blocks[i - 1].info.blockNumber + 1 ==>
              && blocks[i].info.previousBlockRoot != blocks[i - 1].info.blockRoot
              && failed == ChainBroken(blocks[i - 1].name, blocks[i].name)
  {
    ChainIs(blocks[..i]);
  }

  /** Acceptance asks only whether the blocks can be arranged into one gapless, root-linked chain. */
  lemma AcceptedExactly(blocks: seq<BlockFile>)
    ensures Accepted(blocks) <==> exists p :: multiset(p) == multiset(blocks) && IsChain(p)
  {
    forall p: seq<BlockFile> ensures IsChain(p) <==> Chained(p) {
      ChainIs(p);
    }
    SortKeeps(ByNumber, blocks);
    ByNumberIsTotalPreorder();
    SortSorts(ByNumber, blocks);
    if p :| multiset(p) == multiset(blocks) && Chained(p) {
      ChainedIsTheSort(Sort(ByNumber, blocks), p);
    }
  }

  /** The order files were read in does not matter, and an accepted set has one sorted arrangement. */
  lemma OrderIndependence(a: seq<BlockFile>, b: seq<BlockFile>)
    requires multiset(a) == multiset(b)
    ensures Accepted(a) <==> Accepted(b)
    ensures Accepted(a) ==> Sort(ByNumber, a) == Sort(ByNumber, b)
  {
    AcceptedExactly(a);
    AcceptedExactly(b);
    SortKeeps(ByNumber, a);
    SortKeeps(ByNumber, b);
    ByNumberIsTotalPreorder();
    SortSorts(ByNumber, b);
    if Accepted(a) {
      ChainedIsTheSort(Sort(ByNumber, b), Sort(ByNumber, a));
    }
  }

  lemma OccursOnce(p: seq<BlockFile>, k: nat)
    requires Chained(p) && k < |p|
    ensures multiset(p)[p[k]] == 1
  {
    var x, front, back := p[k], p[..k], p[k + 1..];
    SplitAt(p, k);
    ChainedNumbers(p, k);
    assert x !in front by {
      if x in front {
        var i :| 0 <= i < k && p[i] == x;
        ChainedNumbers(p, i);
      }
    }
    assert x !in back by {
      if x in back {
        var i :| 0 <= i < |back| && back[i] == x;
        ChainedNumbers(p, k + 1 + i);
      }
    }
    assert multiset(p) == multiset(front) + multiset{x} + multiset(back);
  }

  predicate HasNumber(blocks: seq<BlockFile>, n: int) {
    exists i :: 0 <= i < |blocks| && blocks[i].info.blockNumber == n
  }

  /** Accepted blocks fill a range of numbers exactly: no number is missing and none occurs twice. */
  lemma AcceptedFillsARange(blocks: seq<BlockFile>) returns (first: nat)
    requires Accepted(blocks)
    ensures forall i :: 0 <= i < |blocks| ==> first <= blocks[i].info.blockNumber < first + |blocks|
    ensures forall n :: first <= n < first + |blocks| ==> HasNumber(blocks, n)
    ensures forall i, j :: 0 <= i < j < |blocks| ==> blocks[i].info.blockNumber != blocks[j].info.blockNumber
  {
    var p := Sort(ByNumber, blocks);
    SortKeeps(ByNumber, blocks);
    first := if p == [] then 0 else p[0].info.blockNumber;
    forall i | 0 <= i < |blocks|
      ensures first <= blocks[i].info.blockNumber < first + |blocks|
    {
      var k := Member(blocks, p, i);
      ChainedNumbers(p, k);
    }
    forall n | first <= n < first + |blocks|
      ensures HasNumber(blocks, n)
    {
      ChainedNumbers(p, n - first);
      var i := Member(p, blocks, n - first);
    }
    forall i, j | 0 <= i < j < |blocks|
      ensures blocks[i].info.blockNumber != blocks[j].info.blockNumber
    {
      DifferentNumbers(blocks, p, i, j);
    }
  }

  lemma DifferentNumbers(blocks: seq<BlockFile>, p: seq<BlockFile>, i: nat, j: nat)
    requires multiset(p) == multiset(blocks) && Chained(p) && i < j < |blocks|
    ensures blocks[i].info.blockNumber != blocks[j].info.blockNumber
  {
    var k := Member(blocks, p, i);
    var l := Member(blocks, p, j);
    ChainedNumbers(p, k);
    ChainedNumbers(p, l);
    OccursOnce(p, k);
    if blocks[i] == blocks[j] {
      TwiceIn(blocks, i, j);
    }
  }

  // ----- Day partitions ----------------------------------------------------------------------

  function Carried(block: BlockFile): seq<Transaction> {
    block.transactions
  }

  function AllTransactions(blocks: seq<BlockFile>): seq<Transaction> {
    Gather(Carried, blocks)
  }

  function DayOf(tx: Transaction): string {
    tx.day
  }

  /** The groups hold some transactions, each day's in their order. */
  ghost predicate GroupsOf(days: seq<Group<Transaction>>, txs: seq<Transaction>) {
    && Grouped(DayOf, days)
    && multiset(AllItems(days)) == multiset(txs)
    && forall day :: OfKey(DayOf, AllItems(days), day) == OfKey(DayOf, txs, day)
  }

  lemma PushTransaction(days: seq<Group<Transaction>>, txs: seq<Transaction>, tx: Transaction)
    requires GroupsOf(days, txs)
    ensures GroupsOf(Entry(days, tx.day, tx), txs + [tx])
  {
    var more := Entry(days, tx.day, tx);
    EntryKeeps(DayOf, days, tx);
    forall day ensures OfKey(DayOf, AllItems(more), day) == OfKey(DayOf, txs + [tx], day) {
      EntryAdds(DayOf, days, tx, day);
      OfKeyPush(DayOf, AllItems(days), tx, day);
      OfKeyPush(DayOf, txs, tx, day);
    }
  }

  method AddBlock(days: seq<Group<Transaction>>, txs: seq<Transaction>, ghost before: seq<Transaction>)
    returns (r: seq<Group<Transaction>>)
    requires GroupsOf(days, before)
    ensures GroupsOf(r, before + txs)
  {
    r := days;
    ghost var seen := before;
    assert before + txs[..0] == before;
    for i := 0 to |txs|
      invariant seen == before + txs[..i] && GroupsOf(r, seen)
    {
      PushTransaction(r, seen, txs[i]);
      r := Entry(r, txs[i].day, txs[i]);
      SplitAt(txs, i);
      Regroup(before, txs[..i], [txs[i]]);
      seen := seen + [txs[i]];
    }
    assert txs[..|txs|] == txs;
  }

  method GroupByDay(blocks: seq<BlockFile>) returns (days: seq<Group<Transaction>>)
    ensures GroupsOf(days, AllTransactions(blocks))
  {
    days := [];
    for i := 0 to |blocks|
      invariant GroupsOf(days, AllTransactions(blocks[..i]))
    {
      days := AddBlock(days, blocks[i].transactions, AllTransactions(blocks[..i]));
      SplitAt(blocks, i);
      GatherPush(Carried, blocks[..i], blocks[i]);
    }
    assert blocks[..|blocks|] == blocks;
  }

  /** Partitions in day order, each holding rows of its own day only, sorted by timestamp. */
  predicate OwnDays(written: seq<Partition>) {
    && AllSorted(written)
    && (forall i, k :: 0 <= i < |written| && 0 <= k < |written[i].rows| ==> written[i].rows[k].day == written[i].day)
    && (forall i, j :: 0 <= i < j < |written| ==> Less(written[i].day, written[j].day))
  }

  lemma SameElements(rows: seq<Transaction>, items: seq<Transaction>, day: string)
    requires multiset(rows) == multiset(items) && forall k :: 0 <= k < |items| ==> items[k].day == day
    ensures |rows| == |items| && forall k :: 0 <= k < |rows| ==> rows[k].day == day
  {
    assert |rows| == |multiset(rows)| && |items| == |multiset(items)|;
    forall k | 0 <= k < |rows| ensures rows[k].day == day {
      assert rows[k] in multiset(items);
    }
  }

  /** The partitions written so far are those of the first days, sorted. */
  predicate FirstDays(written: seq<Partition>, days: seq<Group<Transaction>>) {
    |written| <= |days| && forall i :: 0 <= i < |written| ==> IsDay(written[i], days[i])
  }

  predicate IsDay(p: Partition, g: Group<Transaction>) {
    p.day == g.key && HoldsSorted(p, g.items)
  }

  lemma PushOwnDay(written: seq<Partition>, p: Partition, days: seq<Group<Transaction>>)
    requires OwnDays(written) && FirstDays(written, days) && Grouped(DayOf, days)
    requires |written| < |days| && IsDay(p, days[|written|])
    ensures OwnDays(written + [p]) && FirstDays(written + [p], days)
    ensures multiset(RowsOf(written + [p])) == multiset(RowsOf(written)) + multiset(p.rows)
  {
    var n, more := |written|, written + [p];
    SortedRows(p, days[n].items);
    SameElements(p.rows, days[n].items, p.day);
    GatherPush(Rows, written, p);
    forall i | 0 <= i < n ensures Less(more[i].day, p.day) {
      assert IsDay(written[i], days[i]);
    }
  }

  method WriteDays(days: seq<Group<Transaction>>) returns (written: seq<Partition>, total: nat)
    requires Grouped(DayOf, days)
    ensures OwnDays(written) && |written| == |days| && FirstDays(written, days)
    ensures multiset(RowsOf(written)) == multiset(AllItems(days)) && total == |AllItems(days)|
  {
    written, total := [], 0;
    assert days[..0] == [];
    for d := 0 to |days|
      invariant OwnDays(written) && |written| == d && FirstDays(written, days)
      invariant multiset(RowsOf(written)) == multiset(AllItems(days[..d])) && total == |AllItems(days[..d])|
    {
      SplitAtGroup(days, d);
      var p := WriteDay(days[d].key, days[d].items);
      PushOwnDay(written, p, days);
      written := written + [p];
      total := total + |p.rows|;
    }
    assert days[..|days|] == days;
  }

  /** One partition for each day, holding that day's transactions in block order, sorted stably by timestamp. */
  predicate DayPartitions(written: seq<Partition>, txs: seq<Transaction>) {
    && (forall i :: 0 <= i < |written| ==> HoldsSorted(written[i], OfKey(DayOf, txs, written[i].day)))
    && (forall k :: 0 <= k < |txs| ==> HasDay(written, txs[k].day))
  }

  lemma GroupsArePartitions(written: seq<Partition>, days: seq<Group<Transaction>>, txs: seq<Transaction>)
    requires GroupsOf(days, txs) && FirstDays(written, days) && |written| == |days|
    ensures DayPartitions(written, txs)
  {
    forall i | 0 <= i < |written| ensures HoldsSorted(written[i], OfKey(DayOf, txs, written[i].day)) {
      GroupIsOfKey(DayOf, days, i);
      assert IsDay(written[i], days[i]);
    }
    forall k | 0 <= k < |txs| ensures HasDay(written, txs[k].day) {
      var j := Member(txs, AllItems(days), k);
      var i := HasGroup(DayOf, days, j);
      assert IsDay(written[i], days[i]);
    }
  }

  // ----- The run -----------------------------------------------------------------------------

  lemma {:induction false} SameTransactions(a: seq<BlockFile>, b: seq<BlockFile>)
    requires multiset(a) == multiset(b)
    ensures multiset(AllTransactions(a)) == multiset(AllTransactions(b))
    ensures |AllTransactions(a)| == |AllTransactions(b)|
    decreases |a|
  {
    SameSize(a, b);
    if a != [] {
      var x := a[|a| - 1];
      var i := TakeOut(a, b);
      SameTransactions(a[..|a| - 1], b[..i] + b[i + 1..]);
      GatherAppend(Carried, b[..i] + [x], b[i + 1..]);
      GatherPush(Carried, b[..i], x);
      GatherAppend(Carried, b[..i], b[i + 1..]);
    }
  }

  /**
   * The whole pipeline. With the chain checked it succeeds exactly on accepted block sets; what it
   * writes is every parsed transaction once, each in the partition of its own day, and a partition
   * is exactly its day's transactions in block order, sorted stably by timestamp.
   */
  method Run(parse: Parser<BlockFile>, names: seq<string>, verifyChain: bool, threads: nat)
    returns (outcome: Outcome, written: seq<Partition>)
    requires threads >= 1
    ensures match ParseAll(parse, names)
            case Unparsed(name) => outcome == Stopped(ParseFailed(name)) && written == []
            case Files(blocks) =>
              && (outcome.Done? <==> (verifyChain ==> Accepted(blocks)))
              && (outcome.Done? ==>
                    && outcome.totalTransactions == |AllTransactions(blocks)|
                    && multiset(RowsOf(written)) == multiset(AllTransactions(blocks)) && OwnDays(written)
                    && DayPartitions(written, AllTransactions(Sort(ByNumber, blocks))))
              && (!outcome.Done? ==> written == [] && exists i: nat :: FirstBreak(Sort(ByNumber, blocks), i, outcome.failed))
  {
    var parsed := ParseThreaded(parse, names, threads);
    if parsed.Unparsed? {
      return Stopped(ParseFailed(parsed.name)), [];
    }
    var blocks := Sort(ByNumber, parsed.files);
    SortKeeps(ByNumber, parsed.files);
    if verifyChain {
      var failed := CheckChain(blocks);
      if failed.Some? {
        return Stopped(failed.value), [];
      }
    }
    var days := GroupByDay(blocks);
    var total;
    written, total := WriteDays(days);
    GroupsArePartitions(written, days, AllTransactions(blocks));
    SameTransactions(blocks, parsed.files);
    assert |AllItems(days)| == |multiset(AllItems(days))|;
    assert |AllTransactions(blocks)| == |multiset(AllTransactions(blocks))|;
    outcome := Done(total);
  }

  /** All transactions are those of the first block and then all of the others'. */
  lemma TransactionsAre(blocks: seq<BlockFile>)
    ensures AllTransactions([]) == []
    ensures blocks != [] ==> AllTransactions(blocks) == blocks[0].transactions + AllTransactions(blocks[1..])
  {
    if blocks != [] {
      assert blocks == [blocks[0]] + blocks[1..];
      GatherAppend(Carried, [blocks[0]], blocks[1..]);
      GatherOne(Carried, blocks[0]);
    }
  }
}
