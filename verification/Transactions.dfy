/** Parsed transactions, their order within a day, and the partitions they are written to. */
module Transactions {
  import opened Common
  import opened Sorting

  datatype Transaction = Transaction(consensusTimestamp: string, day: string, body: Bytes)

  predicate Earlier(a: Transaction, b: Transaction) {
    AtMost(a.consensusTimestamp, b.consensusTimestamp)
  }

  lemma EarlierIsTotalPreorder()
    ensures TotalPreorder(Earlier)
  {
    AtMostIsTotalPreorder();
    forall x, y ensures Earlier(x, y) || Earlier(y, x) {
      assert AtMost(x.consensusTimestamp, y.consensusTimestamp) || AtMost(y.consensusTimestamp, x.consensusTimestamp);
    }
    forall x, y, z | Earlier(x, y) && Earlier(y, z) ensures Earlier(x, z) {
      assert AtMost(x.consensusTimestamp, y.consensusTimestamp) && AtMost(y.consensusTimestamp, z.consensusTimestamp);
    }
  }

  /** A day partition as it is written. */
  datatype Partition = Partition(day: string, rows: seq<Transaction>)

  function Rows(p: Partition): seq<Transaction> {
    p.rows
  }

  function RowsOf(written: seq<Partition>): seq<Transaction> {
    Gather(Rows, written)
  }

  function TimeOf(tx: Transaction): string {
    tx.consensusTimestamp
  }

  predicate HasDay(written: seq<Partition>, day: string) {
    exists i :: 0 <= i < |written| && written[i].day == day
  }

  predicate AllSorted(written: seq<Partition>) {
    forall i :: 0 <= i < |written| ==> SortedBy(Earlier, written[i].rows)
  }

  /** A partition holds some transactions, sorted stably by timestamp. */
  predicate HoldsSorted(p: Partition, txs: seq<Transaction>) {
    p.rows == Sort(Earlier, txs)
  }

  /** What that means: nothing lost or added, in timestamp order, and the order kept among equal timestamps. */
  lemma SortedRows(p: Partition, txs: seq<Transaction>)
    requires HoldsSorted(p, txs)
    ensures SortedBy(Earlier, p.rows)
    ensures multiset(p.rows) == multiset(txs) && |p.rows| == |txs|
    ensures forall time :: OfKey(TimeOf, p.rows, time) == OfKey(TimeOf, txs, time)
  {
    SortKeeps(Earlier, txs);
    EarlierIsTotalPreorder();
    SortSorts(Earlier, txs);
    forall time ensures OfKey(TimeOf, p.rows, time) == OfKey(TimeOf, txs, time) {
      LessTrichotomy(time, time);
      forall i, j | 0 <= i < |txs| && 0 <= j < |txs| && TimeOf(txs[i]) == TimeOf(txs[j])
        ensures Earlier(txs[i], txs[j])
      {
        LessTrichotomy(TimeOf(txs[i]), TimeOf(txs[j]));
      }
      SortStable(Earlier, TimeOf, txs, time);
    }
  }

  /** Sorts one day's rows, stably by timestamp, and hands them over to be written. */
  method WriteDay(day: string, unsorted: seq<Transaction>) returns (p: Partition)
    ensures p.day == day && HoldsSorted(p, unsorted)
    ensures SortedBy(Earlier, p.rows) && multiset(p.rows) == multiset(unsorted) && |p.rows| == |unsorted|
    ensures forall time :: OfKey(TimeOf, p.rows, time) == OfKey(TimeOf, unsorted, time)
  {
    p := Partition(day, Sort(Earlier, unsorted));
    SortedRows(p, unsorted);
  }
}
