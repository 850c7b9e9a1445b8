/** The running-hash chain across record files. */
module RecordVerify {
  import opened Common
  import opened Transactions

  const I64_MAX: i64 := 0x7fff_ffff_ffff_ffff

  datatype ParsedRecordFile = ParsedRecordFile(
    blockNumber: i64,
    startRunningHash: Bytes,
    endRunningHash: Bytes,
    transactions: seq<Transaction>)

  datatype Reason = HashMismatch | NumberGap

  datatype ChainBreak = ChainBreak(index: nat, reason: Reason)

  /** What is wrong between a file and its successor, the hash being looked at first. */
  function LinkBreak(prev: ParsedRecordFile, next: ParsedRecordFile): Option<Reason> {
    if next.startRunningHash != prev.endRunningHash then Some(HashMismatch)
    else if prev.blockNumber == I64_MAX || next.blockNumber != prev.blockNumber + 1 then Some(NumberGap)
    else None
  }

  predicate Linked(files: seq<ParsedRecordFile>, i: nat)
    requires 0 < i < |files|
  {
    LinkBreak(files[i - 1], files[i]).None?
  }

  /** The verdict on a whole list: no break, or the first one and its reason. */
  predicate FirstBreakIs(files: seq<ParsedRecordFile>, r: Option<ChainBreak>) {
    match r
    case None => forall i :: 0 < i < |files| ==> Linked(files, i)
    case Some(b) =>
      && 0 < b.index < |files|
      && LinkBreak(files[b.index - 1], files[b.index]) == Some(b.reason)
      && forall i :: 0 < i < b.index ==> Linked(files, i)
  }

  /** A list has exactly one verdict. */
  lemma FirstBreakIsUnique(files: seq<ParsedRecordFile>, r: Option<ChainBreak>, s: Option<ChainBreak>)
    requires FirstBreakIs(files, r) && FirstBreakIs(files, s)
    ensures r == s
  {
    assert r.Some? ==> !Linked(files, r.value.index);
    assert s.Some? ==> !Linked(files, s.value.index);
  }

  function FirstBreak(files: seq<ParsedRecordFile>): (r: Option<ChainBreak>)
    ensures FirstBreakIs(files, r)
  {
    if |files| < 2 then None
    else
      var before := FirstBreak(files[..|files| - 1]);
      var link := LinkBreak(files[|files| - 2], files[|files| - 1]);
      assert forall i :: 0 < i < |files| - 1 ==> (Linked(files, i) <==> Linked(files[..|files| - 1], i));
      if before.Some? then before
      else if link.Some? then Some(ChainBreak(|files| - 1, link.value))
      else None
  }

  method VerifyRunningHashChain(files: seq<ParsedRecordFile>) returns (r: Option<ChainBreak>)
    ensures FirstBreakIs(files, r)
  {
    var i := 0;
    while i + 1 < |files|
      invariant 0 <= i && (files != [] ==> i < |files|)
      invariant forall k :: 0 < k <= i && k < |files| ==> Linked(files, k)
    {
      var prev, next := files[i], files[i + 1];
      if next.startRunningHash != prev.endRunningHash {
        return Some(ChainBreak(i + 1, HashMismatch));
      }
      if prev.blockNumber == I64_MAX || next.blockNumber != prev.blockNumber + 1 {  // checked_add
        return Some(ChainBreak(i + 1, NumberGap));
      }
      i := i + 1;
    }
    return None;
  }

  /** An accepted list is numbered without gaps, and each file starts where the one before it ended. */
  lemma {:induction false} AcceptedIsConsecutive(files: seq<ParsedRecordFile>, k: nat)
    requires FirstBreakIs(files, None) && k < |files|
    ensures files[k].blockNumber as int == files[0].blockNumber as int + k
    ensures k > 0 ==> files[k].startRunningHash == files[k - 1].endRunningHash
  {
    if k > 0 {
      assert Linked(files, k);
      AcceptedIsConsecutive(files, k - 1);
    }
  }

  /** Checking a list in two parts, and the seam between them, is checking the whole list. */
  lemma BreakOfConcat(a: seq<ParsedRecordFile>, b: seq<ParsedRecordFile>, ra: Option<ChainBreak>, rb: Option<ChainBreak>)
    requires FirstBreakIs(a, ra) && FirstBreakIs(b, rb)
    ensures var seam := if a == [] || b == [] then None else LinkBreak(a[|a| - 1], b[0]);
            FirstBreakIs(a + b,
              if ra.Some? then ra
              else if seam.Some? then Some(ChainBreak(|a|, seam.value))
              else if rb.Some? then Some(ChainBreak(|a| + rb.value.index, rb.value.reason))
              else None)
  {
    var all := a + b;
    assert forall i :: 0 < i < |a| ==> (Linked(all, i) <==> Linked(a, i));
    forall i | |a| < i < |all| ensures Linked(all, i) <==> Linked(b, i - |a|) {
      assert all[i] == b[i - |a|] && all[i - 1] == b[i - 1 - |a|];
    }
  }

  /** File i goes on where file i - 1 ended. */
  predicate GoesOn(files: seq<ParsedRecordFile>, i: nat)
    requires 0 < i < |files|
  {
    && files[i].startRunningHash == files[i - 1].endRunningHash
    && files[i].blockNumber as int == files[i - 1].blockNumber as int + 1
  }

  /** What the verdict means: none when every file goes on, and else the first that does not, the hash tried first. */
  lemma VerdictMeans(files: seq<ParsedRecordFile>, r: Option<ChainBreak>)
    requires FirstBreakIs(files, r)
    ensures r == None <==> forall i :: 0 < i < |files| ==> GoesOn(files, i)
    ensures r != None ==>
              var i := r.value.index;
              && 0 < i < |files| && !GoesOn(files, i) && (forall j :: 0 < j < i ==> GoesOn(files, j))
              && r.value.reason == if files[i].startRunningHash != files[i - 1].endRunningHash then HashMismatch else NumberGap
  {
    forall i | 0 < i < |files| ensures GoesOn(files, i) <==> Linked(files, i) {}
    if r != None {
      assert !Linked(files, r.value.index);
    }
  }
}
