/** The record-era pipeline: files grouped by day, each day parsed in chunks and chain-checked. */
module RecordEtl {
  import opened Common
  import opened Sorting
  import opened Groups
  import opened ThreadedParse
  import opened Transactions
  import opened RecordVerify

  datatype Failed =
    | NoDayPrefix(name: string)
    | ParseFailed(name: string)
    | BrokenBoundary(file: string, reason: Reason)
    | BrokenDay(file: string, reason: Reason)

  const DAY_LENGTH := 10

  /** The day in a file's name. */
  function DayOf(name: string): string {
    if |name| >= DAY_LENGTH then name[..DAY_LENGTH] else name
  }

  predicate FirstShort(names: seq<string>, i: nat)
    requires i < |names|
  {
    |names[i]| < DAY_LENGTH && forall j :: 0 <= j < i ==> |names[j]| >= DAY_LENGTH
  }

  /** Grouping sorted names by day keeps their order: the groups, read in key order, are the list. */
  method GroupByDay(names: seq<string>) returns (days: seq<Group<string>>, misnamed: Option<string>)
    requires SortedBy(AtMost, names)
    ensures misnamed.None? <==> forall i :: 0 <= i < |names| ==> |names[i]| >= DAY_LENGTH
    ensures misnamed.Some? ==> exists i :: 0 <= i < |names| && FirstShort(names, i) && misnamed.value == names[i]
    ensures misnamed.None? ==> Grouped(DayOf, days) && AllItems(days) == names
  {
    days := [];
    for i := 0 to |names|
      invariant forall j :: 0 <= j < i ==> |names[j]| >= DAY_LENGTH
      invariant Grouped(DayOf, days) && AllItems(days) == names[..i]
      invariant i == 0 ==> days == []
      invariant i > 0 ==> days != [] && days[|days| - 1].key == DayOf(names[i - 1])
    {
      var name := names[i];
      if |name| < DAY_LENGTH {
        return days, Some(name);
      }
      if i > 0 {
        PrefixAtMost(names[i - 1], name, DAY_LENGTH);
      }
      SplitAt(names, i);
      EntryKeeps(DayOf, days, name);
      EntryAtEnd(DayOf, days, name);
      days := Entry(days, DayOf(name), name);
    }
    return days, None;
  }

  // ----- One day's check ---------------------------------------------------------------------

  function Carried(file: ParsedRecordFile): seq<Transaction> {
    file.transactions
  }

  function TransactionsOf(files: seq<ParsedRecordFile>): seq<Transaction> {
    Gather(Carried, files)
  }

  datatype Outcome = Done(totalTransactions: nat) | Stopped(failed: Failed)

  /** The chain check of one day, seam first; what it finds is the first break the day adds. */
  method CheckDay(boundary: Option<ParsedRecordFile>, files: seq<ParsedRecordFile>, ghost before: seq<ParsedRecordFile>)
    returns (seam: Option<Reason>, within: Option<ChainBreak>)
    requires files != [] && FirstBreakIs(before, None)
    requires boundary == if before == [] then None else Some(before[|before| - 1])
    ensures FirstBreakIs(before + files,
              if seam.Some? then Some(ChainBreak(|before|, seam.value))
              else if within.Some? then Some(ChainBreak(|before| + within.value.index, within.value.reason))
              else None)
    ensures seam.None? && within.Some? ==> 0 < within.value.index < |files|
    ensures seam.Some? ==> before != []
  {
    seam, within := None, None;
    if boundary.Some? {
      var pair := VerifyRunningHashChain([boundary.value, files[0]]);
      if pair.Some? {
        seam := Some(pair.value.reason);
        BreakOfConcat(before, files, None, FirstBreak(files));
        return;
      }
      assert Linked([boundary.value, files[0]], 1);
    }
    within := VerifyRunningHashChain(files);
    BreakOfConcat(before, files, None, within);
  }

  // ----- The verdict on a whole list of names ------------------------------------------------

  /** How a break is reported: a seam if the two files are of different days. */
  function BreakAt(names: seq<string>, b: ChainBreak): Failed
    requires 0 < b.index < |names|
  {
    if DayOf(names[b.index - 1]) == DayOf(names[b.index]) then BrokenDay(names[b.index], b.reason)
    else BrokenBoundary(names[b.index], b.reason)
  }

  function FileOf(failed: Failed): string {
    match failed
    case NoDayPrefix(name) => name
    case ParseFailed(name) => name
    case BrokenBoundary(file, _) => file
    case BrokenDay(file, _) => file
  }

  /** The first break of a list, if it is asked for and there is one. */
  function Checked(names: seq<string>, files: seq<ParsedRecordFile>, verifyChain: bool, otherwise: Outcome): Outcome
    requires |files| == |names|
  {
    var b := FirstBreak(files);
    if verifyChain && b.Some? then Stopped(BreakAt(names, b.value)) else otherwise
  }

  /** How many names come before the first one of a day. */
  function DayStart(names: seq<string>, day: string): (n: nat)
    ensures n <= |names| && forall i :: 0 <= i < n ==> DayOf(names[i]) != day
  {
    if names == [] || DayOf(names[0]) == day then 0 else 1 + DayStart(names[1..], day)
  }

  lemma {:induction false} DayStartAfter(a: seq<string>, b: seq<string>, day: string)
    requires forall i :: 0 <= i < |a| ==> DayOf(a[i]) != day
    ensures DayStart(a + b, day) == |a| + DayStart(b, day)
  {
    if a == [] {
      assert a + b == b;
    } else {
      assert (a + b)[1..] == a[1..] + b;
      DayStartAfter(a[1..], b, day);
    }
  }

  lemma {:induction false} UnparsedAt(parse: Parser<ParsedRecordFile>, names: seq<string>) returns (k: nat)
    requires ParseAll(parse, names).Unparsed?
    ensures k < |names| && names[k] == ParseAll(parse, names).name && ParseAll(parse, names[..k]).Files?
  {
    k := 0;
    if parse(names[0]).Some? {
      var j := UnparsedAt(parse, names[1..]);
      k := j + 1;
      assert names[..k][0] == names[0] && names[..k][1..] == names[1..][..j];
    }
  }

  /** The days before the one with the first unparsable file parse in full. */
  lemma EarlierDaysParse(parse: Parser<ParsedRecordFile>, names: seq<string>)
    requires ParseAll(parse, names).Unparsed?
    ensures var sound := names[..DayStart(names, DayOf(ParseAll(parse, names).name))];
            ParseAll(parse, sound).Files? && |ParseAll(parse, sound).files| == |sound|
  {
    var n := DayStart(names, DayOf(ParseAll(parse, names).name));
    var k := UnparsedAt(parse, names);
    assert names[..k] == names[..n] + names[n..k];
    ParseAppend(parse, names[..n], names[n..k]);
    ParseLength(parse, names[..n]);
  }

  /**
   * What one check of the whole list reports: the first break of a list that parses. Days are taken
   * in turn, so before an unparsable file only the days before its own have been checked.
   */
  function Verdict(parse: Parser<ParsedRecordFile>, names: seq<string>, verifyChain: bool): Outcome {
    ParseLength(parse, names);
    match ParseAll(parse, names)
    case Files(files) => Checked(names, files, verifyChain, Done(|TransactionsOf(files)|))
    case Unparsed(name) =>
      EarlierDaysParse(parse, names);
      var sound := names[..DayStart(names, DayOf(name))];
      Checked(sound, ParseAll(parse, sound).files, verifyChain, Stopped(ParseFailed(name)))
  }

  /** A break found in a prefix is the break of the whole list. */
  lemma BreakStays(a: seq<ParsedRecordFile>, b: seq<ParsedRecordFile>, found: ChainBreak)
    requires FirstBreakIs(a, Some(found))
    ensures FirstBreak(a + b) == Some(found)
  {
    BreakOfConcat(a, b, Some(found), FirstBreak(b));
    FirstBreakIsUnique(a + b, Some(found), FirstBreak(a + b));
  }

  lemma NoBreak(files: seq<ParsedRecordFile>)
    requires FirstBreakIs(files, None)
    ensures FirstBreak(files) == None
  {
    FirstBreakIsUnique(files, None, FirstBreak(files));
  }

  predicate Apart(a: seq<string>, b: seq<string>) {
    forall i, j :: 0 <= i < |a| && 0 <= j < |b| ==> DayOf(a[i]) != DayOf(b[j])
  }

  lemma BreakReported(a: seq<string>, b: seq<string>, files: seq<ParsedRecordFile>, more: seq<ParsedRecordFile>,
                      found: ChainBreak, otherwise: Outcome)
    requires |files| == |a| && |more| == |b| && FirstBreakIs(files, Some(found))
    ensures Checked(a + b, files + more, true, otherwise) == Stopped(BreakAt(a, found))
  {
    BreakStays(files, more, found);
    assert (a + b)[found.index] == a[found.index] && (a + b)[found.index - 1] == a[found.index - 1];
  }

  lemma BreakInDay(front: seq<string>, items: seq<string>, k: nat, reason: Reason)
    requires k < |items| && 0 < |front| + k && Apart(front, items)
    requires forall i :: 0 <= i < |items| ==> DayOf(items[i]) == DayOf(items[0])
    ensures BreakAt(front + items, ChainBreak(|front| + k, reason))
            == if k == 0 then BrokenBoundary(items[0], reason) else BrokenDay(items[k], reason)
  {
    var names, n := front + items, |front| + k;
    assert names[n] == items[k];
    assert names[n - 1] == if k == 0 then front[|front| - 1] else items[k - 1];
  }

  /** A break within the first days is the verdict, whatever comes on later days. */
  lemma BreakStands(parse: Parser<ParsedRecordFile>, a: seq<string>, b: seq<string>, files: seq<ParsedRecordFile>, found: ChainBreak)
    requires ParseAll(parse, a) == Files(files) && |files| == |a| && FirstBreakIs(files, Some(found)) && Apart(a, b)
    ensures Verdict(parse, a + b, true) == Stopped(BreakAt(a, found))
  {
    if ParseAll(parse, b).Files? {
      ParseAppend(parse, a, b);
      ParseLength(parse, b);
      BreakReported(a, b, files, ParseAll(parse, b).files, found, Done(|TransactionsOf(files + ParseAll(parse, b).files)|));
    } else {
      var m, more := VerdictBefore(parse, a, b, files);
      BreakReported(a, b[..m], files, more, found, Stopped(ParseFailed(ParseAll(parse, b).name)));
    }
  }

  /** With an unparsable file among later days, the verdict is on the days up to its own. */
  lemma VerdictBefore(parse: Parser<ParsedRecordFile>, a: seq<string>, b: seq<string>, files: seq<ParsedRecordFile>)
    returns (m: nat, more: seq<ParsedRecordFile>)
    requires ParseAll(parse, a) == Files(files) && |files| == |a| && ParseAll(parse, b).Unparsed? && Apart(a, b)
    ensures m <= |b| && |more| == m
    ensures Verdict(parse, a + b, true)
            == Checked(a + b[..m], files + more, true, Stopped(ParseFailed(ParseAll(parse, b).name)))
  {
    var name := ParseAll(parse, b).name;
    var k := UnparsedAt(parse, b);
    DayStartAfter(a, b, DayOf(name));
    EarlierDaysParse(parse, b);
    m := DayStart(b, DayOf(name));
    more := ParseAll(parse, b[..m]).files;
    assert (a + b)[..|a| + m] == a + b[..m];
    assert ParseAll(parse, a + b) == Unparsed(name) by { ParseAppend(parse, a, b); }
    assert ParseAll(parse, a + b[..m]) == Files(files + more) by { ParseAppend(parse, a, b[..m]); }
    VerdictOnSound(parse, a + b, |a| + m, files + more, true);
  }

  lemma VerdictOnSound(parse: Parser<ParsedRecordFile>, names: seq<string>, n: nat, files: seq<ParsedRecordFile>, verifyChain: bool)
    requires ParseAll(parse, names).Unparsed? && n == DayStart(names, DayOf(ParseAll(parse, names).name))
    requires ParseAll(parse, names[..n]) == Files(files)
    ensures |files| == n
    ensures Verdict(parse, names, verifyChain)
            == Checked(names[..n], files, verifyChain, Stopped(ParseFailed(ParseAll(parse, names).name)))
  {
    ParseLength(parse, names[..n]);
  }

  /** An unparsable file is the verdict when the days before its own are unbroken. */
  lemma FailureStands(parse: Parser<ParsedRecordFile>, front: seq<string>, before: seq<ParsedRecordFile>,
                      items: seq<string>, back: seq<string>, verifyChain: bool)
    requires ParseAll(parse, front) == Files(before) && |before| == |front|
    requires verifyChain ==> FirstBreakIs(before, None)
    requires ParseAll(parse, items).Unparsed? && Apart(front, items)
    requires forall i :: 0 <= i < |items| ==> DayOf(items[i]) == DayOf(items[0])
    ensures Verdict(parse, front + items + back, verifyChain) == Stopped(ParseFailed(ParseAll(parse, items).name))
    ensures ParseAll(parse, items).name in items
  {
    var k := UnparsedAt(parse, items);
    ParseAppend(parse, front, items);
    ParseAppend(parse, front + items, back);
    Regroup(front, items, back);
    DayStartAfter(front, items + back, DayOf(items[0]));
    assert (front + items + back)[..|front|] == front;
    if verifyChain { NoBreak(before); }
  }

  /** What a day's check finds is what is reported, whatever comes on later days. */
  lemma DayBreak(parse: Parser<ParsedRecordFile>, front: seq<string>, items: seq<string>, back: seq<string>,
                 files: seq<ParsedRecordFile>, k: nat, reason: Reason)
    requires ParseAll(parse, front + items) == Files(files) && |files| == |front| + |items|
    requires k < |items| && 0 < |front| + k && FirstBreakIs(files, Some(ChainBreak(|front| + k, reason)))
    requires forall i :: 0 <= i < |items| ==> DayOf(items[i]) == DayOf(items[0])
    requires Apart(front, items) && Apart(front + items, back)
    ensures Verdict(parse, front + items + back, true)
            == Stopped(if k == 0 then BrokenBoundary(items[0], reason) else BrokenDay(items[k], reason))
  {
    BreakStands(parse, front + items, back, files, ChainBreak(|front| + k, reason));
    BreakInDay(front, items, k, reason);
  }

  // ----- The run -----------------------------------------------------------------------------

  /** A partition of the transactions some files carry, in file order, sorted stably by timestamp. */
  predicate HoldsFiles(parse: Parser<ParsedRecordFile>, p: Partition, names: seq<string>) {
    match ParseAll(parse, names)
    case Files(files) => HoldsSorted(p, TransactionsOf(files))
    case Unparsed(_) => false
  }

  predicate IsDay(parse: Parser<ParsedRecordFile>, p: Partition, day: Group<string>) {
    p.day == day.key && HoldsFiles(parse, p, day.items)
  }

  /** The days so far parsed, unbroken if that is checked, and the file carried over is their last. */
  predicate Parsed(parse: Parser<ParsedRecordFile>, verifyChain: bool, names: seq<string>, files: seq<ParsedRecordFile>,
                   boundary: Option<ParsedRecordFile>)
  {
    && ParseAll(parse, names) == Files(files) && |files| == |names|
    && (verifyChain ==> FirstBreakIs(files, None) && boundary == if files == [] then None else Some(files[|files| - 1]))
  }

  /** One day: parse, check against what came before, sort for writing. */
  method RunDay(parse: Parser<ParsedRecordFile>, day: Group<string>, verifyChain: bool, threads: nat, boundary: Option<ParsedRecordFile>,
                ghost front: seq<string>, ghost before: seq<ParsedRecordFile>, ghost back: seq<string>)
    returns (stop: Option<Failed>, files: seq<ParsedRecordFile>, partition: Partition, next: Option<ParsedRecordFile>)
    requires day.items != [] && threads >= 1
    requires forall i :: 0 <= i < |day.items| ==> DayOf(day.items[i]) == day.key
    requires Apart(front, day.items) && Apart(front + day.items, back)
    requires Parsed(parse, verifyChain, front, before, boundary)
    ensures stop.Some? ==>
              && Verdict(parse, front + day.items + back, verifyChain) == Stopped(stop.value)
              && FileOf(stop.value) in day.items
    ensures stop.None? ==>
              && Parsed(parse, verifyChain, front + day.items, before + files, next)
              && ParseAll(parse, day.items) == Files(files) && IsDay(parse, partition, day)
              && |partition.rows| == |TransactionsOf(files)|
  {
    partition, next := Partition(day.key, []), boundary;
    ParseAppend(parse, front, day.items);
    ParseLength(parse, day.items);
    var parsed := ParseThreaded(parse, day.items, threads);
    if parsed.Unparsed? {
      FailureStands(parse, front, before, day.items, back, verifyChain);
      return Some(ParseFailed(parsed.name)), [], partition, next;
    }
    files := parsed.files;
    if verifyChain {
      var seam, within := CheckDay(boundary, files, before);
      if seam.Some? {
        DayBreak(parse, front, day.items, back, before + files, 0, seam.value);
        return Some(BrokenBoundary(day.items[0], seam.value)), files, partition, next;
      }
      if within.Some? {
        var b := within.value;
        DayBreak(parse, front, day.items, back, before + files, b.index, b.reason);
        return Some(BrokenDay(day.items[b.index], b.reason)), files, partition, next;
      }
      next := Some(files[|files| - 1]);
    }
    partition := WriteDay(day.key, TransactionsOf(files));
    stop := None;
  }

  /** The partitions written so far are those of the first days. */
  predicate FirstDays(parse: Parser<ParsedRecordFile>, written: seq<Partition>, days: seq<Group<string>>) {
    |written| <= |days| && forall i :: 0 <= i < |written| ==> IsDay(parse, written[i], days[i])
  }

  lemma PushDay(parse: Parser<ParsedRecordFile>, written: seq<Partition>, p: Partition, days: seq<Group<string>>)
    requires FirstDays(parse, written, days) && |written| < |days| && IsDay(parse, p, days[|written|])
    ensures FirstDays(parse, written + [p], days)
  {
  }

  /** All days written, nothing is lost: the rows are the transactions of all files. */
  lemma {:induction false} DaysHoldAll(parse: Parser<ParsedRecordFile>, written: seq<Partition>, days: seq<Group<string>>)
    requires FirstDays(parse, written, days) && |written| == |days| && ParseAll(parse, AllItems(days)).Files?
    ensures multiset(RowsOf(written)) == multiset(TransactionsOf(ParseAll(parse, AllItems(days)).files))
  {
    if days != [] {
      var n := |days| - 1;
      var last, p := days[n], written[n];
      GroupedSplit(days);
      var before, files := PartsParse(parse, AllItems(days[..n]), last.items);
      assert IsDay(parse, p, last);
      DaysHoldAll(parse, written[..n], days[..n]);
      OneDayMore(written[..n], p, before, files);
      FrontAndLast(written);
    }
  }

  lemma PartsParse(parse: Parser<ParsedRecordFile>, a: seq<string>, b: seq<string>)
    returns (before: seq<ParsedRecordFile>, files: seq<ParsedRecordFile>)
    requires ParseAll(parse, a + b).Files?
    ensures ParseAll(parse, a) == Files(before) && ParseAll(parse, b) == Files(files)
    ensures ParseAll(parse, a + b) == Files(before + files)
  {
    ParseAppend(parse, a, b);
    before, files := ParseAll(parse, a).files, ParseAll(parse, b).files;
  }

  lemma GroupedSplit(days: seq<Group<string>>)
    requires days != []
    ensures AllItems(days) == AllItems(days[..|days| - 1]) + days[|days| - 1].items
  {
  }

  lemma OneDayMore(written: seq<Partition>, p: Partition, before: seq<ParsedRecordFile>, files: seq<ParsedRecordFile>)
    requires multiset(RowsOf(written)) == multiset(TransactionsOf(before)) && HoldsSorted(p, TransactionsOf(files))
    ensures multiset(RowsOf(written + [p])) == multiset(TransactionsOf(before + files))
  {
    SortedRows(p, TransactionsOf(files));
    GatherPush(Rows, written, p);
    GatherAppend(Carried, before, files);
    SameAppended(RowsOf(written), p.rows, TransactionsOf(before), TransactionsOf(files));
  }

  /** Days of different groups are different. */
  lemma GroupsApart(days: seq<Group<string>>, d: nat)
    requires Grouped(DayOf, days) && d < |days|
    ensures Apart(AllItems(days[..d]), days[d].items)
    ensures Apart(AllItems(days[..d]) + days[d].items, AllItems(days[d + 1..]))
  {
    forall i, j | 0 <= i < |AllItems(days[..d])| && 0 <= j < |days[d].items|
      ensures DayOf(AllItems(days[..d])[i]) != DayOf(days[d].items[j])
    {
      var e := HasGroup(DayOf, days[..d], i);
      LessTrichotomy(days[e].key, days[d].key);
    }
    var front, back := AllItems(days[..d + 1]), AllItems(days[d + 1..]);
    SplitAtGroup(days, d);
    forall i, j | 0 <= i < |front| && 0 <= j < |back|
      ensures DayOf(front[i]) != DayOf(back[j])
    {
      var e := HasGroup(DayOf, days[..d + 1], i);
      var f := HasGroup(DayOf, days[d + 1..], j);
      LessTrichotomy(days[e].key, days[d + 1 + f].key);
    }
  }

  /** The d-th of all days. */
  method RunNext(parse: Parser<ParsedRecordFile>, days: seq<Group<string>>, d: nat, verifyChain: bool, threads: nat,
                 boundary: Option<ParsedRecordFile>, ghost seen: seq<ParsedRecordFile>)
    returns (stop: Option<Failed>, files: seq<ParsedRecordFile>, partition: Partition, next: Option<ParsedRecordFile>)
    requires Grouped(DayOf, days) && d < |days| && threads >= 1
    requires Parsed(parse, verifyChain, AllItems(days[..d]), seen, boundary)
    ensures stop.Some? ==>
              && Verdict(parse, AllItems(days), verifyChain) == Stopped(stop.value)
              && FileOf(stop.value) in days[d].items
    ensures stop.None? ==>
              && Parsed(parse, verifyChain, AllItems(days[..d + 1]), seen + files, next)
              && ParseAll(parse, days[d].items) == Files(files) && IsDay(parse, partition, days[d])
              && |partition.rows| == |TransactionsOf(files)|
  {
    SplitAtGroup(days, d);
    GroupsApart(days, d);
    stop, files, partition, next :=
      RunDay(parse, days[d], verifyChain, threads, boundary, AllItems(days[..d]), seen, AllItems(days[d + 1..]));
  }

  /** The day loop over grouped files; only the last file of a day is carried to the next. */
  method RunDays(parse: Parser<ParsedRecordFile>, days: seq<Group<string>>, verifyChain: bool, threads: nat)
    returns (outcome: Outcome, written: seq<Partition>)
    requires Grouped(DayOf, days) && threads >= 1
    ensures outcome == Verdict(parse, AllItems(days), verifyChain)
    ensures FirstDays(parse, written, days)
    ensures outcome.Stopped? ==> |written| < |days| && FileOf(outcome.failed) in days[|written|].items
    ensures outcome.Done? ==>
              && |written| == |days| && ParseAll(parse, AllItems(days)).Files?
              && multiset(RowsOf(written)) == multiset(TransactionsOf(ParseAll(parse, AllItems(days)).files))
  {
    written := [];
    var total: nat := 0;
    var boundary: Option<ParsedRecordFile> := None;
    ghost var seen: seq<ParsedRecordFile> := [];
    assert days[..0] == [];
    for d := 0 to |days|
      invariant Parsed(parse, verifyChain, AllItems(days[..d]), seen, boundary)
      invariant total == |TransactionsOf(seen)|
      invariant |written| == d && FirstDays(parse, written, days)
    {
      var stop, files, partition, next := RunNext(parse, days, d, verifyChain, threads, boundary, seen);
      if stop.Some? {
        return Stopped(stop.value), written;
      }
      PushDay(parse, written, partition, days);
      GatherAppend(Carried, seen, files);
      boundary := next;
      seen := seen + files;
      total := total + |partition.rows|;
      written := written + [partition];
    }
    assert days[..|days|] == days;
    outcome := Done(total);
    if verifyChain { NoBreak(seen); }
    DaysHoldAll(parse, written, days);
  }

  /**
   * Partitions in day order, each with the transactions of exactly the files named for its day. The
   * days written are all of them, or those before the day of the file that stopped the run.
   */
  predicate DaysWritten(parse: Parser<ParsedRecordFile>, names: seq<string>, outcome: Outcome, written: seq<Partition>) {
    && (forall i, j :: 0 <= i < j < |written| ==> Less(written[i].day, written[j].day))
    && (forall i :: 0 <= i < |written| ==> HoldsFiles(parse, written[i], OfKey(DayOf, names, written[i].day)))
    && (forall k :: 0 <= k < |names| ==>
          (HasDay(written, DayOf(names[k])) <==>
            outcome.Done? || Less(DayOf(names[k]), DayOf(FileOf(outcome.failed)))))
  }

  lemma GroupsAreDays(parse: Parser<ParsedRecordFile>, days: seq<Group<string>>, outcome: Outcome, written: seq<Partition>)
    requires Grouped(DayOf, days) && FirstDays(parse, written, days)
    requires outcome.Done? ==> |written| == |days|
    requires outcome.Stopped? ==> |written| < |days| && FileOf(outcome.failed) in days[|written|].items
    ensures DaysWritten(parse, AllItems(days), outcome, written)
  {
    var names := AllItems(days);
    forall i | 0 <= i < |written| ensures written[i].day == days[i].key {
      assert IsDay(parse, written[i], days[i]);
    }
    forall i | 0 <= i < |written| ensures HoldsFiles(parse, written[i], OfKey(DayOf, names, written[i].day)) {
      assert IsDay(parse, written[i], days[i]);
      GroupIsOfKey(DayOf, days, i);
    }
    forall k | 0 <= k < |names|
      ensures HasDay(written, DayOf(names[k])) <==>
                outcome.Done? || Less(DayOf(names[k]), DayOf(FileOf(outcome.failed)))
    {
      var d := HasGroup(DayOf, days, k);
      WrittenBefore(days, written, d);
      if outcome.Stopped? {
        LessTrichotomy(days[d].key, days[|written|].key);
      }
    }
  }

  lemma WrittenBefore(days: seq<Group<string>>, written: seq<Partition>, d: nat)
    requires Grouped(DayOf, days) && d < |days| && |written| <= |days|
    requires forall i :: 0 <= i < |written| ==> written[i].day == days[i].key
    ensures HasDay(written, days[d].key) <==> d < |written|
  {
    if d < |written| { assert written[d].day == days[d].key; }
    forall i | 0 <= i < |written| && written[i].day == days[d].key ensures i == d {
      LessTrichotomy(days[i].key, days[d].key);
    }
  }

  /**
   * The whole pipeline over a sorted list of names: day by day and with only one file carried
   * across midnight, it reports what one check of the whole list would.
   */
  method Run(parse: Parser<ParsedRecordFile>, names: seq<string>, verifyChain: bool, threads: nat)
    returns (outcome: Outcome, written: seq<Partition>)
    requires SortedBy(AtMost, names) && threads >= 1
    ensures (exists i :: 0 <= i < |names| && |names[i]| < DAY_LENGTH) ==>
              exists i :: 0 <= i < |names| && FirstShort(names, i) && outcome == Stopped(NoDayPrefix(names[i])) && written == []
    ensures (forall i :: 0 <= i < |names| ==> |names[i]| >= DAY_LENGTH) ==>
              outcome == Verdict(parse, names, verifyChain) && DaysWritten(parse, names, outcome, written)
    ensures outcome.Done? ==>
              && ParseAll(parse, names).Files?
              && multiset(RowsOf(written)) == multiset(TransactionsOf(ParseAll(parse, names).files))
  {
    var days, misnamed := GroupByDay(names);
    if misnamed.Some? {
      return Stopped(NoDayPrefix(misnamed.value)), [];
    }
    outcome, written := RunDays(parse, days, verifyChain, threads);
    GroupsAreDays(parse, days, outcome, written);
  }

  /** With the chain checked and every file parsing: success exactly when the whole list has no break. */
  lemma DoneExactlyWhenUnbroken(parse: Parser<ParsedRecordFile>, names: seq<string>)
    ensures Verdict(parse, names, true).Done? <==>
              ParseAll(parse, names).Files? && FirstBreakIs(ParseAll(parse, names).files, None)
    ensures Verdict(parse, names, true).Done? ==>
              var files := ParseAll(parse, names).files;
              forall k :: 0 <= k < |files| ==> files[k].blockNumber as int == files[0].blockNumber as int + k
  {
    ParseLength(parse, names);
    if ParseAll(parse, names).Files? {
      var files := ParseAll(parse, names).files;
      if FirstBreakIs(files, None) {
        NoBreak(files);
        forall k | 0 <= k < |files| ensures files[k].blockNumber as int == files[0].blockNumber as int + k {
          AcceptedIsConsecutive(files, k);
        }
      }
    }
  }

  const LONE_FILE: ParsedRecordFile := ParsedRecordFile(1, [], [1], [])

  /** Every file is the same but the last, which does not parse. */
  function LoneFile(name: string): Option<ParsedRecordFile> {
    if name == "2022-07-13c" then None else Some(LONE_FILE)
  }

  /** A day with a break and an unparsable file: the file is what is reported, and the break is not. */
  lemma UnparsableHidesBreak()
    ensures ParseAll(LoneFile, ["2022-07-13a", "2022-07-13b"]) == Files([LONE_FILE, LONE_FILE])
    ensures FirstBreak([LONE_FILE, LONE_FILE]) == Some(ChainBreak(1, HashMismatch))
    ensures Verdict(LoneFile, ["2022-07-13a", "2022-07-13b", "2022-07-13c"], true) == Stopped(ParseFailed("2022-07-13c"))
  {
    var a, b, c := "2022-07-13a", "2022-07-13b", "2022-07-13c";
    assert a[10] == 'a' && b[10] == 'b' && c[10] == 'c';
    ParseOne(LoneFile, a);
    ParseOne(LoneFile, b);
    ParseOne(LoneFile, c);
    ParseAppend(LoneFile, [a], [b]);
    assert [a] + [b] == [a, b] && [LONE_FILE] + [LONE_FILE] == [LONE_FILE, LONE_FILE];
    ParseAppend(LoneFile, [a, b], [c]);
    assert [a, b] + [c] == [a, b, c];
    FirstBreakIsUnique([LONE_FILE, LONE_FILE], FirstBreak([LONE_FILE, LONE_FILE]), Some(ChainBreak(1, HashMismatch)));
    assert DayOf(a) == "2022-07-13" == DayOf(c);
    assert [a, b, c][..0] == [];
    VerdictOnSound(LoneFile, [a, b, c], 0, [], true);
    NoBreak([]);
  }

  // ----- The verdict, written out ------------------------------------------------------------

  /** Names that carry a day in their first ten characters. */
  predicate Dated(names: seq<string>) {
    forall i :: 0 <= i < |names| ==> |names[i]| >= 10
  }

  /** How file i fails to go on from its predecessor: across midnight or within a day, by hash or by number. */
  function BreakReport(names: seq<string>, files: seq<ParsedRecordFile>, i: nat): Failed
    requires |names| == |files| && 0 < i < |names| && Dated(names)
  {
    var reason := if files[i].startRunningHash != files[i - 1].endRunningHash then HashMismatch else NumberGap;
    if names[i - 1][..10] == names[i][..10] then BrokenDay(names[i], reason) else BrokenBoundary(names[i], reason)
  }

  predicate FirstStop(files: seq<ParsedRecordFile>, i: nat) {
    0 < i < |files| && !GoesOn(files, i) && forall j :: 0 < j < i ==> GoesOn(files, j)
  }

  /** The sum of the files' transaction counts. */
  function CountOf(files: seq<ParsedRecordFile>): nat {
    if files == [] then 0 else |files[0].transactions| + CountOf(files[1..])
  }

  lemma {:induction false} CountIs(files: seq<ParsedRecordFile>)
    ensures |TransactionsOf(files)| == CountOf(files)
  {
    if files != [] {
      CountIs(files[1..]);
      TransactionsAre(files);
    }
  }

  /** Every file parses: done with the count unless the chain is checked and some file does not go on; the first is reported. */
  lemma VerdictWhenParsed(parse: Parser<ParsedRecordFile>, names: seq<string>, files: seq<ParsedRecordFile>)
    requires ParseAll(parse, names) == Files(files) && Dated(names)
    ensures |files| == |names| && Verdict(parse, names, false) == Done(CountOf(files))
    ensures (forall i :: 0 < i < |files| ==> GoesOn(files, i)) ==> Verdict(parse, names, true) == Done(CountOf(files))
    ensures forall i: nat :: FirstStop(files, i) ==> Verdict(parse, names, true) == Stopped(BreakReport(names, files, i))
  {
    ParseLength(parse, names);
    CountIs(files);
    VerdictMeans(files, FirstBreak(files));
    forall i: nat | FirstStop(files, i) ensures Verdict(parse, names, true) == Stopped(BreakReport(names, files, i)) {
      assert FirstBreak(files) != None && FirstBreak(files).value.index == i;
    }
  }

  /** The k-th name is the first that does not parse, and c names are of earlier days: those decide, or the file is named. */
  lemma VerdictWhenUnparsed(parse: Parser<ParsedRecordFile>, names: seq<string>, k: nat, c: nat, files: seq<ParsedRecordFile>)
    requires Dated(names) && c <= k < |names| && parse(names[k]).None?
    requires forall i :: 0 <= i < k ==> parse(names[i]).Some?
    requires forall i :: 0 <= i < c ==> names[i][..10] != names[k][..10]
    requires names[c][..10] == names[k][..10] && ParseAll(parse, names[..c]) == Files(files)
    ensures |files| == c && Verdict(parse, names, false) == Stopped(ParseFailed(names[k]))
    ensures (forall i :: 0 < i < c ==> GoesOn(files, i)) ==> Verdict(parse, names, true) == Stopped(ParseFailed(names[k]))
    ensures forall i: nat :: FirstStop(files, i) ==> Verdict(parse, names, true) == Stopped(BreakReport(names[..c], files, i))
  {
    ParseLength(parse, names[..c]);
    ParseMeans(parse, names);
    var front := names[..c];
    assert ParseAll(parse, names) == Unparsed(names[k]) by { FirstUnparsed(parse, names, k); }
    assert names == front + names[c..];
    DayStartAfter(front, names[c..], DayOf(names[k]));
    assert names[c..][0] == names[c];
    VerdictOnSound(parse, names, c, files, false);
    VerdictOnSound(parse, names, c, files, true);
    VerdictMeans(files, FirstBreak(files));
    forall i: nat | FirstStop(files, i)
      ensures Verdict(parse, names, true) == Stopped(BreakReport(front, files, i))
    {
      assert FirstBreak(files) != None && FirstBreak(files).value.index == i;
    }
  }

  lemma FirstUnparsed(parse: Parser<ParsedRecordFile>, names: seq<string>, k: nat)
    requires k < |names| && parse(names[k]).None? && forall i :: 0 <= i < k ==> parse(names[i]).Some?
    ensures ParseAll(parse, names) == Unparsed(names[k])
  {
    ParseMeans(parse, names);
    match ParseAll(parse, names) {
      case Files(files) =>
      case Unparsed(name) =>
        var i :| 0 <= i < |names| && name == names[i] && parse(names[i]).None?
          && forall j :: 0 <= j < i ==> parse(names[j]).Some?;
        assert i == k;
    }
  }

  /** The days written, by the first ten characters of the names. */
  lemma DaysArePrefixes(parse: Parser<ParsedRecordFile>, names: seq<string>, outcome: Outcome, written: seq<Partition>)
    requires DaysWritten(parse, names, outcome, written) && Dated(names) && (outcome.Done? || |FileOf(outcome.failed)| >= 10)
    ensures forall k :: 0 <= k < |names| ==>
              (HasDay(written, names[k][..10]) <==> outcome.Done? || Less(names[k][..10], FileOf(outcome.failed)[..10]))
  {
  }

  /** All transactions are those of the first file and then all of the others'. */
  lemma TransactionsAre(files: seq<ParsedRecordFile>)
    ensures TransactionsOf([]) == []
    ensures files != [] ==> TransactionsOf(files) == files[0].transactions + TransactionsOf(files[1..])
  {
    if files != [] {
      assert files == [files[0]] + files[1..];
      GatherAppend(Carried, [files[0]], files[1..]);
      GatherOne(Carried, files[0]);
    }
  }
}
