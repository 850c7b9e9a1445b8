/** What the wire scan accepts, and that it undoes protobuf encoding. */
module WireRoundTrip {
  import opened Common
  import opened Wire

  /** A length-delimited field as it lies in the bytes; both varints may be padded. */
  datatype Record = Record(tag: Bytes, field: nat, length: Bytes, body: Bytes) {
    function Raw(): Bytes {
      tag + length + body
    }

    predicate WellFormed() {
      IsVarint(tag, 8 * field + LEN) && IsVarint(length, |body|)
    }
  }

  lemma ThreeParts(a: Bytes, b: Bytes, c: Bytes)
    ensures (a + b + c)[0..|a|] == a
    ensures (a + b + c)[|a|..|a| + |b|] == b
    ensures (a + b + c)[|a| + |b|..|a| + |b| + |c|] == c
  {
  }

  lemma RecordLies(bytes: Bytes, offset: nat, r: Record)
    requires offset + |r.Raw()| <= |bytes| && bytes[offset..offset + |r.Raw()|] == r.Raw()
    ensures var mid := offset + |r.tag|;
            var start := mid + |r.length|;
            && start + |r.body| == offset + |r.Raw()|
            && bytes[offset..mid] == r.tag && bytes[mid..start] == r.length && bytes[start..start + |r.body|] == r.body
  {
    var end := offset + |r.Raw()|;
    ThreeParts(r.tag, r.length, r.body);
    SliceOfSlice(bytes, offset, end, 0, |r.tag|);
    SliceOfSlice(bytes, offset, end, |r.tag|, |r.tag| + |r.length|);
    SliceOfSlice(bytes, offset, end, |r.tag| + |r.length|, |r.tag| + |r.length| + |r.body|);
  }

  lemma PartsParse(bytes: Buffer, offset: nat, mid: nat, start: nat, end: nat, field: nat)
    requires offset <= mid <= start <= end <= |bytes|
    requires IsVarint(bytes[offset..mid], 8 * field + LEN) && IsVarint(bytes[mid..start], end - start)
    ensures FieldAt(bytes, offset) == Success((field, bytes[start..end], end))
  {
    VarintExactly(bytes, offset, 8 * field + LEN, mid);
    VarintExactly(bytes, mid, end - start, start);
  }

  lemma FieldParses(bytes: Buffer, offset: nat, r: Record, end: nat)
    requires r.WellFormed() && end == offset + |r.Raw()| <= |bytes|
    requires bytes[offset..end] == r.Raw()
    ensures FieldAt(bytes, offset) == Success((r.field, r.body, end))
  {
    RecordLies(bytes, offset, r);
    var mid := offset + |r.tag|;
    assert end - (mid + |r.length|) == |r.body|;
    PartsParse(bytes, offset, mid, mid + |r.length|, end, r.field);
  }

  lemma FieldIsRecord(bytes: Bytes, offset: nat) returns (r: Record)
    requires FieldAt(bytes, offset).Success?
    ensures r.WellFormed()
    ensures var (field, body, next) := FieldAt(bytes, offset).value;
            r.field == field && r.body == body && bytes[offset..next] == r.Raw()
  {
    var (tag, mid) := VarintAt(bytes, offset).value;
    var (length, start) := VarintAt(bytes, mid).value;
    var (body, next) := LengthDelimitedAt(bytes, mid).value;
    VarintExactly(bytes, offset, tag, mid);
    VarintExactly(bytes, mid, length, start);
    r := Record(bytes[offset..mid], tag / 8, bytes[mid..start], body);
    Adjoin(bytes, offset, mid, start, next);
  }

  lemma Adjoin(bytes: Bytes, a: nat, b: nat, c: nat, d: nat)
    requires a <= b <= c <= d <= |bytes|
    ensures bytes[a..b] + bytes[b..c] + bytes[c..d] == bytes[a..d]
    ensures d == |bytes| && b == c ==> bytes[a..b] + bytes[b..] == bytes[a..]
  {
  }

  lemma KindIsRecord(item: Buffer) returns (r: Record)
    requires ItemKind(item).Success?
    ensures r.WellFormed() && item == r.Raw() && ItemKind(item) == Success(r.field)
  {
    r := FieldIsRecord(item, 0);
    var (field, _, next) := FieldAt(item, 0).value;
    assert KindFrom(item, next, Some(field)).Success?;
    assert next == |item|;
    assert item[0..next] == item;
  }

  lemma RecordHasKind(r: Record)
    requires r.WellFormed() && |r.Raw()| < TWO_63
    ensures ItemKind(r.Raw()) == Success(r.field)
  {
    var item := r.Raw();
    assert item[0..|item|] == item;
    FieldParses(item, 0, r, |item|);
    assert KindFrom(item, |item|, Some(r.field)) == Success(r.field);
  }

  /** An item has a kind exactly when it is one well-formed field and nothing else. */
  lemma KindExactly(item: Buffer, kind: nat)
    ensures ItemKind(item) == Success(kind) <==> exists r: Record :: r.WellFormed() && item == r.Raw() && r.field == kind
  {
    if ItemKind(item) == Success(kind) {
      var r := KindIsRecord(item);
    }
    if r: Record :| r.WellFormed() && item == r.Raw() && r.field == kind {
      RecordHasKind(r);
    }
  }

  function Flatten(records: seq<Record>): Bytes {
    if records == [] then [] else records[0].Raw() + Flatten(records[1..])
  }

  /** Every record parses, and those that carry an item (field 1) carry a single-field one. */
  predicate Accepted(records: seq<Record>) {
    forall i :: 0 <= i < |records| ==>
      records[i].WellFormed() && (records[i].field == 1 ==> ItemKind(records[i].body).Success?)
  }

  /** The item a record carries, if it is field 1. */
  function Carried(r: Record): seq<ScannedItem>
    requires r.field == 1 ==> ItemKind(r.body).Success?
  {
    if r.field == 1 then [ScannedItem(ItemKind(r.body).value, r.body)] else []
  }

  function ItemsOf(records: seq<Record>): seq<ScannedItem>
    requires Accepted(records)
  {
    if records == [] then [] else Carried(records[0]) + ItemsOf(records[1..])
  }

  lemma FirstRecordLies(bytes: Bytes, offset: nat, first: Bytes, rest: Bytes)
    requires offset <= |bytes| && bytes[offset..] == first + rest
    ensures offset + |first| <= |bytes|
    ensures bytes[offset..offset + |first|] == first && bytes[offset + |first|..] == rest
  {
    var n := |bytes| - offset;
    assert bytes[offset..|bytes|] == first + rest;
    SliceOfSlice(bytes, offset, |bytes|, 0, |first|);
    SliceOfSlice(bytes, offset, |bytes|, |first|, n);
    assert (first + rest)[0..|first|] == first;
    assert (first + rest)[|first|..n] == rest;
  }

  lemma ItemsStep(bytes: Buffer, offset: nat, r: Record, next: nat, items: seq<ScannedItem>)
    requires offset < |bytes| && FieldAt(bytes, offset) == Success((r.field, r.body, next))
    requires r.field == 1 ==> ItemKind(r.body).Success?
    requires ItemsFrom(bytes, next) == Success(items)
    ensures ItemsFrom(bytes, offset) == Success(Carried(r) + items)
  {
    PrependNothing([], ItemsFrom(bytes, next));
  }

  lemma RecordLeads(bytes: Buffer, offset: nat, r: Record, rest: Bytes) returns (next: nat)
    requires offset <= |bytes| && bytes[offset..] == r.Raw() + rest && r.WellFormed()
    ensures offset < next <= |bytes| && bytes[next..] == rest
    ensures FieldAt(bytes, offset) == Success((r.field, r.body, next))
  {
    var raw := r.Raw();
    next := offset + |raw|;
    FirstRecordLies(bytes, offset, raw, rest);
    FieldParses(bytes, offset, r, next);
  }

  lemma FirstRecordParses(bytes: Buffer, offset: nat, records: seq<Record>) returns (next: nat)
    requires offset <= |bytes| && bytes[offset..] == Flatten(records) && records != [] && Accepted(records)
    ensures offset < next <= |bytes| && bytes[next..] == Flatten(records[1..]) && Accepted(records[1..])
    ensures FieldAt(bytes, offset) == Success((records[0].field, records[0].body, next))
    ensures records[0].field == 1 ==> ItemKind(records[0].body).Success?
    ensures ItemsOf(records) == Carried(records[0]) + ItemsOf(records[1..])
  {
    next := RecordLeads(bytes, offset, records[0], Flatten(records[1..]));
  }

  lemma {:induction false} RecordsParse(bytes: Buffer, offset: nat, records: seq<Record>)
    requires offset <= |bytes| && bytes[offset..] == Flatten(records) && Accepted(records)
    ensures ItemsFrom(bytes, offset) == Success(ItemsOf(records))
    decreases |records|
  {
    if records == [] {
      assert offset == |bytes|;
    } else {
      var next := FirstRecordParses(bytes, offset, records);
      RecordsParse(bytes, next, records[1..]);
      ItemsStep(bytes, offset, records[0], next, ItemsOf(records[1..]));
    }
  }

  lemma {:induction false} BytesAreRecords(bytes: Buffer, offset: nat) returns (records: seq<Record>)
    requires offset <= |bytes| && ItemsFrom(bytes, offset).Success?
    ensures Accepted(records) && bytes[offset..] == Flatten(records)
    ensures ItemsFrom(bytes, offset) == Success(ItemsOf(records))
    decreases |bytes| - offset
  {
    if offset == |bytes| {
      records := [];
    } else {
      var r := FieldIsRecord(bytes, offset);
      var (_, _, next) := FieldAt(bytes, offset).value;
      var rest := BytesAreRecords(bytes, next);
      records := [r] + rest;
      assert records[1..] == rest;
      Adjoin(bytes, offset, next, next, |bytes|);
      assert bytes[offset..] == r.Raw() + Flatten(rest);
      RecordsParse(bytes, offset, records);
    }
  }

  /** The scan accepts exactly the byte strings that records tile, and lists their items in order. */
  lemma ScanExactly(bytes: Buffer, items: seq<ScannedItem>)
    ensures BlockItems(bytes) == Success(items) <==>
            exists records :: Accepted(records) && bytes == Flatten(records) && items == ItemsOf(records)
  {
    assert bytes[0..] == bytes;
    if BlockItems(bytes) == Success(items) {
      var records := BytesAreRecords(bytes, 0);
    }
    if records :| Accepted(records) && bytes == Flatten(records) && items == ItemsOf(records) {
      RecordsParse(bytes, 0, records);
    }
  }

  /** No scanned item is empty, and each item's bytes fit in the block. */
  lemma {:induction false} ItemsNonEmpty(bytes: Buffer, offset: nat)
    requires offset <= |bytes| && ItemsFrom(bytes, offset).Success?
    ensures forall i :: 0 <= i < |ItemsFrom(bytes, offset).value| ==>
              var item := ItemsFrom(bytes, offset).value[i];
              item.bytes != [] && ItemKind(item.bytes) == Success(item.kind)
    ensures |ItemsFrom(bytes, offset).value| <= |bytes| - offset
    decreases |bytes| - offset
  {
    if offset < |bytes| {
      var (_, _, next) := FieldAt(bytes, offset).value;
      ItemsNonEmpty(bytes, next);
    }
  }

  // ----- Canonical encoding ------------------------------------------------------------------

  /** Base 128 Varints of the Protocol Buffers encoding: seven bits a byte, lowest first. */
  function EncodeVarint(v: nat): Bytes {
    if v < 128 then [v] else [128 + v % 128] + EncodeVarint(v / 128)
  }

  function EncodeField(field: nat, body: Bytes): Bytes {
    EncodeVarint(8 * field + LEN) + EncodeVarint(|body|) + body
  }

  datatype Field = Field(number: nat, payload: Bytes)

  function EncodeItem(item: Field): Bytes {
    EncodeField(item.number, item.payload)
  }

  function EncodeBlock(items: seq<Field>): Bytes {
    if items == [] then [] else EncodeField(1, EncodeItem(items[0])) + EncodeBlock(items[1..])
  }

  lemma {:induction false} EncodedVarint(v: nat, groups: nat)
    requires v < Pow2(7 * groups) && groups >= 1
    ensures var e := EncodeVarint(v);
            && 1 <= |e| <= groups && Groups(e) == v && e[|e| - 1] < 128
            && forall i :: 0 <= i < |e| - 1 ==> e[i] >= 128
  {
    if v >= 128 {
      SevenMore(0, 7 * (groups - 1));
      assert groups > 1;
      EncodedVarint(v / 128, groups - 1);
      assert EncodeVarint(v)[1..] == EncodeVarint(v / 128);
    }
  }

  lemma EncodedIsVarint(v: u64)
    ensures IsVarint(EncodeVarint(v), v)
  {
    Pow2Of64();
    Pow2Add(64, 6);
    LeTimes(Pow2(64), Pow2(6));
    EncodedVarint(v, 10);
  }

  lemma EncodedIsRecord(field: nat, body: Bytes) returns (r: Record)
    requires 8 * field + LEN < TWO_64 && |body| < TWO_64
    ensures r.WellFormed() && r.Raw() == EncodeField(field, body) && r.field == field && r.body == body
  {
    EncodedIsVarint(8 * field + LEN);
    EncodedIsVarint(|body|);
    r := Record(EncodeVarint(8 * field + LEN), field, EncodeVarint(|body|), body);
  }

  lemma {:induction false} EncodedIsAccepted(items: seq<Field>) returns (records: seq<Record>)
    requires forall i :: 0 <= i < |items| ==> 8 * items[i].number + LEN < TWO_64
    requires |EncodeBlock(items)| < TWO_63
    ensures Accepted(records) && Flatten(records) == EncodeBlock(items)
    ensures ItemsOf(records) == Map((f: Field) => ScannedItem(f.number, EncodeItem(f)), items)
    decreases |items|
  {
    if items == [] {
      records := [];
    } else {
      var rest := EncodedIsAccepted(items[1..]);
      var item := EncodedIsRecord(items[0].number, items[0].payload);
      KindExactly(EncodeItem(items[0]), items[0].number);
      var r := EncodedIsRecord(1, EncodeItem(items[0]));
      records := [r] + rest;
      OneMore(r, rest);
      MapStep((f: Field) => ScannedItem(f.number, EncodeItem(f)), items);
    }
  }

  lemma OneMore(r: Record, rest: seq<Record>)
    requires r.WellFormed() && (r.field == 1 ==> ItemKind(r.body).Success?) && Accepted(rest)
    ensures Accepted([r] + rest) && Flatten([r] + rest) == r.Raw() + Flatten(rest)
    ensures ItemsOf([r] + rest) == Carried(r) + ItemsOf(rest)
  {
    assert ([r] + rest)[1..] == rest;
  }

  lemma MapStep<A, B>(f: A -> B, s: seq<A>)
    requires s != []
    ensures Map(f, s) == [f(s[0])] + Map(f, s[1..])
  {
  }

  /** Scanning the encoding of any list of single-field items gives back those items and kinds. */
  lemma EncodeThenScan(items: seq<Field>)
    requires forall i :: 0 <= i < |items| ==> 8 * items[i].number + LEN < TWO_64
    requires |EncodeBlock(items)| < TWO_63
    ensures BlockItems(EncodeBlock(items))
            == Success(Map((f: Field) => ScannedItem(f.number, EncodeItem(f)), items))
  {
    var records := EncodedIsAccepted(items);
    ScanExactly(EncodeBlock(items), ItemsOf(records));
  }

  /** Behind records that scan, the first field or item in error is the scan's error. */
  lemma {:induction false} ScanErrors(bytes: Buffer, offset: nat, records: seq<Record>, at: nat, e: Error)
    requires offset <= at < |bytes| && bytes[offset..at] == Flatten(records) && Accepted(records)
    requires match FieldAt(bytes, at)
             case Failure(f) => f == e
             case Success((field, body, _)) => field == 1 && ItemKind(body) == Failure(e)
    ensures ItemsFrom(bytes, offset) == Failure(e)
    decreases |records|
  {
    if records == [] {
      assert offset == at;
    } else {
      var next := RecordLeadsWithin(bytes, offset, at, records);
      ScanErrors(bytes, next, records[1..], at, e);
      ErrorStep(bytes, offset, records[0], next, e);
    }
  }

  lemma ErrorStep(bytes: Buffer, offset: nat, r: Record, next: nat, e: Error)
    requires offset < |bytes| && FieldAt(bytes, offset) == Success((r.field, r.body, next))
    requires r.field == 1 ==> ItemKind(r.body).Success?
    requires ItemsFrom(bytes, next) == Failure(e)
    ensures ItemsFrom(bytes, offset) == Failure(e)
  {
  }

  lemma RecordLeadsWithin(bytes: Buffer, offset: nat, at: nat, records: seq<Record>) returns (next: nat)
    requires offset <= at <= |bytes| && bytes[offset..at] == Flatten(records) && records != [] && Accepted(records)
    ensures offset < next <= at && bytes[next..at] == Flatten(records[1..]) && Accepted(records[1..])
    ensures FieldAt(bytes, offset) == Success((records[0].field, records[0].body, next))
    ensures records[0].field == 1 ==> ItemKind(records[0].body).Success?
  {
    var raw, rest := records[0].Raw(), Flatten(records[1..]);
    next := offset + |raw|;
    SplitWithin(bytes, offset, at, raw, rest);
    FieldParses(bytes, offset, records[0], next);
  }

  lemma SplitWithin(bytes: Bytes, offset: nat, at: nat, first: Bytes, rest: Bytes)
    requires offset <= at <= |bytes| && bytes[offset..at] == first + rest
    ensures offset + |first| <= at && bytes[offset..offset + |first|] == first && bytes[offset + |first|..at] == rest
  {
    SliceOfSlice(bytes, offset, at, 0, |first|);
    SliceOfSlice(bytes, offset, at, |first|, at - offset);
    assert (first + rest)[0..|first|] == first;
    assert (first + rest)[|first|..at - offset] == rest;
  }
}
