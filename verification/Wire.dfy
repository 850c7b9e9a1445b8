/** The shallow protobuf scan that slices each BlockItem's exact bytes out of a Block. */
module Wire {
  import opened Common

  const F_BLOCK_HEADER := 1
  const F_EVENT_HEADER := 2
  const F_ROUND_HEADER := 3
  const F_SIGNED_TRANSACTION := 4
  const F_TRANSACTION_RESULT := 5
  const F_TRANSACTION_OUTPUT := 6
  const F_STATE_CHANGES := 7
  const F_FILTERED_SINGLE_ITEM := 8
  const F_BLOCK_PROOF := 9
  const F_RECORD_FILE := 10
  const F_TRACE_DATA := 11
  const F_BLOCK_FOOTER := 12
  const F_REDACTED_ITEM := 19

  /** Protobuf wire type of a length-delimited field. */
  const LEN := 2

  // ----- Varints -----------------------------------------------------------------------------

  /** The number 7-bit groups stand for, least significant group first. */
  function Groups(b: Bytes): nat {
    if b == [] then 0 else b[0] % 128 + 128 * Groups(b[1..])
  }

  /** How many bytes from `offset` on have their continuation bit set. */
  function Continuations(bytes: Bytes, offset: nat): (k: nat)
    ensures k == 0 || offset + k <= |bytes|
    ensures forall i :: offset <= i < offset + k ==> bytes[i] >= 128
    ensures offset + k < |bytes| ==> bytes[offset + k] < 128
    decreases |bytes| - offset
  {
    if offset < |bytes| && bytes[offset] >= 128 then 1 + Continuations(bytes, offset + 1) else 0
  }

  /** Value and end of the varint at `offset`: at most ten bytes, bits above 64 dropped. */
  function VarintAt(bytes: Bytes, offset: nat): Result<(u64, nat)> {
    var k := Continuations(bytes, offset);
    if k >= 10 then Failure(VarintTooLong)
    else if offset + k >= |bytes| then Failure(TruncatedVarint)
    else Success((Groups(bytes[offset..offset + k + 1]) % TWO_64, offset + k + 1))
  }

  lemma {:induction false} GroupsPush(b: Bytes, last: byte)
    ensures Groups(b + [last]) == Groups(b) + ShiftLeft(last % 128, 7 * |b|)
    ensures Groups(b) < Pow2(7 * |b|)
  {
    if b != [] {
      GroupsPush(b[1..], last);
      assert (b + [last])[1..] == b[1..] + [last];
      SevenMore(last % 128, 7 * |b[1..]|);
    }
  }

  lemma SevenMore(n: nat, k: nat)
    ensures ShiftLeft(n, k + 7) == 128 * ShiftLeft(n, k)
    ensures Pow2(k + 7) == 128 * Pow2(k)
  {
    assert ShiftLeft(n, k + 2) == 4 * ShiftLeft(n, k) && Pow2(k + 2) == 4 * Pow2(k);
    assert ShiftLeft(n, k + 4) == 16 * ShiftLeft(n, k) && Pow2(k + 4) == 16 * Pow2(k);
    assert ShiftLeft(n, k + 6) == 64 * ShiftLeft(n, k) && Pow2(k + 6) == 64 * Pow2(k);
  }

  /** `value | group << shift` in 64 bits, where value has no bit at or above `shift`. */
  function OrShifted(value: u64, group: nat, shift: nat): (r: u64)
    requires group < 128 && shift <= 63 && value < Pow2(shift)
    ensures r == (value + ShiftLeft(group, shift)) % TWO_64
  {
    Pow2Of64();
    Pow2Add(shift, 64 - shift);
    ShiftLeftMultiplies(group, shift);
    OrFits(value, group, Pow2(shift), Pow2(64 - shift));
    value + ShiftLeft(group, shift) % TWO_64
  }

  lemma OrFits(value: nat, group: nat, p: nat, q: nat)
    requires value < p && p * q == TWO_64
    ensures value + group * p % TWO_64 == (value + group * p) % TWO_64
    ensures value + group * p % TWO_64 < TWO_64
  {
    var h, l := group / q, group % q;
    calc {
      group * p;
      (h * q + l) * p;
      h * q * p + l * p;
      { assert h * q * p == h * (q * p); }
      h * TWO_64 + l * p;
    }
    assert (l + 1) * p <= q * p by { assert q * p == (l + 1) * p + (q - l - 1) * p; }
    assert l * p + p == (l + 1) * p;
    DivModUnique(group * p, TWO_64, h, l * p);
    DivModUnique(value + group * p, TWO_64, h, value + l * p);
  }

  lemma GroupsBound(b: Bytes, shift: nat)
    requires shift == 7 * |b| <= 63
    ensures Groups(b) < Pow2(shift) <= TWO_64
  {
    GroupsPush(b, 0);
    Pow2Of64();
    Pow2Add(shift, 64 - shift);
    LeTimes(Pow2(shift), Pow2(64 - shift));
  }

  /** Takes one more byte into a varint being read. */
  method AddGroup(ghost read: Bytes, value: u64, b: byte, shift: nat) returns (v: u64)
    requires shift == 7 * |read| <= 63 && value == Groups(read)
    ensures v == Groups(read + [b]) % TWO_64
    ensures shift < 63 ==> v == Groups(read + [b])
  {
    GroupsBound(read, shift);
    GroupsPush(read, b);
    v := OrShifted(value, b % 128, shift);
    if shift < 63 {
      GroupsBound(read + [b], shift + 7);
    }
  }

  /** `e` is one encoding, minimal or padded, of v. */
  predicate IsVarint(e: Bytes, v: nat) {
    && 1 <= |e| <= 10
    && (forall i :: 0 <= i < |e| - 1 ==> e[i] >= 128)
    && e[|e| - 1] < 128
    && v == Groups(e) % TWO_64
  }

  lemma {:induction false} ContinuationsAre(bytes: Bytes, offset: nat, k: nat)
    requires k == 0 || offset + k <= |bytes|
    requires forall i :: offset <= i < offset + k ==> bytes[i] >= 128
    ensures Continuations(bytes, offset) == k + Continuations(bytes, offset + k)
    decreases k
  {
    if k > 0 {
      ContinuationsAre(bytes, offset + 1, k - 1);
    }
  }

  method ReadVarint(bytes: Bytes, start: nat) returns (r: Result<(u64, nat)>)
    ensures r == VarintAt(bytes, start)
  {
    var offset, shift := start, 0;
    var value: u64 := 0;
    ghost var read: Bytes := [];
    while true
      invariant offset == start + |read| && shift == 7 * |read| <= 63
      invariant offset <= |bytes| ==> read == bytes[start..offset]
      invariant offset > |bytes| ==> read == []
      invariant forall i :: start <= i < offset ==> bytes[i] >= 128
      invariant value == Groups(read)
      decreases |bytes| - offset
    {
      ContinuationsAre(bytes, start, |read|);
      if offset >= |bytes| {
        return Failure(TruncatedVarint);
      }
      var b := bytes[offset];
      value := AddGroup(read, value, b, shift);
      offset := offset + 1;
      read := read + [b];
      SliceGrows(bytes, start, offset - 1);
      if b < 128 {
        return Success((value, offset));
      }
      shift := shift + 7;
      if shift > 63 {
        return Failure(VarintTooLong);
      }
    }
  }

  /** Reading succeeds exactly on the encodings, and yields the number encoded. */
  lemma VarintExactly(bytes: Bytes, offset: nat, v: nat, next: nat)
    requires v < TWO_64
    ensures VarintAt(bytes, offset) == Success((v, next))
            <==> offset < next <= |bytes| && IsVarint(bytes[offset..next], v)
  {
    if offset < next <= |bytes| && IsVarint(bytes[offset..next], v) {
      var e := bytes[offset..next];
      forall i | offset <= i < next - 1 ensures bytes[i] >= 128 { assert bytes[i] == e[i - offset]; }
      assert bytes[next - 1] == e[|e| - 1];
      ContinuationsAre(bytes, offset, next - 1 - offset);
    }
  }

  // ----- Length-delimited fields -------------------------------------------------------------

  function LengthDelimitedAt(bytes: Bytes, offset: nat): Result<(Bytes, nat)> {
    var (length, start) :- VarintAt(bytes, offset);
    if start + length >= TWO_64 then Failure(LengthOverflow)
    else if start + length > |bytes| then Failure(LengthExceedsInput)
    else Success((bytes[start..start + length], start + length))
  }

  method ReadLengthDelimited(bytes: Bytes, offset: nat) returns (r: Result<(Bytes, nat)>)
    ensures r == LengthDelimitedAt(bytes, offset)
  {
    var head :- ReadVarint(bytes, offset);
    var (length, start) := head;
    if start + length >= TWO_64 {  // checked_add
      return Failure(LengthOverflow);
    }
    var end := start + length;
    if end > |bytes| {
      return Failure(LengthExceedsInput);
    }
    return Success((bytes[start..end], end));
  }

  // ----- Scanning ----------------------------------------------------------------------------

  /** One scanned BlockItem: the oneof field it populates and its exact bytes. */
  datatype ScannedItem = ScannedItem(kind: nat, bytes: Bytes)

  /** A field header and body at `offset`: field number, body, and where the next field starts. */
  function FieldAt(bytes: Bytes, offset: nat): (r: Result<(nat, Bytes, nat)>)
    ensures r.Success? ==> offset < r.value.2 <= |bytes|
  {
    var (tag, afterTag) :- VarintAt(bytes, offset);
    if tag % 8 != LEN then Failure(UnsupportedWireType)
    else
      var (body, next) :- LengthDelimitedAt(bytes, afterTag);
      Success((tag / 8, body, next))
  }

  function KindFrom(bytes: Bytes, offset: nat, found: Option<nat>): Result<nat>
    requires offset <= |bytes|
    decreases |bytes| - offset
  {
    if offset == |bytes| then
      if found.Some? then Success(found.value) else Failure(EmptyItem)
    else
      var (field, _, next) :- FieldAt(bytes, offset);
      if found.Some? then Failure(MultipleOneofFields) else KindFrom(bytes, next, Some(field))
  }

  function ItemKind(item: Bytes): Result<nat> {
    KindFrom(item, 0, None)
  }

  function Prepend(items: seq<ScannedItem>, r: Result<seq<ScannedItem>>): Result<seq<ScannedItem>> {
    match r
    case Success(rest) => Success(items + rest)
    case Failure(e) => Failure(e)
  }

  lemma PrependNothing(items: seq<ScannedItem>, r: Result<seq<ScannedItem>>)
    ensures Prepend([], r) == r
    ensures Prepend(items, Success([])) == Success(items)
  {
    assert items + [] == items;
    if r.Success? {
      assert [] + r.value == r.value;
    }
  }

  lemma PrependTwice(a: seq<ScannedItem>, b: seq<ScannedItem>, r: Result<seq<ScannedItem>>)
    ensures Prepend(a, Prepend(b, r)) == Prepend(a + b, r)
  {
    if r.Success? {
      assert a + (b + r.value) == a + b + r.value;
    }
  }

  function ItemsFrom(bytes: Bytes, offset: nat): Result<seq<ScannedItem>>
    requires offset <= |bytes|
    decreases |bytes| - offset
  {
    if offset == |bytes| then Success([])
    else
      var (field, body, next) :- FieldAt(bytes, offset);
      if field == 1 then
        var kind :- ItemKind(body);
        Prepend([ScannedItem(kind, body)], ItemsFrom(bytes, next))
      else
        ItemsFrom(bytes, next)
  }

  function BlockItems(bytes: Bytes): Result<seq<ScannedItem>> {
    ItemsFrom(bytes, 0)
  }

  /** The head both scan loops share: a tag of wire type 2, then a length-delimited body. */
  method ReadField(bytes: Bytes, offset: nat) returns (r: Result<(nat, Bytes, nat)>)
    ensures r == FieldAt(bytes, offset)
  {
    var head :- ReadVarint(bytes, offset);
    var (tag, afterTag) := head;
    if tag % 8 != LEN {
      return Failure(UnsupportedWireType);
    }
    var value :- ReadLengthDelimited(bytes, afterTag);
    var (body, next) := value;
    return Success((tag / 8, body, next));
  }

  method ScanItemKind(item: Bytes) returns (r: Result<nat>)
    ensures r == ItemKind(item)
  {
    var offset := 0;
    var found: Option<nat> := None;
    while offset < |item|
      invariant 0 <= offset <= |item|
      invariant KindFrom(item, offset, found) == ItemKind(item)
    {
      var read :- ReadField(item, offset);
      var (field, _, next) := read;
      if found.Some? {
        return Failure(MultipleOneofFields);
      }
      found := Some(field);
      offset := next;
    }
    return if found.Some? then Success(found.value) else Failure(EmptyItem);
  }

  method ScanBlockItems(bytes: Bytes) returns (r: Result<seq<ScannedItem>>)
    ensures r == BlockItems(bytes)
  {
    var items: seq<ScannedItem> := [];
    var offset := 0;
    PrependNothing([], BlockItems(bytes));
    while offset < |bytes|
      invariant 0 <= offset <= |bytes|
      invariant BlockItems(bytes) == Prepend(items, ItemsFrom(bytes, offset))
    {
      var read :- ReadField(bytes, offset);
      var (field, body, next) := read;
      if field == 1 {
        var kind :- ScanItemKind(body);
        PrependTwice(items, [ScannedItem(kind, body)], ItemsFrom(bytes, next));
        items := items + [ScannedItem(kind, body)];
      }
      offset := next;
    }
    PrependNothing(items, BlockItems(bytes));
    return Success(items);
  }

  // ----- Errors ------------------------------------------------------------------------------

  /** A varint fails as too long after ten bytes that all go on, and as truncated where the input ends before that. */
  lemma VarintErrors(bytes: Bytes, offset: nat)
    requires offset <= |bytes|
    ensures VarintAt(bytes, offset) == Failure(VarintTooLong) <==>
              offset + 10 <= |bytes| && forall i :: offset <= i < offset + 10 ==> bytes[i] >= 128
    ensures VarintAt(bytes, offset) == Failure(TruncatedVarint) <==>
              |bytes| < offset + 10 && forall i :: offset <= i < |bytes| ==> bytes[i] >= 128
    ensures VarintAt(bytes, offset).Failure? ==> VarintAt(bytes, offset).error in {VarintTooLong, TruncatedVarint}
  {
    if offset + 10 <= |bytes| && forall i :: offset <= i < offset + 10 ==> bytes[i] >= 128 {
      ContinuationsAre(bytes, offset, 10);
    }
    if |bytes| < offset + 10 && forall i :: offset <= i < |bytes| ==> bytes[i] >= 128 {
      ContinuationsAre(bytes, offset, |bytes| - offset);
    }
  }

  /** A field fails with its tag's error, its wire type, its length's error, or a length beyond 64 bits or the input. */
  lemma FieldErrors(bytes: Bytes, offset: nat)
    ensures match VarintAt(bytes, offset)
            case Failure(e) => FieldAt(bytes, offset) == Failure(e)
            case Success((tag, afterTag)) =>
              if tag % 8 != 2 then FieldAt(bytes, offset) == Failure(UnsupportedWireType)
              else
                match VarintAt(bytes, afterTag)
                case Failure(e) => FieldAt(bytes, offset) == Failure(e)
                case Success((length, start)) =>
                  && (start + length >= 0x1_0000_0000_0000_0000 ==> FieldAt(bytes, offset) == Failure(LengthOverflow))
                  && (|bytes| < start + length < 0x1_0000_0000_0000_0000 ==>
                        FieldAt(bytes, offset) == Failure(LengthExceedsInput))
                  && (start + length <= |bytes| && start + length < 0x1_0000_0000_0000_0000 ==>
                        FieldAt(bytes, offset) == Success((tag / 8, bytes[start..start + length], start + length)))
  {
  }

  /** An item fails as empty, with an error of its first two fields, or for having a second one. */
  lemma ItemErrors(item: Bytes)
    ensures item == [] ==> ItemKind(item) == Failure(EmptyItem)
    ensures item != [] ==>
              match FieldAt(item, 0)
              case Failure(e) => ItemKind(item) == Failure(e)
              case Success((field, _, next)) =>
                if next == |item| then ItemKind(item) == Success(field)
                else
                  match FieldAt(item, next)
                  case Failure(e) => ItemKind(item) == Failure(e)
                  case Success(_) => ItemKind(item) == Failure(MultipleOneofFields)
  {
    if item != [] && FieldAt(item, 0).Success? {
      var (field, _, next) := FieldAt(item, 0).value;
      assert ItemKind(item) == KindFrom(item, next, Some(field));
      SecondField(item, next, field);
    }
  }

  lemma SecondField(item: Bytes, next: nat, field: nat)
    requires next <= |item|
    ensures next == |item| ==> KindFrom(item, next, Some(field)) == Success(field)
    ensures next < |item| ==>
              KindFrom(item, next, Some(field))
              == if FieldAt(item, next).Failure? then Failure(FieldAt(item, next).error) else Failure(MultipleOneofFields)
  {
  }
}
