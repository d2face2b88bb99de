// Numbering multipart parts as they are read and putting them back in order.
module Multipart {
  import opened ByteStrings
  import opened Machine
  import opened Sorting
  import opened Wrappers

  type Header = map<string, seq<string>>

  datatype Part = Part(index: int, header: Header, body: Bytes)

  /** What is written for one part: its header and its body. */
  datatype Piece = Piece(header: Header, body: Bytes)

  function Decimal(n: nat): (s: string)
    ensures s != "" && (n > 0 ==> s[0] != '0')
  {
    var digit := ['0' + (n % 10) as char];
    if n < 10 then digit else Decimal(n / 10) + digit
  }

  /** A per-part Content-Length follows the body; every other header field is kept. */
  function Write(p: Part): Piece {
    if "Content-Length" in p.header
    then Piece(p.header["Content-Length" := [Decimal(|p.body|)]], p.body)
    else Piece(p.header, p.body)
  }

  /** The number that digits spell. */
  function Number(s: string): int {
    if s == "" then 0 else Number(s[..|s| - 1]) * 10 + (s[|s| - 1] as int - '0' as int)
  }

  /** A length is written in digits, reads back as itself and has no leading zero. */
  lemma {:induction false} DecimalReadsBack(n: nat)
    ensures Number(Decimal(n)) == n
    ensures forall c | c in Decimal(n) :: '0' <= c <= '9'
    ensures n > 0 ==> Decimal(n)[0] != '0'
  {
    var digit := ['0' + (n % 10) as char];
    assert digit[..0] == "";
    if n >= 10 {
      DecimalReadsBack(n / 10);
      assert (Decimal(n / 10) + digit)[..|Decimal(n / 10)|] == Decimal(n / 10);
    }
  }

  /** What is written for a part: its body, and its header with only a Content-Length that is
      there set to the size of that body. */
  lemma WriteExactly(p: Part, name: string)
    ensures var w := Write(p);
            && w.body == p.body && (name in w.header <==> name in p.header)
            && (name in p.header && name != "Content-Length" ==> w.header[name] == p.header[name])
            && ("Content-Length" in p.header ==>
                  |w.header["Content-Length"]| == 1 && Number(w.header["Content-Length"][0]) == |p.body|)
  {
    DecimalReadsBack(|p.body|);
  }

  function Indices(parts: seq<Part>): (s: seq<int>)
    ensures |s| == |parts| && forall k | 0 <= k < |s| :: s[k] == parts[k].index
  {
    seq(|parts|, k requires 0 <= k < |parts| => parts[k].index)
  }

  // ---------- placing parts by index ----------

  type Slots = seq<Option<Part>>

  datatype Placed = Filled(slots: Slots) | OutOfRange(index: int) | Duplicate(index: int)

  function Empty(n: nat): (s: Slots)
    ensures |s| == n && forall i | 0 <= i < n :: s[i].None?
  {
    seq(n, i => None)
  }

  /** The slots after the first k parts have been placed. */
  function Place(parts: seq<Part>, k: nat): (p: Placed)
    requires k <= |parts|
    ensures p.Filled? ==> |p.slots| == |parts|
  {
    if k == 0 then Filled(Empty(|parts|))
    else
      var p := Place(parts, k - 1);
      if !p.Filled? then p
      else
        var part := parts[k - 1];
        if part.index < 0 || part.index >= |parts| then OutOfRange(part.index)
        else if p.slots[part.index].Some? then Duplicate(part.index)
        else Filled(p.slots[part.index := Some(part)])
  }

  datatype Result =
    | Ok(pieces: seq<Piece>)
    | IndexOutOfRange(index: int)
    | IndexTwice(index: int)
    | BadBoundary
    | IndexMissing(index: int)

  /** Writing out the first k slots. */
  function Emit(slots: Slots, k: nat): (r: Result)
    requires k <= |slots|
    ensures r.Ok? ==> |r.pieces| == k
  {
    if k == 0 then Ok([])
    else
      var r := Emit(slots, k - 1);
      if !r.Ok? then r
      else if slots[k - 1].None? then IndexMissing(k - 1)
      else Ok(r.pieces + [Write(slots[k - 1].value)])
  }

  /** What Serialize writes between the boundary lines. accepts says which boundaries the
      multipart writer takes; the reader's idea of a boundary may be wider. */
  function Serialized(parts: seq<Part>, boundary: string, accepts: string -> bool): Result {
    match Place(parts, |parts|)
    case OutOfRange(i) => IndexOutOfRange(i)
    case Duplicate(i) => IndexTwice(i)
    case Filled(slots) => if accepts(boundary) then Emit(slots, |slots|) else BadBoundary
  }

  lemma {:induction false} PlaceStops(parts: seq<Part>, k: nat, n: nat)
    requires k <= n <= |parts| && !Place(parts, k).Filled?
    ensures Place(parts, n) == Place(parts, k)
  {
    if k < n {
      PlaceStops(parts, k, n - 1);
    }
  }

  lemma {:induction false} EmitStops(slots: Slots, k: nat, n: nat)
    requires k <= n <= |slots| && !Emit(slots, k).Ok?
    ensures Emit(slots, n) == Emit(slots, k)
  {
    if k < n {
      EmitStops(slots, k, n - 1);
    }
  }

  /** The first loop: each part into the slot of its index. */
  method FillSlots(parts: seq<Part>) returns (p: Placed)
    ensures p == Place(parts, |parts|)
  {
    var n := |parts|;
    var ordered := new Option<Part>[n](i => None);
    assert ordered[..] == Empty(n);
    for k := 0 to n
      invariant Place(parts, k) == Filled(ordered[..])
    {
      var part := parts[k];
      if part.index < 0 || part.index >= n {
        PlaceStops(parts, k + 1, n);
        return OutOfRange(part.index);
      }
      if ordered[part.index].Some? {
        PlaceStops(parts, k + 1, n);
        return Duplicate(part.index);
      }
      ordered[part.index] := Some(part);
    }
    return Filled(ordered[..]);
  }

  /** The second loop: the slots written out in order. */
  method WriteSlots(ordered: Slots) returns (r: Result)
    ensures r == Emit(ordered, |ordered|)
  {
    var pieces: seq<Piece> := [];
    for i := 0 to |ordered|
      invariant Emit(ordered, i) == Ok(pieces)
    {
      if ordered[i].None? {
        EmitStops(ordered, i + 1, |ordered|);
        return IndexMissing(i);
      }
      pieces := pieces + [Write(ordered[i].value)];
    }
    return Ok(pieces);
  }

  method Serialize(parts: seq<Part>, boundary: string, accepts: string -> bool) returns (r: Result)
    ensures r == Serialized(parts, boundary, accepts)
  {
    var p := FillSlots(parts);
    match p {
      case OutOfRange(i) => return IndexOutOfRange(i);
      case Duplicate(i) => return IndexTwice(i);
      case Filled(ordered) =>
        if !accepts(boundary) {
          return BadBoundary;
        }
        r := WriteSlots(ordered);
    }
  }

  // ---------- when it succeeds and what it writes ----------

  ghost predicate Fits(parts: seq<Part>, k: nat)
    requires k <= |parts|
  {
    && (forall j | 0 <= j < k :: 0 <= parts[j].index < |parts|)
    && (forall i, j | 0 <= i < j < k :: parts[i].index != parts[j].index)
  }

  ghost predicate Holds(parts: seq<Part>, k: nat, slots: Slots)
    requires k <= |parts| == |slots| && Fits(parts, k)
  {
    && (forall j | 0 <= j < k :: slots[parts[j].index] == Some(parts[j]))
    && (forall i | 0 <= i < |slots| && slots[i].Some? :: Taken(parts, k, i))
  }

  ghost predicate Taken(parts: seq<Part>, k: nat, i: int)
    requires k <= |parts|
  {
    exists j :: 0 <= j < k && parts[j].index == i
  }

  /** The first k parts can be placed exactly when their indices are distinct and in range,
      and each then stands in its own slot. */
  lemma {:induction false} PlaceMeans(parts: seq<Part>, k: nat)
    requires k <= |parts|
    ensures Place(parts, k).Filled? <==> Fits(parts, k)
    ensures Place(parts, k).Filled? ==> Holds(parts, k, Place(parts, k).slots)
  {
    if k > 0 {
      PlaceMeans(parts, k - 1);
      var p := Place(parts, k - 1);
      if p.Filled? {
        PlaceOne(parts, k, p.slots);
      }
    }
  }

  lemma PlaceOne(parts: seq<Part>, k: nat, slots: Slots)
    requires 0 < k <= |parts| == |slots| && Fits(parts, k - 1) && Holds(parts, k - 1, slots)
    ensures var i := parts[k - 1].index;
            && (Fits(parts, k) <==> 0 <= i < |parts| && slots[i].None?)
            && (Fits(parts, k) ==> Holds(parts, k, slots[i := Some(parts[k - 1])]))
  {
    var i := parts[k - 1].index;
    if 0 <= i < |parts| {
      if slots[i].Some? {
        assert Taken(parts, k - 1, i);
      } else {
        forall j: int ensures Taken(parts, k - 1, j) || i == j ==> Taken(parts, k, j) {
        }
      }
    }
  }

  lemma {:induction false} EmitMeans(slots: Slots, k: nat)
    requires k <= |slots| && forall i | 0 <= i < k :: slots[i].Some?
    ensures Emit(slots, k).Ok?
    ensures forall i | 0 <= i < k :: Emit(slots, k).pieces[i] == Write(slots[i].value)
  {
    if k > 0 {
      EmitMeans(slots, k - 1);
    }
  }

  /** By counting, distinct in-range indices fill every slot. */
  lemma AllSlotsFilled(parts: seq<Part>, slots: Slots)
    requires Place(parts, |parts|) == Filled(slots)
    ensures forall i | 0 <= i < |slots| :: slots[i].Some?
  {
    PlaceMeans(parts, |parts|);
    forall i | 0 <= i < |slots| ensures slots[i].Some? {
      var j := PermutationHits(Indices(parts), i);
      assert slots[parts[j].index] == Some(parts[j]);
    }
  }

  /** Serialize succeeds exactly when the indices are a permutation of 0..n-1 and the writer
      takes the boundary, and then writes every part at its own index; the branch for a
      missing index is never taken. */
  lemma SerializeExactly(parts: seq<Part>, boundary: string, accepts: string -> bool)
    ensures var r := Serialized(parts, boundary, accepts);
            && (r.Ok? <==> IsPermutation(Indices(parts)) && accepts(boundary))
            && (r.BadBoundary? <==> IsPermutation(Indices(parts)) && !accepts(boundary))
            && !r.IndexMissing?
            && (r.Ok? ==>
                  && |r.pieces| == |parts|
                  && forall k | 0 <= k < |parts| ::
                       0 <= parts[k].index < |parts| && r.pieces[parts[k].index] == Write(parts[k]))
  {
    PlaceMeans(parts, |parts|);
    var p := Place(parts, |parts|);
    if p.Filled? {
      AllSlotsFilled(parts, p.slots);
      EmitMeans(p.slots, |parts|);
    }
  }

  ghost predicate Rearranged(parts: seq<Part>, other: seq<Part>, perm: seq<int>) {
    && |other| == |parts| == |perm| && IsPermutation(perm)
    && forall k | 0 <= k < |perm| :: other[k] == parts[perm[k]]
  }

  /** The order of the parts in memory does not matter. */
  lemma OrderInMemoryIrrelevant(parts: seq<Part>, other: seq<Part>, perm: seq<int>, boundary: string,
                                accepts: string -> bool)
    requires Rearranged(parts, other, perm) && Serialized(parts, boundary, accepts).Ok?
    ensures Serialized(other, boundary, accepts) == Serialized(parts, boundary, accepts)
  {
    SerializeExactly(parts, boundary, accepts);
    SerializeExactly(other, boundary, accepts);
    var s, t := Indices(parts), Indices(other);
    forall j, k | 0 <= j < k < |t| ensures t[j] != t[k] {
      var a, b := perm[j], perm[k];
      assert s[a] != s[b];
    }
    forall i | 0 <= i < |parts|
      ensures Serialized(other, boundary, accepts).pieces[i] == Serialized(parts, boundary, accepts).pieces[i]
    {
      var j := PermutationHits(s, i);
      var k := PermutationHits(perm, j);
      assert other[k] == parts[j];
    }
  }

  // ---------- parsing numbers the parts ----------

  /** A body as the network delivers it: all of its bytes, or some and then a read error. */
  datatype Source = Readable(data: Bytes) | Cut(data: Bytes)

  datatype Limited = Got(data: Bytes) | ReadFailed | OverCap

  /** Everything that comes through a reader limited to so many bytes; a reader with no
      bytes left to give is at its end, whatever stands behind it. */
  function ReadAll(s: Source, limit: int): Limited {
    if limit <= 0 then Got([])
    else if limit <= |s.data| then Got(s.data[..limit])
    else if s.Cut? then ReadFailed
    else Got(s.data)
  }

  /** Reading under a cap: one byte more is let through, to notice the overflow. The limit is
      a machine sum. */
  function ReadLimited(s: Source, maxBytes: int): Limited {
    if maxBytes <= 0 then OverCap
    else
      var buf := ReadAll(s, Wrap64(maxBytes + 1));
      if buf.Got? && |buf.data| > maxBytes then OverCap else buf
  }

  /** What reading under a cap is meant to give: all of the data, or an error. */
  function Promised(s: Source, maxBytes: int): Limited {
    if maxBytes <= 0 || |s.data| > maxBytes then OverCap
    else if s.Cut? then ReadFailed
    else Got(s.data)
  }

  /** Under the largest cap the limit wraps around and every source reads as empty. */
  lemma LargestCapReadsNothing(s: Source)
    ensures ReadLimited(s, LARGEST) == Got([])
  {
  }

  /** The promise is kept for every source exactly under every other cap. */
  lemma ReadsAsPromisedExactly(maxBytes: int)
    requires -TWO63 <= maxBytes < TWO63
    ensures (forall s :: ReadLimited(s, maxBytes) == Promised(s, maxBytes)) <==> maxBytes < LARGEST
  {
    if maxBytes < LARGEST {
      forall s ensures ReadLimited(s, maxBytes) == Promised(s, maxBytes) {
        KeepsPromise(s, maxBytes);
      }
    } else {
      var s := Readable([0]);
      assert ReadLimited(s, maxBytes) != Promised(s, maxBytes);
    }
  }

  lemma KeepsPromise(s: Source, maxBytes: int)
    requires maxBytes < LARGEST
    ensures ReadLimited(s, maxBytes) == Promised(s, maxBytes)
  {
  }

  /** What the multipart reader delivers next: a part, or an error in the framing. */
  datatype Item = Item(header: Header, source: Source) | BadFraming

  datatype Payload = Parts(parts: seq<Part>) | ReadError | TooLarge

  predicate Accepted(i: Item, maxBytes: int) {
    i.Item? && ReadLimited(i.source, maxBytes).Got?
  }

  /** The bytes read of an item that is accepted. */
  function Received(i: Item, maxBytes: int): Bytes {
    if Accepted(i, maxBytes) then ReadLimited(i.source, maxBytes).data else []
  }

  /** Below the largest cap an accepted item is received whole, and was within the cap. */
  predicate ReceivedWhole(i: Item, maxBytes: int) {
    maxBytes < LARGEST ==>
      i.Item? && i.source == Readable(Received(i, maxBytes)) && |Received(i, maxBytes)| <= maxBytes
  }

  lemma AcceptedIsWhole(i: Item, maxBytes: int)
    requires Accepted(i, maxBytes)
    ensures ReceivedWhole(i, maxBytes)
  {
    if maxBytes < LARGEST {
      KeepsPromise(i.source, maxBytes);
    }
  }

  function ErrorFor(i: Item, maxBytes: int): Payload {
    if i.Item? && ReadLimited(i.source, maxBytes).OverCap? then TooLarge else ReadError
  }

  ghost predicate StopsAt(items: seq<Item>, maxBytes: int, k: int) {
    0 <= k < |items| && !Accepted(items[k], maxBytes)
    && forall j | 0 <= j < k :: Accepted(items[j], maxBytes)
  }

  ghost predicate Numbered(parts: seq<Part>) {
    forall k | 0 <= k < |parts| :: parts[k].index == k
  }

  ghost predicate AllAccepted(items: seq<Item>, maxBytes: int) {
    forall k | 0 <= k < |items| :: Accepted(items[k], maxBytes)
  }

  /** The items, each with the bytes received, numbered in order. */
  function PartsOf(items: seq<Item>, maxBytes: int): (parts: seq<Part>)
    requires forall k | 0 <= k < |items| :: items[k].Item?
    ensures |parts| == |items| && Numbered(parts)
    ensures forall k | 0 <= k < |items| ::
              parts[k].header == items[k].header && parts[k].body == Received(items[k], maxBytes)
  {
    seq(|items|, k requires 0 <= k < |items| => Part(k, items[k].header, Received(items[k], maxBytes)))
  }

  /** Every part is read and numbered in order, and is whole below the largest cap; or
      nothing is returned, and the first item that cannot be accepted decides the error. */
  method ParseMultipart(items: seq<Item>, maxBytes: int) returns (r: Payload)
    ensures AllAccepted(items, maxBytes) ==>
              r == Parts(PartsOf(items, maxBytes)) && forall i | i in items :: ReceivedWhole(i, maxBytes)
    ensures !AllAccepted(items, maxBytes) ==>
              !r.Parts? && exists k :: StopsAt(items, maxBytes, k) && r == ErrorFor(items[k], maxBytes)
  {
    var parts: seq<Part> := [];
    var idx := 0;
    while idx < |items|
      invariant idx == |parts| <= |items|
      invariant forall k | 0 <= k < idx :: Accepted(items[k], maxBytes)
      invariant forall k | 0 <= k < idx :: parts[k] == Part(k, items[k].header, Received(items[k], maxBytes))
    {
      var item := items[idx];
      if item.BadFraming? {
        assert StopsAt(items, maxBytes, idx);
        return ReadError;
      }
      match ReadLimited(item.source, maxBytes) {
        case OverCap =>
          assert StopsAt(items, maxBytes, idx);
          return TooLarge;
        case ReadFailed =>
          assert StopsAt(items, maxBytes, idx);
          return ReadError;
        case Got(data) =>
          parts := parts + [Part(idx, item.header, data)];
          idx := idx + 1;
      }
    }
    forall i | i in items ensures ReceivedWhole(i, maxBytes) {
      AcceptedIsWhole(i, maxBytes);
    }
    assert parts == PartsOf(items, maxBytes);
    return Parts(parts);
  }

  /** Parts numbered in order never meet one of the three index errors: they serialize, in
      that order, exactly when the writer takes the boundary. */
  lemma NumberedSerializes(parts: seq<Part>, boundary: string, accepts: string -> bool)
    requires Numbered(parts)
    ensures var r := Serialized(parts, boundary, accepts);
            if accepts(boundary) then
              r.Ok? && |r.pieces| == |parts| && forall k | 0 <= k < |parts| :: r.pieces[k] == Write(parts[k])
            else
              r.BadBoundary?
  {
    SerializeExactly(parts, boundary, accepts);
    assert IsPermutation(Indices(parts));
    if accepts(boundary) {
      forall k | 0 <= k < |parts| ensures Serialized(parts, boundary, accepts).pieces[k] == Write(parts[k]) {
        assert parts[k].index == k;
      }
    }
  }
}
