// Stripping APP1, APP13 and COM segments from a JPEG segment stream.
module Jpeg {

  import opened ByteStrings

  const SOI: byte := 0xD8
  const EOI: byte := 0xD9
  const SOS: byte := 0xDA
  const APP1: byte := 0xE1
  const APP13: byte := 0xED
  const COM: byte := 0xFE

  /** Two bytes as a big-endian number. */
  function BE16(hi: byte, lo: byte): int {
    hi as int * 256 + lo as int
  }

  predicate IsStripped(marker: byte) {
    marker == APP1 || marker == APP13 || marker == COM
  }

  predicate HasLength(marker: byte) {
    !(marker == SOI || marker == EOI || marker == 0x01 || 0xD0 <= marker <= 0xD7)
  }

  predicate EndsWithEOI(b: Bytes) {
    |b| >= 2 && b[|b| - 2] == 0xFF && b[|b| - 1] == EOI
  }

  // ---------- the segment stream ----------

  /** A marker without a length field, or one with, kept as the bytes it occupies. */
  datatype Segment = Alone(marker: byte) | Framed(raw: Bytes) {

    function Marker(): byte {
      if Alone? then marker else if |raw| < 2 then 0 else raw[1]
    }

    function Bytes(): Bytes {
      if Alone? then [0xFF, marker] else raw
    }

    predicate Valid() {
      if Alone? then !HasLength(marker) && marker != SOI && marker != EOI
      else
        && 4 <= |raw| && raw[0] == 0xFF && raw[1] != 0xFF
        && HasLength(raw[1]) && raw[1] != SOS
        && BE16(raw[2], raw[3]) == |raw| - 2
    }
  }

  /** How the header section ends: an EOI, or a scan with everything after it. */
  datatype Tail = End | Scan(bytes: Bytes) {

    function Bytes(): Bytes {
      if End? then [0xFF, EOI] else bytes
    }

    predicate Valid() {
      Scan? ==>
        && 4 <= |bytes| && bytes[0] == 0xFF && bytes[1] == SOS
        && 2 <= BE16(bytes[2], bytes[3]) <= |bytes| - 2
        && EndsWithEOI(bytes)
    }
  }

  /** One item of a stream; next is the offset after a segment. */
  datatype Token = Bad | EndHere | ScanHere(bytes: Bytes) | SegmentHere(segment: Segment, next: nat)

  /** The item whose marker byte is at j. */
  function ItemAt(d: Bytes, j: nat): (t: Token)
    requires 0 < j <= |d| && d[j - 1] == 0xFF && (j < |d| ==> d[j] != 0xFF)
    ensures t.SegmentHere? ==> j < t.next <= |d| && t.segment.Valid()
  {
    if j == |d| then Bad
    else
      var marker := d[j];
      if marker == SOI then Bad
      else if marker == EOI then EndHere
      else if !HasLength(marker) then SegmentHere(Alone(marker), j + 1)
      else if j + 3 > |d| then Bad
      else
        var length := BE16(d[j + 1], d[j + 2]);
        if length < 2 || j + 1 + length > |d| then Bad
        else if marker == SOS then
          if EndsWithEOI(d) then ScanHere(d[j - 1..]) else Bad
        else SegmentHere(Framed(d[j - 1..j + 1 + length]), j + 1 + length)
  }

  /** The item at i: fill bytes are skipped, the last 0xFF belongs to the marker. */
  function Lex(d: Bytes, i: nat): (t: Token)
    requires i <= |d|
    ensures t.SegmentHere? ==> i < t.next <= |d| && t.segment.Valid()
    decreases |d| - i
  {
    if i == |d| || d[i] != 0xFF then Bad
    else if i + 1 < |d| && d[i + 1] == 0xFF then Lex(d, i + 1)
    else ItemAt(d, i + 1)
  }

  datatype Parsed = Malformed | Stream(segments: seq<Segment>, tail: Tail)

  function Cons(s: Segment, p: Parsed): Parsed {
    if p.Stream? then Stream([s] + p.segments, p.tail) else Malformed
  }

  /** The segments from i on. */
  function Parse(d: Bytes, i: nat): Parsed
    requires i <= |d|
    decreases |d| - i
  {
    match Lex(d, i)
    case Bad => Malformed
    case EndHere => Stream([], End)
    case ScanHere(bytes) => Stream([], Scan(bytes))
    case SegmentHere(s, next) => Cons(s, Parse(d, next))
  }

  function Concat(ss: seq<Segment>): Bytes {
    if ss == [] then [] else ss[0].Bytes() + Concat(ss[1..])
  }

  function Print(ss: seq<Segment>, tail: Tail): Bytes {
    [0xFF, SOI] + Concat(ss) + tail.Bytes()
  }

  function Kept(ss: seq<Segment>): seq<Segment> {
    if ss == [] then []
    else if IsStripped(ss[0].Marker()) then Kept(ss[1..])
    else [ss[0]] + Kept(ss[1..])
  }

  ghost predicate ValidStream(ss: seq<Segment>, tail: Tail) {
    tail.Valid() && forall s | s in ss :: s.Valid()
  }

  datatype Result = NotJPEG | Broken | Ok(out: Bytes)

  // ---------- parse and print ----------

  lemma {:induction false} LexValid(d: Bytes, i: nat)
    requires i <= |d|
    ensures Lex(d, i).EndHere? ==> i + 2 <= |d|
    ensures Lex(d, i).ScanHere? ==> Scan(Lex(d, i).bytes).Valid() && |Lex(d, i).bytes| <= |d| - i
    ensures Lex(d, i).SegmentHere? ==> |Lex(d, i).segment.Bytes()| <= Lex(d, i).next - i
    decreases |d| - i
  {
    if i + 1 < |d| && d[i] == 0xFF {
      if d[i + 1] == 0xFF {
        LexValid(d, i + 1);
      } else if Lex(d, i).ScanHere? {
        var scan := Lex(d, i).bytes;
        assert scan[0] == d[i] && scan[1] == d[i + 1] && scan[2] == d[i + 2] && scan[3] == d[i + 3];
      }
    }
  }

  lemma {:induction false} ParseValid(d: Bytes, i: nat)
    requires i <= |d|
    ensures Parse(d, i).Stream? ==> ValidStream(Parse(d, i).segments, Parse(d, i).tail)
    decreases |d| - i
  {
    LexValid(d, i);
    var t := Lex(d, i);
    if t.SegmentHere? {
      ParseValid(d, t.next);
    }
  }

  /** What Strip computes: parse, drop, print. */
  function Stripped(d: Bytes): Result {
    if |d| < 2 || d[0] != 0xFF || d[1] != SOI then NotJPEG
    else
      var p := Parse(d, 2);
      if p.Malformed? then Broken else Ok(Print(Kept(p.segments), p.tail))
  }

  // Parsing does not look back: bytes put in front only move the offsets.

  function Moved(t: Token, n: nat): Token {
    if t.SegmentHere? then SegmentHere(t.segment, n + t.next) else t
  }

  lemma {:induction false} LexShift(pre: Bytes, d: Bytes, i: nat)
    requires i <= |d|
    ensures Lex(pre + d, |pre| + i) == Moved(Lex(d, i), |pre|)
    decreases |d| - i
  {
    if i < |d| && d[i] == 0xFF {
      if i + 1 < |d| && d[i + 1] == 0xFF {
        LexShift(pre, d, i + 1);
      }
    }
  }

  lemma {:induction false} ParseShift(pre: Bytes, d: Bytes, i: nat)
    requires i <= |d|
    ensures Parse(pre + d, |pre| + i) == Parse(d, i)
    decreases |d| - i
  {
    LexShift(pre, d, i);
    var t := Lex(d, i);
    if t.SegmentHere? {
      ParseShift(pre, d, t.next);
    }
  }

  /** A printed segment is read back as itself, whatever follows. */
  lemma ParseSegment(s: Segment, rest: Bytes)
    requires s.Valid()
    ensures Parse(s.Bytes() + rest, 0) == Cons(s, Parse(rest, 0))
  {
    ParseShift(s.Bytes(), rest, 0);
  }

  lemma ParseTail(tail: Tail, after: Bytes)
    requires tail.Valid() && (tail.Scan? ==> after == [])
    ensures Parse(tail.Bytes() + after, 0) == Stream([], tail)
  {
    var d := tail.Bytes() + after;
    if tail.Scan? {
      assert d[0..] == tail.bytes;
    }
  }

  /** Printing and parsing again gives back the stream. */
  lemma {:induction false} ParsePrint(ss: seq<Segment>, tail: Tail)
    requires ValidStream(ss, tail)
    ensures Parse(Concat(ss) + tail.Bytes(), 0) == Stream(ss, tail)
  {
    if ss == [] {
      assert Concat(ss) + tail.Bytes() == tail.Bytes() + [];
    } else {
      ValidRest(ss, tail);
      ParsePrint(ss[1..], tail);
      ParseSegment(ss[0], Concat(ss[1..]) + tail.Bytes());
      FirstOff(ss, tail.Bytes());
    }
  }

  lemma ValidRest(ss: seq<Segment>, tail: Tail)
    requires ValidStream(ss, tail) && ss != []
    ensures ss[0].Valid() && ValidStream(ss[1..], tail)
  {
    assert ss[0] in ss;
    assert forall s | s in ss[1..] :: s in ss;
  }

  lemma FirstOff(ss: seq<Segment>, after: Bytes)
    requires ss != []
    ensures Concat(ss) + after == ss[0].Bytes() + (Concat(ss[1..]) + after)
    ensures ss == [ss[0]] + ss[1..]
  {
    Assoc(ss[0].Bytes(), Concat(ss[1..]), after);
  }

  // ---------- filtering ----------

  lemma {:induction false} KeptFacts(ss: seq<Segment>)
    ensures forall s | s in Kept(ss) :: s in ss && !IsStripped(s.Marker())
    ensures Kept(Kept(ss)) == Kept(ss)
    ensures |Concat(Kept(ss))| <= |Concat(ss)|
  {
    if ss != [] {
      KeptFacts(ss[1..]);
      if !IsStripped(ss[0].Marker()) {
        assert Kept(ss)[1..] == Kept(ss[1..]);
      }
    }
  }

  /** Filtering drops nothing but stripped segments and keeps the order. */
  lemma {:induction false} KeptAppend(ss: seq<Segment>, s: Segment)
    ensures Kept(ss + [s]) == if IsStripped(s.Marker()) then Kept(ss) else Kept(ss) + [s]
  {
    if ss == [] {
      assert Kept([s]) == if IsStripped(s.Marker()) then [] else [s];
    } else {
      assert (ss + [s])[1..] == ss[1..] + [s];
      KeptAppend(ss[1..], s);
    }
  }

  lemma {:induction false} ConcatAppend(ss: seq<Segment>, s: Segment)
    ensures Concat(ss + [s]) == Concat(ss) + s.Bytes()
  {
    if ss == [] {
      assert ss + [s] == [s];
      assert Concat([s]) == s.Bytes() + Concat([s][1..]);
    } else {
      assert (ss + [s])[1..] == ss[1..] + [s];
      ConcatAppend(ss[1..], s);
    }
  }

  /** What a successful strip writes is a JPEG segment stream that reads back as exactly
      the kept segments, with no APP1, APP13 or COM before the scan. */
  lemma StrippedReadsBack(d: Bytes)
    requires Stripped(d).Ok?
    ensures var p, out := Parse(d, 2), Stripped(d).out;
            && |out| >= 2 && out[0] == 0xFF && out[1] == SOI
            && Parse(out, 2) == Stream(Kept(p.segments), p.tail)
            && (forall s | s in Parse(out, 2).segments :: s.Valid() && !IsStripped(s.Marker()))
  {
    var p := Parse(d, 2);
    ParseValid(d, 2);
    KeptFacts(p.segments);
    ParsePrint(Kept(p.segments), p.tail);
    var body := Concat(Kept(p.segments)) + p.tail.Bytes();
    ParseShift([0xFF, SOI], body, 0);
    Assoc([0xFF, SOI], Concat(Kept(p.segments)), p.tail.Bytes());
  }

  /** Stripping its own output changes nothing. */
  lemma StripIdempotent(d: Bytes)
    requires Stripped(d).Ok?
    ensures Stripped(Stripped(d).out) == Stripped(d)
  {
    StrippedReadsBack(d);
    KeptFacts(Parse(d, 2).segments);
  }

  lemma {:induction false} ParseLength(d: Bytes, i: nat)
    requires i <= |d| && Parse(d, i).Stream?
    ensures |Concat(Parse(d, i).segments)| + |Parse(d, i).tail.Bytes()| <= |d| - i
    decreases |d| - i
  {
    LexValid(d, i);
    var t := Lex(d, i);
    if t.SegmentHere? {
      ParseLength(d, t.next);
      assert Parse(d, i).segments[1..] == Parse(d, t.next).segments;
    }
  }

  /** The output is never longer than the input. */
  lemma StripShortens(d: Bytes)
    requires Stripped(d).Ok?
    ensures |Stripped(d).out| <= |d|
  {
    ParseLength(d, 2);
    KeptFacts(Parse(d, 2).segments);
  }

  // ---------- the grammar of accepted inputs ----------

  function Pad(k: nat): Bytes {
    if k == 0 then [] else [0xFF] + Pad(k - 1)
  }

  /** d opens with k fill bytes and then the bytes of one item. */
  predicate Opens(d: Bytes, k: nat, item: Bytes, rest: Bytes) {
    d == Pad(k) + (item + rest)
  }

  /** d is these segments and this tail, in order, with any number of 0xFF fill bytes
      before each, and with anything at all after an EOI that closes the header section. */
  ghost predicate Laid(d: Bytes, ss: seq<Segment>, tail: Tail)
    decreases |ss|
  {
    if ss == [] then
      exists k: nat, after: Bytes {:trigger Opens(d, k, tail.Bytes(), after)} ::
        Opens(d, k, tail.Bytes(), after) && (tail.Scan? ==> after == [])
    else
      exists k: nat, rest: Bytes {:trigger Opens(d, k, ss[0].Bytes(), rest)} ::
        Opens(d, k, ss[0].Bytes(), rest) && Laid(rest, ss[1..], tail)
  }

  lemma ParseFill(d: Bytes)
    requires d != [] && d[0] == 0xFF
    ensures Parse([0xFF] + d, 0) == Parse(d, 0)
  {
    var e := [0xFF] + d;
    ParseShift([0xFF], d, 0);
    assert Lex(e, 0) == Lex(e, 1);
  }

  lemma {:induction false} ParsePad(k: nat, d: Bytes)
    requires d != [] && d[0] == 0xFF
    ensures Parse(Pad(k) + d, 0) == Parse(d, 0)
  {
    if k == 0 {
      assert Pad(k) + d == d;
    } else {
      ParsePad(k - 1, d);
      Assoc([0xFF], Pad(k - 1), d);
      assert (Pad(k - 1) + d)[0] == 0xFF by { if k > 1 { assert Pad(k - 1)[0] == 0xFF; } }
      ParseFill(Pad(k - 1) + d);
    }
  }

  /** One more fill byte in front keeps a stream laid out as it was. */
  lemma LaidFill(d: Bytes, ss: seq<Segment>, tail: Tail)
    requires Laid(d, ss, tail)
    ensures Laid([0xFF] + d, ss, tail)
  {
    if ss == [] {
      var k: nat, after: Bytes :| Opens(d, k, tail.Bytes(), after) && (tail.Scan? ==> after == []);
      OpensFill(d, k, tail.Bytes(), after);
    } else {
      var k: nat, rest: Bytes :| Opens(d, k, ss[0].Bytes(), rest) && Laid(rest, ss[1..], tail);
      OpensFill(d, k, ss[0].Bytes(), rest);
    }
  }

  lemma OpensFill(d: Bytes, k: nat, item: Bytes, rest: Bytes)
    requires Opens(d, k, item, rest)
    ensures Opens([0xFF] + d, k + 1, item, rest)
  {
    Assoc([0xFF], Pad(k), item + rest);
  }

  lemma Cut(d: Bytes, k: nat, m: nat)
    requires k <= m <= |d|
    ensures Opens(d[k..], 0, d[k..m], d[m..])
  {
    assert d[k..] == [] + (d[k..m] + d[m..]);
  }

  lemma TailIsLaid(d: Bytes, i: nat)
    requires i < |d| && d[i] == 0xFF && (i + 1 < |d| ==> d[i + 1] != 0xFF)
    ensures var t := ItemAt(d, i + 1);
            && (t.EndHere? ==> Laid(d[i..], [], End))
            && (t.ScanHere? ==> Laid(d[i..], [], Scan(t.bytes)))
  {
    var t := ItemAt(d, i + 1);
    if t.EndHere? {
      Cut(d, i, i + 2);
      assert d[i..i + 2] == End.Bytes();
    } else if t.ScanHere? {
      Cut(d, i, |d|);
      assert d[i..|d|] == t.bytes && d[|d|..] == [];
      assert Opens(d[i..], 0, Scan(t.bytes).Bytes(), []);
    }
  }

  lemma SegmentIsLaid(d: Bytes, i: nat, ss: seq<Segment>, tail: Tail)
    requires i < |d| && d[i] == 0xFF && (i + 1 < |d| ==> d[i + 1] != 0xFF)
    requires ItemAt(d, i + 1).SegmentHere? && Laid(d[ItemAt(d, i + 1).next..], ss, tail)
    ensures Laid(d[i..], [ItemAt(d, i + 1).segment] + ss, tail)
  {
    var t := ItemAt(d, i + 1);
    Cut(d, i, t.next);
    assert d[i..t.next] == t.segment.Bytes();
    LaidCons(d[i..], 0, t.segment, d[t.next..], ss, tail);
  }

  lemma LaidCons(d: Bytes, k: nat, s: Segment, rest: Bytes, ss: seq<Segment>, tail: Tail)
    requires Opens(d, k, s.Bytes(), rest) && Laid(rest, ss, tail)
    ensures Laid(d, [s] + ss, tail)
  {
    assert ([s] + ss)[0] == s && ([s] + ss)[1..] == ss;
    assert Opens(d, k, ([s] + ss)[0].Bytes(), rest);
  }

  lemma {:induction false} ParsedIsLaid(d: Bytes, i: nat)
    requires i <= |d| && Parse(d, i).Stream?
    ensures Laid(d[i..], Parse(d, i).segments, Parse(d, i).tail)
    decreases |d| - i
  {
    if i + 1 < |d| && d[i + 1] == 0xFF {
      ParsedIsLaid(d, i + 1);
      assert [0xFF] + d[i + 1..] == d[i..];
      LaidFill(d[i + 1..], Parse(d, i + 1).segments, Parse(d, i + 1).tail);
    } else {
      TailIsLaid(d, i);
      var t := ItemAt(d, i + 1);
      if t.SegmentHere? {
        var p := Parse(d, t.next);
        ParsedIsLaid(d, t.next);
        SegmentIsLaid(d, i, p.segments, p.tail);
      }
    }
  }

  lemma TailReads(d: Bytes, k: nat, tail: Tail, after: Bytes)
    requires Opens(d, k, tail.Bytes(), after) && tail.Valid() && (tail.Scan? ==> after == [])
    ensures Parse(d, 0) == Stream([], tail)
  {
    ParsePad(k, tail.Bytes() + after);
    ParseTail(tail, after);
  }

  lemma SegmentReads(d: Bytes, k: nat, s: Segment, rest: Bytes)
    requires Opens(d, k, s.Bytes(), rest) && s.Valid()
    ensures Parse(d, 0) == Cons(s, Parse(rest, 0))
  {
    ParsePad(k, s.Bytes() + rest);
    ParseSegment(s, rest);
  }

  lemma {:induction false} LaidIsParsed(d: Bytes, ss: seq<Segment>, tail: Tail)
    requires ValidStream(ss, tail) && Laid(d, ss, tail)
    ensures Parse(d, 0) == Stream(ss, tail)
    decreases |ss|
  {
    if ss == [] {
      var k: nat, after: Bytes :| Opens(d, k, tail.Bytes(), after) && (tail.Scan? ==> after == []);
      TailReads(d, k, tail, after);
    } else {
      var k: nat, rest: Bytes :| Opens(d, k, ss[0].Bytes(), rest) && Laid(rest, ss[1..], tail);
      ValidRest(ss, tail);
      LaidIsParsed(rest, ss[1..], tail);
      SegmentReads(d, k, ss[0], rest);
      assert ss == [ss[0]] + ss[1..];
    }
  }

  /** The bytes read as a given stream are exactly the ones laid out as it: the language
      accepted after the SOI is this grammar, and it can be read in one way only. */
  lemma GrammarIsExact(d: Bytes, ss: seq<Segment>, tail: Tail)
    ensures Parse(d, 0) == Stream(ss, tail) <==> ValidStream(ss, tail) && Laid(d, ss, tail)
  {
    if Parse(d, 0) == Stream(ss, tail) {
      ParseValid(d, 0);
      ParsedIsLaid(d, 0);
      assert d[0..] == d;
    } else if ValidStream(ss, tail) && Laid(d, ss, tail) {
      LaidIsParsed(d, ss, tail);
    }
  }

  /** Strip succeeds exactly on SOI followed by a laid-out stream, and then writes SOI, the
      kept segments in order, and the tail. */
  lemma StripExactly(d: Bytes, out: Bytes)
    ensures Stripped(d) == Ok(out) <==>
            exists ss, tail :: Written(d, ss, tail, out)
  {
    if |d| >= 2 && d[0] == 0xFF && d[1] == SOI {
      assert d == [0xFF, SOI] + d[2..];
      ParseShift([0xFF, SOI], d[2..], 0);
      var p := Parse(d, 2);
      if p.Stream? {
        GrammarIsExact(d[2..], p.segments, p.tail);
        assert Written(d, p.segments, p.tail, Stripped(d).out);
      }
      forall ss, tail | Written(d, ss, tail, out)
        ensures p == Stream(ss, tail)
      {
        GrammarIsExact(d[2..], ss, tail);
      }
    }
  }

  ghost predicate Written(d: Bytes, ss: seq<Segment>, tail: Tail, out: Bytes) {
    && |d| >= 2 && d[0] == 0xFF && d[1] == SOI
    && ValidStream(ss, tail) && Laid(d[2..], ss, tail)
    && out == Print(Kept(ss), tail)
  }

  /** From i on every marker is opened by exactly one 0xFF, no segment is one that is
      stripped, and an EOI that comes before any scan is the end of the input. */
  predicate Plain(d: Bytes, i: nat)
    requires i <= |d|
    decreases |d| - i
  {
    && i + 1 < |d| && d[i] == 0xFF && d[i + 1] != 0xFF
    && match ItemAt(d, i + 1)
       case Bad => false
       case EndHere => i + 2 == |d|
       case ScanHere(_) => true
       case SegmentHere(s, next) => !IsStripped(s.Marker()) && Plain(d, next)
  }

  /** How much the kept segments and the tail take up. */
  function KeptSize(p: Parsed): nat
    requires p.Stream?
  {
    |Concat(Kept(p.segments))| + |p.tail.Bytes()|
  }

  lemma KeptSizeCons(s: Segment, p: Parsed)
    requires p.Stream?
    ensures KeptSize(Cons(s, p)) == KeptSize(p) + if IsStripped(s.Marker()) then 0 else |s.Bytes()|
  {
    assert ([s] + p.segments)[1..] == p.segments;
    assert !IsStripped(s.Marker()) ==> ([s] + Kept(p.segments))[1..] == Kept(p.segments);
  }

  lemma ItemSize(d: Bytes, i: nat)
    requires i < |d| && d[i] == 0xFF && (i + 1 < |d| ==> d[i + 1] != 0xFF)
    ensures var t := ItemAt(d, i + 1);
            && (t.EndHere? ==> i + 2 <= |d|)
            && (t.ScanHere? ==> |t.bytes| == |d| - i)
            && (t.SegmentHere? ==> |t.segment.Bytes()| == t.next - i)
  {
  }

  /** What is kept takes up the whole input exactly when the input is plain, and less
      otherwise. */
  lemma {:induction false} LengthExact(d: Bytes, i: nat)
    requires i <= |d| && Parse(d, i).Stream?
    ensures KeptSize(Parse(d, i)) <= |d| - i
    ensures KeptSize(Parse(d, i)) == |d| - i <==> Plain(d, i)
    decreases |d| - i
  {
    if i + 1 < |d| && d[i + 1] == 0xFF {
      LengthExact(d, i + 1);
    } else {
      ItemSize(d, i);
      var t := ItemAt(d, i + 1);
      if t.SegmentHere? {
        LengthExact(d, t.next);
        KeptSizeCons(t.segment, Parse(d, t.next));
      }
    }
  }

  lemma GluedFirst(d: Bytes, i: nat, s: Segment, next: nat, p: Parsed)
    requires i <= next <= |d| && s.Bytes() == d[i..next] && !IsStripped(s.Marker())
    requires p.Stream? && Concat(Kept(p.segments)) + p.tail.Bytes() == d[next..]
    ensures Concat(Kept([s] + p.segments)) + p.tail.Bytes() == d[i..]
  {
    assert ([s] + p.segments)[1..] == p.segments;
    assert ([s] + Kept(p.segments))[1..] == Kept(p.segments);
    Assoc(s.Bytes(), Concat(Kept(p.segments)), p.tail.Bytes());
    assert d[i..next] + d[next..] == d[i..];
  }

  lemma SegmentBytes(d: Bytes, i: nat)
    requires i + 1 < |d| && d[i] == 0xFF && d[i + 1] != 0xFF && ItemAt(d, i + 1).SegmentHere?
    ensures ItemAt(d, i + 1).segment.Bytes() == d[i..ItemAt(d, i + 1).next]
  {
  }

  lemma {:induction false} PlainIsPrinted(d: Bytes, i: nat)
    requires i <= |d| && Plain(d, i)
    ensures var p := Parse(d, i); p.Stream? && Concat(Kept(p.segments)) + p.tail.Bytes() == d[i..]
    decreases |d| - i
  {
    var t := ItemAt(d, i + 1);
    if t.SegmentHere? {
      PlainIsPrinted(d, t.next);
      SegmentBytes(d, i);
      GluedFirst(d, i, t.segment, t.next, Parse(d, t.next));
    }
  }

  lemma PrintSize(p: Parsed)
    requires p.Stream?
    ensures |Print(Kept(p.segments), p.tail)| == 2 + KeptSize(p)
  {
  }

  lemma VerbatimIsPlain(d: Bytes)
    requires Stripped(d) == Ok(d)
    ensures Plain(d, 2)
  {
    PrintSize(Parse(d, 2));
    LengthExact(d, 2);
  }

  lemma PlainIsVerbatim(d: Bytes)
    requires |d| >= 2 && d[0] == 0xFF && d[1] == SOI && Plain(d, 2)
    ensures Stripped(d) == Ok(d)
  {
    var p := Parse(d, 2);
    PlainIsPrinted(d, 2);
    Assoc([0xFF, SOI], Concat(Kept(p.segments)), p.tail.Bytes());
    AfterSOI(d);
  }

  lemma AfterSOI(d: Bytes)
    requires |d| >= 2 && d[0] == 0xFF && d[1] == SOI
    ensures [0xFF, SOI] + d[2..] == d
  {
  }

  /** The output is the input, byte for byte, exactly when the input is SOI and plain from
      there: the copy is not verbatim if there is a segment to strip, a fill byte, or
      anything after an EOI that comes before any scan. */
  lemma StripVerbatim(d: Bytes)
    ensures Stripped(d) == Ok(d) <==> |d| >= 2 && d[0] == 0xFF && d[1] == SOI && Plain(d, 2)
  {
    if Stripped(d) == Ok(d) {
      VerbatimIsPlain(d);
    } else if |d| >= 2 && d[0] == 0xFF && d[1] == SOI && Plain(d, 2) {
      PlainIsVerbatim(d);
    }
  }

  // ---------- the same, on literal bytes ----------

  /** What a parsed stream is stripped to. */
  function Finished(p: Parsed): Result {
    if p.Malformed? then Broken else Ok(Print(Kept(p.segments), p.tail))
  }

  /** r with these bytes placed right after its SOI. */
  function After(item: Bytes, r: Result): Result {
    if r.Ok? && |r.out| >= 2 then Ok([0xFF, 0xD8] + item + r.out[2..]) else r
  }

  lemma AsFinished(x: Bytes)
    ensures Stripped([0xFF, 0xD8] + x) == Finished(Parse(x, 0))
  {
    ParseShift([0xFF, 0xD8], x, 0);
  }

  lemma OneSegment(s: Segment, p: Parsed)
    ensures Finished(Cons(s, p)) == if IsStripped(s.Marker()) then Finished(p) else After(s.Bytes(), Finished(p))
  {
    if p.Stream? {
      assert ([s] + p.segments)[1..] == p.segments;
      var k := Kept(p.segments);
      assert ([s] + k)[1..] == k;
      Assoc(s.Bytes(), Concat(k), p.tail.Bytes());
      Assoc([0xFF, 0xD8], s.Bytes(), Concat(k) + p.tail.Bytes());
      assert Print(k, p.tail)[2..] == Concat(k) + p.tail.Bytes();
    }
  }

  lemma ParseRest(x: Bytes, k: nat)
    requires k <= |x|
    ensures Parse(x, k) == Parse(x[k..], 0)
  {
    ParseShift(x[..k], x[k..], 0);
    assert x[..k] + x[k..] == x;
  }

  /** Nothing but SOI may come first. */
  lemma NotJPEGExactly(d: Bytes)
    ensures Stripped(d) == NotJPEG <==> !([0xFF, 0xD8] <= d)
  {
  }

  /** After SOI: a marker needs its 0xFF, one more 0xFF before it is dropped, a second SOI is
      refused, and EOI ends the output whatever follows it. */
  lemma StripMarker(x: Bytes)
    ensures var r := Stripped([0xFF, 0xD8] + x);
            && (|x| < 2 || x[0] != 0xFF ==> r == Broken)
            && (|x| >= 2 && x[0] == 0xFF ==>
                  && (x[1] == 0xFF ==> r == Stripped([0xFF, 0xD8] + x[1..]))
                  && (x[1] == 0xD8 ==> r == Broken)
                  && (x[1] == 0xD9 ==> r == Ok([0xFF, 0xD8, 0xFF, 0xD9])))
  {
    AsFinished(x);
    if |x| >= 2 && x[0] == 0xFF && x[1] == 0xFF {
      AsFinished(x[1..]);
      ParseRest(x, 1);
    }
    assert [0xFF, 0xD8] + [] + [0xFF, 0xD9] == [0xFF, 0xD8, 0xFF, 0xD9];
  }

  /** TEM and the restart markers stand alone and are kept. */
  lemma StripAlone(x: Bytes)
    requires |x| >= 2 && x[0] == 0xFF && (x[1] == 0x01 || 0xD0 <= x[1] <= 0xD7)
    ensures Stripped([0xFF, 0xD8] + x) == After([0xFF, x[1]], Stripped([0xFF, 0xD8] + x[2..]))
  {
    AsFinished(x);
    AsFinished(x[2..]);
    ParseRest(x, 2);
    OneSegment(Alone(x[1]), Parse(x, 2));
  }

  lemma ScanLexed(x: Bytes, n: nat)
    requires |x| >= 4 && x[0] == 0xFF && x[1] == 0xDA && n == BE16(x[2], x[3])
    ensures Lex(x, 0) == if 2 <= n <= |x| - 2 && EndsWithEOI(x) then ScanHere(x) else Bad
  {
    assert x[0..] == x;
  }

  lemma ScanPrinted(x: Bytes)
    ensures Finished(Stream([], Scan(x))) == Ok([0xFF, 0xD8] + x)
  {
    assert [0xFF, 0xD8] + [] + x == [0xFF, 0xD8] + x;
  }

  /** A scan is copied to the end, which must be an EOI. */
  lemma ScanFinished(x: Bytes, n: nat)
    requires |x| >= 4 && x[0] == 0xFF && x[1] == 0xDA && n == BE16(x[2], x[3])
    ensures Finished(Parse(x, 0))
            == if 2 <= n <= |x| - 2 && x[|x| - 2] == 0xFF && x[|x| - 1] == 0xD9 then Ok([0xFF, 0xD8] + x) else Broken
  {
    ScanLexed(x, n);
    ScanPrinted(x);
  }

  lemma SegmentFinished(s: Segment, rest: Bytes)
    requires s.Valid()
    ensures Finished(Parse(s.Bytes() + rest, 0))
            == if IsStripped(s.Marker()) then Finished(Parse(rest, 0)) else After(s.Bytes(), Finished(Parse(rest, 0)))
  {
    ParseSegment(s, rest);
    OneSegment(s, Parse(rest, 0));
  }

  /** Any other segment that fits is read as the bytes it occupies. */
  lemma FramedFinished(x: Bytes, raw: Bytes, rest: Bytes)
    requires |raw| >= 4 && x == raw + rest && raw[0] == 0xFF && raw[1] != 0xFF && HasLength(raw[1]) && raw[1] != 0xDA
    requires BE16(raw[2], raw[3]) == |raw| - 2
    ensures Finished(Parse(x, 0))
            == if IsStripped(raw[1]) then Finished(Parse(rest, 0)) else After(raw, Finished(Parse(rest, 0)))
  {
    SegmentFinished(Framed(raw), rest);
  }

  lemma CutSegment(x: Bytes)
    requires |x| >= 2 && x[0] == 0xFF && x[1] != 0xFF && HasLength(x[1])
    requires |x| < 4 || BE16(x[2], x[3]) < 2 || |x| < 2 + BE16(x[2], x[3])
    ensures Finished(Parse(x, 0)) == Broken
  {
  }

  /** Every other marker carries the length of what follows, high byte first and its own two
      bytes included. A length below 2 or beyond the end is refused. A scan is copied to the
      end, which must be an EOI. APP1, APP13 and COM are dropped; the rest is kept. */
  lemma StripSegment(x: Bytes)
    requires |x| >= 2 && x[0] == 0xFF && x[1] != 0x01 && !(0xD0 <= x[1] <= 0xD9) && x[1] != 0xFF
    ensures var r := Stripped([0xFF, 0xD8] + x);
            if |x| < 4 then r == Broken
            else
              var n := x[2] as int * 256 + x[3] as int;
              if n < 2 || |x| < 2 + n then r == Broken
              else if x[1] == 0xDA then
                r == if x[|x| - 2] == 0xFF && x[|x| - 1] == 0xD9 then Ok([0xFF, 0xD8] + x) else Broken
              else if x[1] == 0xE1 || x[1] == 0xED || x[1] == 0xFE then
                r == Stripped([0xFF, 0xD8] + x[2 + n..])
              else
                r == After(x[..2 + n], Stripped([0xFF, 0xD8] + x[2 + n..]))
  {
    AsFinished(x);
    if |x| < 4 || BE16(x[2], x[3]) < 2 || |x| < 2 + BE16(x[2], x[3]) {
      CutSegment(x);
    } else {
      var n := BE16(x[2], x[3]);
      if x[1] == 0xDA {
        ScanFinished(x, n);
      } else {
        assert x == x[..2 + n] + x[2 + n..];
        FramedFinished(x, x[..2 + n], x[2 + n..]);
        AsFinished(x[2 + n..]);
      }
    }
  }

  /** One whole segment with any payload that fits its length field, right after SOI. */
  lemma SegmentLaw(m: byte, payload: Bytes, rest: Bytes)
    requires |payload| <= 65533
    requires m != 0x01 && !(0xD0 <= m <= 0xDA) && m != 0xFF
    ensures var size := |payload| + 2;
            var segment := [0xFF, m, size / 256, size % 256] + payload;
            Stripped([0xFF, 0xD8] + (segment + rest))
            == if m == 0xE1 || m == 0xED || m == 0xFE then Stripped([0xFF, 0xD8] + rest)
               else After(segment, Stripped([0xFF, 0xD8] + rest))
  {
    var size := |payload| + 2;
    var segment := [0xFF, m, size / 256, size % 256] + payload;
    var x := segment + rest;
    assert x[0] == 0xFF && x[1] == m && x[2] == size / 256 && x[3] == size % 256;
    StripSegment(x);
    assert x[..2 + size] == segment && x[2 + size..] == rest;
  }

  /** A kept segment stream can still lose bytes: fill bytes are not copied. */
  lemma FillBytesAreDropped()
    ensures Stripped([0xFF, SOI, 0xFF, 0xFF, EOI]) == Ok([0xFF, SOI, 0xFF, EOI])
  {
    var d: Bytes := [0xFF, SOI, 0xFF, 0xFF, EOI];
    assert Lex(d, 2) == Lex(d, 3) == EndHere;
  }

  // ---------- the loop ----------

  function Prepend(ss: seq<Segment>, p: Parsed): Parsed {
    if p.Stream? then Stream(ss + p.segments, p.tail) else Malformed
  }

  /** The bytes before i have been read as the segments in done and out holds what is
      kept of them. */
  ghost predicate Progress(data: Bytes, i: nat, done: seq<Segment>, out: Bytes) {
    && 2 <= i <= |data|
    && out == [0xFF, SOI] + Concat(Kept(done))
    && Parse(data, 2) == Prepend(done, Parse(data, i))
  }

  lemma Advance(data: Bytes, i: nat, done: seq<Segment>, out: Bytes, s: Segment, next: nat)
    requires Progress(data, i, done, out) && Lex(data, i) == SegmentHere(s, next)
    ensures Progress(data, next, done + [s], if IsStripped(s.Marker()) then out else out + s.Bytes())
  {
    KeptAppend(done, s);
    var p := Parse(data, next);
    if p.Stream? {
      Assoc(done, [s], p.segments);
    }
    if !IsStripped(s.Marker()) {
      ConcatAppend(Kept(done), s);
      Assoc([0xFF, SOI], Concat(Kept(done)), s.Bytes());
    }
  }

  lemma Finish(data: Bytes, i: nat, done: seq<Segment>, out: Bytes)
    requires Progress(data, i, done, out) && data[0] == 0xFF && data[1] == SOI
    ensures var t := Lex(data, i);
            && (t.Bad? ==> Stripped(data) == Broken)
            && (t.EndHere? ==> Stripped(data) == Ok(out + [0xFF, EOI]))
            && (t.ScanHere? ==> Stripped(data) == Ok(out + t.bytes))
  {
    assert done + [] == done;
  }

  /** The scan header and the bytes after it are everything from the marker on, and end
      as the input does. */
  lemma WholeScan(data: Bytes, k: nat, m: nat)
    requires k <= m <= |data| && k + 2 <= |data|
    ensures data[k..m] + data[m..] == data[k..]
    ensures EndsWithEOI(data[k..]) <==> EndsWithEOI(data)
  {
  }

  /** Reads the marker byte at j and the segment it opens. */
  method ReadMarker(data: Bytes, j: nat) returns (t: Token)
    requires 0 < j <= |data| && data[j - 1] == 0xFF && (j < |data| ==> data[j] != 0xFF)
    ensures t == ItemAt(data, j)
  {
    if j >= |data| {
      return Bad;
    }
    var marker := data[j];
    var markerStart := j - 1;
    var i := j + 1;
    if marker == SOI {
      return Bad;
    }
    if marker == EOI {
      return EndHere;
    }
    if !HasLength(marker) {
      return SegmentHere(Alone(marker), i);
    }
    if i + 2 > |data| {
      return Bad;
    }
    var segLen := BE16(data[i], data[i + 1]);
    if segLen < 2 {
      return Bad;
    }
    var segDataEnd := i + segLen;
    if segDataEnd > |data| {
      return Bad;
    }
    if marker == SOS {
      var scan := data[markerStart..segDataEnd] + data[segDataEnd..];
      WholeScan(data, markerStart, segDataEnd);
      if !EndsWithEOI(scan) {
        return Bad;
      }
      return ScanHere(scan);
    }
    return SegmentHere(Framed(data[markerStart..segDataEnd]), segDataEnd);
  }

  /** Skips the fill bytes at i and reads the item after them. */
  method ReadItem(data: Bytes, i: nat) returns (t: Token)
    requires i <= |data|
    ensures t == Lex(data, i)
  {
    if i >= |data| || data[i] != 0xFF {
      return Bad;
    }
    var j := i;
    while j < |data| && data[j] == 0xFF
      invariant i <= j <= |data|
      invariant i < j ==> data[j - 1] == 0xFF && Lex(data, i) == Lex(data, j - 1)
    {
      j := j + 1;
    }
    t := ReadMarker(data, j);
  }

  /** The strip loop computes parse, drop, print. */
  method Strip(data: Bytes) returns (r: Result)
    ensures r == Stripped(data)
  {
    if |data| < 2 || data[0] != 0xFF || data[1] != SOI {
      return NotJPEG;
    }
    var out: Bytes := [0xFF, SOI];
    var i := 2;
    ghost var done: seq<Segment> := [];
    while true
      invariant Progress(data, i, done, out)
      decreases |data| - i
    {
      Finish(data, i, done, out);
      var t := ReadItem(data, i);
      match t
      case Bad => return Broken;
      case EndHere => return Ok(out + [0xFF, EOI]);
      case ScanHere(scan) => return Ok(out + scan);
      case SegmentHere(s, next) =>
        Advance(data, i, done, out, s, next);
        done := done + [s];
        if !IsStripped(s.Marker()) {
          out := out + s.Bytes();
        }
        i := next;
    }
  }
}
