// Keeping the allowlisted chunks of a PNG chunk stream.
module Png {

  import opened ByteStrings

  const SIGNATURE: Bytes := [0x89, 0x50, 0x4E, 0x47, 0x0D, 0x0A, 0x1A, 0x0A]

  /** Four bytes as a big-endian number. */
  function BE32(a: byte, b: byte, c: byte, d: byte): nat {
    a * 0x100_0000 + b * 0x1_0000 + c * 0x100 + d
  }

  /** A four-letter chunk type. */
  datatype Tag = Tag(a: byte, b: byte, c: byte, d: byte)

  // The chunk types, as their four ASCII letters.
  const IHDR: Tag := Tag(0x49, 0x48, 0x44, 0x52)
  const PLTE: Tag := Tag(0x50, 0x4C, 0x54, 0x45)
  const IDAT: Tag := Tag(0x49, 0x44, 0x41, 0x54)
  const IEND: Tag := Tag(0x49, 0x45, 0x4E, 0x44)
  const tRNS: Tag := Tag(0x74, 0x52, 0x4E, 0x53)
  const cHRM: Tag := Tag(0x63, 0x48, 0x52, 0x4D)
  const gAMA: Tag := Tag(0x67, 0x41, 0x4D, 0x41)
  const iCCP: Tag := Tag(0x69, 0x43, 0x43, 0x50)
  const sBIT: Tag := Tag(0x73, 0x42, 0x49, 0x54)
  const sRGB: Tag := Tag(0x73, 0x52, 0x47, 0x42)
  const bKGD: Tag := Tag(0x62, 0x4B, 0x47, 0x44)
  const hIST: Tag := Tag(0x68, 0x49, 0x53, 0x54)
  const pHYs: Tag := Tag(0x70, 0x48, 0x59, 0x73)
  const sPLT: Tag := Tag(0x73, 0x50, 0x4C, 0x54)
  const acTL: Tag := Tag(0x61, 0x63, 0x54, 0x4C)
  const fcTL: Tag := Tag(0x66, 0x63, 0x54, 0x4C)
  const fdAT: Tag := Tag(0x66, 0x64, 0x41, 0x54)

  /** The allowlist: critical chunks, those that affect rendering, those of an animation. */
  predicate IsKept(t: Tag) {
    || t == IHDR || t == PLTE || t == IDAT || t == IEND
    || t == tRNS || t == cHRM || t == gAMA || t == iCCP || t == sBIT
    || t == sRGB || t == bKGD || t == hIST || t == pHYs || t == sPLT
    || t == acTL || t == fcTL || t == fdAT
  }

  // ---------- the chunk stream ----------

  /** A chunk: its type and the bytes it occupies (length, type, data and CRC). */
  datatype Chunk = Chunk(tag: Tag, raw: Bytes) {

    predicate Valid() {
      && 12 <= |raw| && BE32(raw[0], raw[1], raw[2], raw[3]) == |raw| - 12
      && tag == Tag(raw[4], raw[5], raw[6], raw[7])
    }
  }

  datatype Token = Bad | ChunkHere(chunk: Chunk, next: nat)

  /** The bytes from i to j; recursive, so that only SliceIs relates it to d[i..j]. */
  function Slice(d: Bytes, i: nat, j: nat): Bytes
    requires i <= j <= |d|
  {
    if i == j then [] else Slice(d, i, j - 1) + [d[j - 1]]
  }

  lemma {:induction false} SliceIs(d: Bytes, i: nat, j: nat)
    requires i <= j <= |d|
    ensures Slice(d, i, j) == d[i..j]
  {
    if i < j {
      SliceIs(d, i, j - 1);
    }
  }

  lemma {:induction false} SliceShift(pre: Bytes, d: Bytes, i: nat, j: nat)
    requires i <= j <= |d|
    ensures Slice(pre + d, |pre| + i, |pre| + j) == Slice(d, i, j)
  {
    if i < j {
      SliceShift(pre, d, i, j - 1);
    }
  }

  /** The chunk at i, when its header and all it announces lie inside the buffer. */
  function Lex(d: Bytes, i: nat): (t: Token)
    requires i <= |d|
    ensures t.ChunkHere? ==> i + 12 <= t.next <= |d|
  {
    if i + 8 > |d| then Bad
    else
      var end := i + 8 + BE32(d[i], d[i + 1], d[i + 2], d[i + 3]) + 4;
      var tag := Tag(d[i + 4], d[i + 5], d[i + 6], d[i + 7]);
      if end > |d| then Bad else ChunkHere(Chunk(tag, Slice(d, i, end)), end)
  }

  datatype Parsed = Malformed | Stream(chunks: seq<Chunk>)

  function Cons(c: Chunk, p: Parsed): Parsed {
    if p.Stream? then Stream([c] + p.chunks) else Malformed
  }

  /** The chunks from i up to and including the first IEND. */
  function Parse(d: Bytes, i: nat): Parsed
    requires i <= |d|
    decreases |d| - i
  {
    match Lex(d, i)
    case Bad => Malformed
    case ChunkHere(c, next) =>
      if c.tag == IEND then Stream([c]) else Cons(c, Parse(d, next))
  }

  function Concat(cs: seq<Chunk>): Bytes {
    if cs == [] then [] else cs[0].raw + Concat(cs[1..])
  }

  function Kept(cs: seq<Chunk>): seq<Chunk> {
    if cs == [] then []
    else if IsKept(cs[0].tag) then [cs[0]] + Kept(cs[1..])
    else Kept(cs[1..])
  }

  /** Well-formed chunks of which the last, and no other, is an IEND. */
  ghost predicate ValidStream(cs: seq<Chunk>)
    decreases |cs|
  {
    && cs != [] && cs[0].Valid()
    && if cs[0].tag == IEND then |cs| == 1 else ValidStream(cs[1..])
  }

  datatype Result = NotPNG | Broken | Ok(out: Bytes)

  predicate Signed(d: Bytes) {
    |d| >= 8 && d[..8] == SIGNATURE
  }

  /** What StripPNG computes: parse, keep, print. */
  function Stripped(d: Bytes): Result {
    if !Signed(d) then NotPNG
    else
      var p := Parse(d, 8);
      if p.Malformed? then Broken else Ok(SIGNATURE + Concat(Kept(p.chunks)))
  }

  // ---------- parse and print ----------

  lemma {:induction false} ParseShift(pre: Bytes, d: Bytes, i: nat)
    requires i <= |d|
    ensures Parse(pre + d, |pre| + i) == Parse(d, i)
    decreases |d| - i
  {
    LexShift(pre, d, i);
    var t := Lex(d, i);
    if t.ChunkHere? && t.chunk.tag != IEND {
      ParseShift(pre, d, t.next);
    }
  }

  lemma LexShift(pre: Bytes, d: Bytes, i: nat)
    requires i <= |d|
    ensures Lex(d, i).Bad? ==> Lex(pre + d, |pre| + i) == Bad
    ensures Lex(d, i).ChunkHere? ==>
              Lex(pre + d, |pre| + i) == ChunkHere(Lex(d, i).chunk, |pre| + Lex(d, i).next)
  {
    var e, n := pre + d, |pre|;
    if i + 8 <= |d| {
      assert e[n + i] == d[i] && e[n + i + 1] == d[i + 1] && e[n + i + 2] == d[i + 2] && e[n + i + 3] == d[i + 3];
      assert e[n + i + 4] == d[i + 4] && e[n + i + 5] == d[i + 5] && e[n + i + 6] == d[i + 6] &&
             e[n + i + 7] == d[i + 7];
      var end := i + 8 + BE32(d[i], d[i + 1], d[i + 2], d[i + 3]) + 4;
      if end <= |d| {
        SliceShift(pre, d, i, end);
      }
    }
  }

  lemma LexChunk(c: Chunk, rest: Bytes)
    requires c.Valid()
    ensures Lex(c.raw + rest, 0) == ChunkHere(c, |c.raw|)
  {
    var d := c.raw + rest;
    SliceIs(d, 0, |c.raw|);
    assert d[..|c.raw|] == c.raw;
    assert d[0] == c.raw[0] && d[1] == c.raw[1] && d[2] == c.raw[2] && d[3] == c.raw[3];
    assert d[4] == c.raw[4] && d[5] == c.raw[5] && d[6] == c.raw[6] && d[7] == c.raw[7];
  }

  lemma FirstOff(cs: seq<Chunk>, after: Bytes)
    requires cs != []
    ensures Concat(cs) + after == cs[0].raw + (Concat(cs[1..]) + after)
    ensures cs == [cs[0]] + cs[1..]
  {
    Assoc(cs[0].raw, Concat(cs[1..]), after);
  }

  /** Printing and parsing again gives back the chunks, whatever follows the IEND. */
  lemma {:induction false} ParsePrint(cs: seq<Chunk>, after: Bytes)
    requires ValidStream(cs)
    ensures Parse(Concat(cs) + after, 0) == Stream(cs)
  {
    FirstOff(cs, after);
    ParseChunk(cs[0], Concat(cs[1..]) + after);
    if cs[0].tag != IEND {
      ParsePrint(cs[1..], after);
    }
  }

  lemma ParseChunk(c: Chunk, rest: Bytes)
    requires c.Valid()
    ensures Parse(c.raw + rest, 0) == if c.tag == IEND then Stream([c]) else Cons(c, Parse(rest, 0))
  {
    LexChunk(c, rest);
    ParseShift(c.raw, rest, 0);
  }

  lemma LexValid(d: Bytes, i: nat)
    requires i <= |d| && Lex(d, i).ChunkHere?
    ensures Lex(d, i).chunk.Valid() && Lex(d, i).chunk.raw == d[i..Lex(d, i).next]
  {
    SliceIs(d, i, Lex(d, i).next);
  }

  lemma {:induction false} ParseIsPrinted(d: Bytes, i: nat)
    requires i <= |d| && Parse(d, i).Stream?
    ensures ValidStream(Parse(d, i).chunks)
    ensures Concat(Parse(d, i).chunks) <= d[i..]
    decreases |d| - i
  {
    LexValid(d, i);
    var t := Lex(d, i);
    if t.chunk.tag == IEND {
      PrefixGlued(d, i, t.next, []);
    } else {
      ParseIsPrinted(d, t.next);
      MoreIsPrinted(d, i, t.chunk, t.next, Parse(d, t.next).chunks);
    }
  }

  lemma MoreIsPrinted(d: Bytes, i: nat, c: Chunk, next: nat, cs: seq<Chunk>)
    requires i <= next <= |d| && c.Valid() && c.raw == d[i..next] && c.tag != IEND
    requires ValidStream(cs) && Concat(cs) <= d[next..]
    ensures ValidStream([c] + cs) && Concat([c] + cs) <= d[i..]
  {
    PrefixGlued(d, i, next, Concat(cs));
    assert ([c] + cs)[1..] == cs;
  }

  lemma PrefixGlued(d: Bytes, i: nat, m: nat, b: Bytes)
    requires i <= m <= |d| && b <= d[m..]
    ensures d[i..m] + b <= d[i..]
  {
    assert d[i..] == d[i..m] + d[m..];
  }

  /** d is the signature, these chunks, and any bytes at all. */
  ghost predicate Laid(d: Bytes, cs: seq<Chunk>) {
    ValidStream(cs) && SIGNATURE + Concat(cs) <= d
  }

  lemma Split(d: Bytes, pre: Bytes, mid: Bytes)
    requires pre + mid <= d
    ensures d == pre + (mid + d[|pre| + |mid|..]) && pre <= d
  {
    assert d == (pre + mid) + d[|pre + mid|..];
    Assoc(pre, mid, d[|pre| + |mid|..]);
  }

  lemma LaidIsParsed(d: Bytes, cs: seq<Chunk>)
    requires Laid(d, cs)
    ensures Signed(d) && Parse(d, 8) == Stream(cs)
  {
    var mid := Concat(cs);
    Split(d, SIGNATURE, mid);
    var rest := mid + d[8 + |mid|..];
    ParsePrint(cs, d[8 + |mid|..]);
    ParseShift(SIGNATURE, rest, 0);
  }

  lemma ParsedIsLaid(d: Bytes)
    requires Signed(d) && Parse(d, 8).Stream?
    ensures Laid(d, Parse(d, 8).chunks)
  {
    ParseIsPrinted(d, 8);
    PrefixGlued(d, 0, 8, Concat(Parse(d, 8).chunks));
    assert d[0..8] == SIGNATURE && d[0..] == d;
  }

  /** StripPNG succeeds exactly when the walk over the chunks reaches an IEND inside the
      buffer, and then writes the signature and the kept chunks up to and including it. */
  lemma StripExactly(d: Bytes, out: Bytes)
    ensures Stripped(d) == Ok(out) <==>
            exists cs :: Laid(d, cs) && out == SIGNATURE + Concat(Kept(cs))
  {
    if Signed(d) && Parse(d, 8).Stream? {
      ParsedIsLaid(d);
    }
    forall cs | Laid(d, cs)
      ensures Signed(d) && Parse(d, 8) == Stream(cs)
    {
      LaidIsParsed(d, cs);
    }
  }

  // ---------- what is kept ----------

  lemma {:induction false} KeptFacts(cs: seq<Chunk>)
    ensures forall c | c in Kept(cs) :: c in cs && IsKept(c.tag)
    ensures Kept(Kept(cs)) == Kept(cs)
    ensures |Concat(Kept(cs))| <= |Concat(cs)|
    ensures ValidStream(cs) ==> ValidStream(Kept(cs))
  {
    if cs != [] {
      KeptFacts(cs[1..]);
      if IsKept(cs[0].tag) {
        assert Kept(cs)[1..] == Kept(cs[1..]);
      }
    }
  }

  /** Keeping drops nothing but chunks outside the allowlist and keeps the order. */
  lemma {:induction false} KeptAppend(cs: seq<Chunk>, c: Chunk)
    ensures Kept(cs + [c]) == if IsKept(c.tag) then Kept(cs) + [c] else Kept(cs)
  {
    if cs == [] {
      assert Kept([c]) == if IsKept(c.tag) then [c] else [];
    } else {
      assert (cs + [c])[1..] == cs[1..] + [c];
      KeptAppend(cs[1..], c);
    }
  }

  lemma {:induction false} ConcatAppend(cs: seq<Chunk>, c: Chunk)
    ensures Concat(cs + [c]) == Concat(cs) + c.raw
  {
    if cs == [] {
      assert cs + [c] == [c];
      assert Concat([c]) == c.raw + Concat([c][1..]);
    } else {
      assert (cs + [c])[1..] == cs[1..] + [c];
      ConcatAppend(cs[1..], c);
    }
  }

  /** The output is a PNG chunk stream that reads back as exactly the kept chunks, all of
      them allowlisted, and it is no longer than the input. */
  lemma StrippedReadsBack(d: Bytes)
    requires Stripped(d).Ok?
    ensures var out, kept := Stripped(d).out, Kept(Parse(d, 8).chunks);
            && Signed(out) && Parse(out, 8) == Stream(kept)
            && (forall c | c in kept :: IsKept(c.tag))
            && |out| <= |d|
  {
    var cs := Parse(d, 8).chunks;
    ParsedIsLaid(d);
    KeptFacts(cs);
    LaidIsParsed(Stripped(d).out, Kept(cs));
  }

  /** Stripping its own output changes nothing. */
  lemma StripIdempotent(d: Bytes)
    requires Stripped(d).Ok?
    ensures Stripped(Stripped(d).out) == Stripped(d)
  {
    StrippedReadsBack(d);
    KeptFacts(Parse(d, 8).chunks);
  }

  /** Bytes appended to an accepted input change nothing: they follow its IEND. */
  lemma TrailingBytesDropped(d: Bytes, after: Bytes)
    requires Stripped(d).Ok?
    ensures Stripped(d + after) == Stripped(d)
  {
    var cs := Parse(d, 8).chunks;
    ParsedIsLaid(d);
    LaidIsParsed(d + after, cs);
  }

  // ---------- the same, on literal bytes ----------

  function Finished(p: Parsed): Result {
    if p.Malformed? then Broken else Ok(SIGNATURE + Concat(Kept(p.chunks)))
  }

  lemma AsFinished(x: Bytes)
    ensures Stripped(SIGNATURE + x) == Finished(Parse(x, 0))
  {
    ParseShift(SIGNATURE, x, 0);
    assert (SIGNATURE + x)[..8] == SIGNATURE;
  }

  /** r with these bytes placed right after its signature. */
  function After(item: Bytes, r: Result): Result {
    if r.Ok? && |r.out| >= 8 then Ok(r.out[..8] + item + r.out[8..]) else r
  }

  lemma OneChunk(c: Chunk, p: Parsed)
    ensures Finished(Cons(c, p)) == if IsKept(c.tag) then After(c.raw, Finished(p)) else Finished(p)
  {
    if p.Stream? {
      assert ([c] + p.chunks)[1..] == p.chunks;
      var k := Kept(p.chunks);
      assert ([c] + k)[1..] == k;
      Assoc(SIGNATURE, c.raw, Concat(k));
      assert (SIGNATURE + Concat(k))[..8] == SIGNATURE && (SIGNATURE + Concat(k))[8..] == Concat(k);
    }
  }

  /** These bytes are the ASCII letters of the name. */
  predicate Spells(b: Bytes, name: string) {
    |b| == |name| && forall k | 0 <= k < |b| :: b[k] as int == name[k] as int
  }

  /** The chunk types that are kept, by name. */
  predicate IsKeptName(t: Bytes) {
    || Spells(t, "IHDR") || Spells(t, "PLTE") || Spells(t, "IDAT") || Spells(t, "IEND")
    || Spells(t, "tRNS") || Spells(t, "cHRM") || Spells(t, "gAMA") || Spells(t, "iCCP")
    || Spells(t, "sBIT") || Spells(t, "sRGB") || Spells(t, "bKGD") || Spells(t, "hIST")
    || Spells(t, "pHYs") || Spells(t, "sPLT")
    || Spells(t, "acTL") || Spells(t, "fcTL") || Spells(t, "fdAT")
  }

  lemma SpelledBy(t: Tag, name: string)
    requires |name| == 4 && forall k | 0 <= k < 4 :: name[k] as int < 256
    ensures Spells([t.a, t.b, t.c, t.d], name) <==>
            t == Tag(name[0] as int, name[1] as int, name[2] as int, name[3] as int)
  {
  }

  lemma CriticalNames(t: Tag)
    ensures var b := [t.a, t.b, t.c, t.d];
            && (t == IHDR <==> Spells(b, "IHDR")) && (t == PLTE <==> Spells(b, "PLTE"))
            && (t == IDAT <==> Spells(b, "IDAT")) && (t == IEND <==> Spells(b, "IEND"))
            && (t == acTL <==> Spells(b, "acTL")) && (t == fcTL <==> Spells(b, "fcTL"))
            && (t == fdAT <==> Spells(b, "fdAT"))
  {
    SpelledBy(t, "IHDR");
    SpelledBy(t, "PLTE");
    SpelledBy(t, "IDAT");
    SpelledBy(t, "IEND");
    SpelledBy(t, "acTL");
    SpelledBy(t, "fcTL");
    SpelledBy(t, "fdAT");
  }

  lemma RenderingNames(t: Tag)
    ensures var b := [t.a, t.b, t.c, t.d];
            && (t == tRNS <==> Spells(b, "tRNS")) && (t == cHRM <==> Spells(b, "cHRM"))
            && (t == gAMA <==> Spells(b, "gAMA")) && (t == iCCP <==> Spells(b, "iCCP"))
            && (t == sBIT <==> Spells(b, "sBIT")) && (t == sRGB <==> Spells(b, "sRGB"))
            && (t == bKGD <==> Spells(b, "bKGD")) && (t == hIST <==> Spells(b, "hIST"))
            && (t == pHYs <==> Spells(b, "pHYs")) && (t == sPLT <==> Spells(b, "sPLT"))
  {
    SpelledBy(t, "tRNS");
    SpelledBy(t, "cHRM");
    SpelledBy(t, "gAMA");
    SpelledBy(t, "iCCP");
    SpelledBy(t, "sBIT");
    SpelledBy(t, "sRGB");
    SpelledBy(t, "bKGD");
    SpelledBy(t, "hIST");
    SpelledBy(t, "pHYs");
    SpelledBy(t, "sPLT");
  }

  lemma KeptNames(t: Tag)
    ensures IsKept(t) <==> IsKeptName([t.a, t.b, t.c, t.d])
  {
    CriticalNames(t);
    RenderingNames(t);
  }

  /** Nothing but the signature may come first. */
  lemma NotPNGExactly(d: Bytes)
    ensures Stripped(d) == NotPNG <==> !([0x89, 0x50, 0x4E, 0x47, 0x0D, 0x0A, 0x1A, 0x0A] <= d)
  {
  }

  lemma LastKept(c: Chunk)
    requires c.tag == IEND
    ensures Concat(Kept([c])) == c.raw
  {
    assert [c][1..] == [];
    assert Kept([c]) == [c];
    assert c.raw + [] == c.raw;
  }

  lemma ChunkFinished(c: Chunk, rest: Bytes)
    requires c.Valid()
    ensures var r := Finished(Parse(c.raw + rest, 0));
            if c.tag == IEND then r == Ok(SIGNATURE + c.raw)
            else if IsKept(c.tag) then r == After(c.raw, Stripped(SIGNATURE + rest))
            else r == Stripped(SIGNATURE + rest)
  {
    ParseChunk(c, rest);
    if c.tag == IEND {
      LastKept(c);
    } else {
      OneChunk(c, Parse(rest, 0));
      AsFinished(rest);
    }
  }

  lemma LengthOf(a: byte, b: byte, c: byte, d: byte)
    ensures BE32(a, b, c, d) == ((a as int * 256 + b as int) * 256 + c as int) * 256 + d as int
  {
  }

  /** A whole chunk right after the signature: its length, high byte first, four letters,
      that many bytes and four more. IEND ends the output whatever follows it; of the others
      exactly those on the list are kept. */
  lemma ChunkLaw(letters: Bytes, data: Bytes, crc: Bytes, rest: Bytes, a: byte, b: byte, c: byte, d: byte)
    requires |letters| == |crc| == 4
    requires ((a as int * 256 + b as int) * 256 + c as int) * 256 + d as int == |data|
    ensures var sig := [0x89, 0x50, 0x4E, 0x47, 0x0D, 0x0A, 0x1A, 0x0A];
            var chunk := [a, b, c, d] + letters + data + crc;
            var r := Stripped(sig + (chunk + rest));
            if Spells(letters, "IEND") then r == Ok(sig + chunk)
            else if IsKeptName(letters) then r == After(chunk, Stripped(sig + rest))
            else r == Stripped(sig + rest)
  {
    var t := Tag(letters[0], letters[1], letters[2], letters[3]);
    assert [t.a, t.b, t.c, t.d] == letters;
    var k := Chunk(t, [a, b, c, d] + letters + data + crc);
    LengthOf(a, b, c, d);
    assert k.raw[0] == a && k.raw[1] == b && k.raw[2] == c && k.raw[3] == d;
    assert k.raw[4] == t.a && k.raw[5] == t.b && k.raw[6] == t.c && k.raw[7] == t.d;
    NamesOf(t);
    ChunkFinished(k, rest);
    AsFinished(k.raw + rest);
  }

  lemma NamesOf(t: Tag)
    ensures var b := [t.a, t.b, t.c, t.d];
            (IsKept(t) <==> IsKeptName(b)) && (t == IEND <==> Spells(b, "IEND"))
  {
    KeptNames(t);
    CriticalNames(t);
  }

  /** A chunk whose header is cut off or that runs past the end is refused. */
  lemma CutChunkRefused(x: Bytes)
    requires |x| < 8 || |x| < 12 + ((x[0] as int * 256 + x[1] as int) * 256 + x[2] as int) * 256 + x[3] as int
    ensures Stripped([0x89, 0x50, 0x4E, 0x47, 0x0D, 0x0A, 0x1A, 0x0A] + x) == Broken
  {
    AsFinished(x);
    if |x| >= 8 {
      LengthOf(x[0], x[1], x[2], x[3]);
    }
  }

  // ---------- the loop ----------

  function Prepend(cs: seq<Chunk>, p: Parsed): Parsed {
    if p.Stream? then Stream(cs + p.chunks) else Malformed
  }

  /** The bytes before i have been read as the chunks in done and out holds what is kept
      of them. */
  ghost predicate Progress(data: Bytes, i: nat, done: seq<Chunk>, out: Bytes) {
    && 8 <= i <= |data|
    && out == SIGNATURE + Concat(Kept(done))
    && Parse(data, 8) == Prepend(done, Parse(data, i))
  }

  lemma Begin(data: Bytes)
    requires Signed(data)
    ensures Progress(data, 8, [], SIGNATURE)
  {
    var p := Parse(data, 8);
    assert p.Stream? ==> [] + p.chunks == p.chunks;
  }

  lemma Append(done: seq<Chunk>, c: Chunk, out: Bytes)
    requires out == SIGNATURE + Concat(Kept(done))
    ensures (if IsKept(c.tag) then out + c.raw else out) == SIGNATURE + Concat(Kept(done + [c]))
  {
    KeptAppend(done, c);
    if IsKept(c.tag) {
      ConcatAppend(Kept(done), c);
      Assoc(SIGNATURE, Concat(Kept(done)), c.raw);
    }
  }

  lemma Advance(data: Bytes, i: nat, done: seq<Chunk>, out: Bytes, c: Chunk, next: nat)
    requires Progress(data, i, done, out) && Lex(data, i) == ChunkHere(c, next)
    ensures var more := if IsKept(c.tag) then out + c.raw else out;
            if c.tag == IEND then Parse(data, 8) == Stream(done + [c]) && more == SIGNATURE + Concat(Kept(done + [c]))
            else Progress(data, next, done + [c], more)
  {
    Append(done, c, out);
    if c.tag != IEND {
      var p := Parse(data, next);
      if p.Stream? {
        Assoc(done, [c], p.chunks);
      }
    }
  }

  /** The chunk loop computes parse, keep, print. */
  method StripPNG(data: Bytes) returns (r: Result)
    ensures r == Stripped(data)
  {
    if |data| < 8 || data[..8] != SIGNATURE {
      return NotPNG;
    }
    var out := data[..8];
    var i := 8;
    var sawIEND := false;
    ghost var done: seq<Chunk> := [];
    Begin(data);
    while i < |data|
      invariant !sawIEND ==> Progress(data, i, done, out)
      invariant sawIEND ==> Stripped(data) == Ok(out)
    {
      if i + 8 > |data| {
        return Broken;
      }
      var length := BE32(data[i], data[i + 1], data[i + 2], data[i + 3]);
      var ctype := Tag(data[i + 4], data[i + 5], data[i + 6], data[i + 7]);
      var chunkEnd := i + 8 + length + 4;
      if chunkEnd > |data| {
        return Broken;
      }
      ghost var c := Chunk(ctype, data[i..chunkEnd]);
      SliceIs(data, i, chunkEnd);
      Advance(data, i, done, out, c, chunkEnd);
      done := done + [c];
      if IsKept(ctype) {
        out := out + data[i..chunkEnd];
      }
      if ctype == IEND {
        sawIEND := true;
        break;
      }
      i := chunkEnd;
    }
    if !sawIEND {
      return Broken;
    }
    return Ok(out);
  }
}
