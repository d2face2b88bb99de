// Text boxes that look like personal data, through patterns with an optional checksum gate.
module Pii {
  import opened Geometry
  import opened MarkerDetector
  import opened Sorting
  import opened Wrappers
  import Iban
  import Luhn

  datatype TextBox = TextBox(rect: Rect, text: string)

  /** A label, the leftmost match of its regular expression in a text ("" for none; no
      expression at all never matches), and an optional check on the match. */
  datatype Pattern = Pattern(category: string, find: Option<string -> string>, validate: Option<string -> bool>) {

    predicate Accepts(text: string) {
      && find.Some?
      && find.value(text) != ""
      && (validate.Some? ==> validate.value(find.value(text)))
    }
  }

  /** The first pattern that accepts the text decides. */
  function FirstPattern(patterns: seq<Pattern>, text: string): (o: Option<Pattern>)
    ensures o.Some? ==> o.value in patterns && o.value.Accepts(text)
    ensures o.None? ==> forall p | p in patterns :: !p.Accepts(text)
  {
    if patterns == [] then None
    else if patterns[0].Accepts(text) then Some(patterns[0])
    else FirstPattern(patterns[1..], text)
  }

  function HitOf(patterns: seq<Pattern>, box: TextBox): seq<Region> {
    var p := FirstPattern(patterns, box.text);
    if p.Some? then [Region(box.rect, p.value.category)] else []
  }

  function Hits(patterns: seq<Pattern>, boxes: seq<TextBox>): seq<Region> {
    if boxes == [] then []
    else Hits(patterns, boxes[..|boxes| - 1]) + HitOf(patterns, boxes[|boxes| - 1])
  }

  function Detected(patterns: seq<Pattern>, boxes: seq<TextBox>): seq<Region> {
    Sort(RegionLeq, Hits(patterns, boxes))
  }

  /** One text box: patterns are tried in order, and a failed check only moves on. */
  method TryPatterns(patterns: seq<Pattern>, box: TextBox, regions: seq<Region>) returns (more: seq<Region>)
    ensures more == regions + HitOf(patterns, box)
  {
    var i := 0;
    while i < |patterns|
      invariant i <= |patterns| && FirstPattern(patterns, box.text) == FirstPattern(patterns[i..], box.text)
    {
      var p := patterns[i];
      i := i + 1;
      if p.find.None? {
        continue;
      }
      var m := p.find.value(box.text);
      if m == "" {
        continue;
      }
      if p.validate.Some? {
        if !p.validate.value(m) {
          continue;
        }
      }
      return regions + [Region(box.rect, p.category)];
    }
    return regions;
  }

  method Detect(patterns: seq<Pattern>, boxes: seq<TextBox>) returns (regions: seq<Region>)
    ensures regions == Detected(patterns, boxes)
  {
    regions := [];
    var i := 0;
    while i < |boxes|
      invariant i <= |boxes| && regions == Hits(patterns, boxes[..i])
    {
      assert boxes[..i + 1][..i] == boxes[..i];
      regions := TryPatterns(patterns, boxes[i], regions);
      i := i + 1;
    }
    assert boxes[..i] == boxes;
    regions := Sort(RegionLeq, regions);
  }

  // ---------- order and gates ----------

  lemma {:induction false} HitsWithout(patterns: seq<Pattern>, boxes: seq<TextBox>, j: nat)
    requires j < |boxes|
    ensures multiset(Hits(patterns, boxes))
         == multiset(Hits(patterns, boxes[..j] + boxes[j + 1..])) + multiset(HitOf(patterns, boxes[j]))
  {
    var n := |boxes| - 1;
    if j == n {
      assert boxes[..j] + boxes[j + 1..] == boxes[..n];
    } else {
      HitsWithout(patterns, boxes[..n], j);
      RestOf(boxes, j);
    }
  }

  lemma RestOf(boxes: seq<TextBox>, j: nat)
    requires j < |boxes| - 1
    ensures var n := |boxes| - 1;
            boxes[..j] + boxes[j + 1..] == (boxes[..n][..j] + boxes[..n][j + 1..]) + [boxes[n]]
  {
  }

  lemma {:induction false} HitsRearranged(patterns: seq<Pattern>, s: seq<TextBox>, t: seq<TextBox>)
    requires multiset(s) == multiset(t)
    ensures multiset(Hits(patterns, s)) == multiset(Hits(patterns, t))
  {
    assert |s| == |multiset(s)| == |multiset(t)| == |t|;
    if s != [] {
      var n := |s| - 1;
      assert s == s[..n] + [s[n]];
      assert s[n] in multiset(t);
      var j :| 0 <= j < |t| && t[j] == s[n];
      RemoveAt(t, j);
      assert multiset(s[..n]) == multiset(s) - multiset{s[n]};
      HitsRearranged(patterns, s[..n], t[..j] + t[j + 1..]);
      HitsWithout(patterns, t, j);
    }
  }

  /** The regions do not depend on the order in which the text boxes were recognized. */
  lemma BoxOrderIrrelevant(patterns: seq<Pattern>, boxes: seq<TextBox>, other: seq<TextBox>)
    requires multiset(boxes) == multiset(other)
    ensures Detected(patterns, boxes) == Detected(patterns, other)
  {
    HitsRearranged(patterns, boxes, other);
    RegionOrder();
    SortSorts(RegionLeq, Hits(patterns, boxes));
    SortSorts(RegionLeq, Hits(patterns, other));
    SortedIsUnique(RegionLeq, Detected(patterns, boxes), Detected(patterns, other));
  }

  lemma {:induction false} HitsMean(patterns: seq<Pattern>, boxes: seq<TextBox>, r: Region)
    ensures r in Hits(patterns, boxes) <==> exists b :: b in boxes && r in HitOf(patterns, b)
  {
    if boxes != [] {
      var n := |boxes| - 1;
      HitsMean(patterns, boxes[..n], r);
      assert boxes == boxes[..n] + [boxes[n]];
    }
  }

  /** A region is reported exactly for each text box some pattern accepts, under the label
      of the first that does. */
  lemma ReportedExactly(patterns: seq<Pattern>, boxes: seq<TextBox>, r: Region)
    ensures r in Detected(patterns, boxes) <==> exists b :: b in boxes && r in HitOf(patterns, b)
  {
    var h := Hits(patterns, boxes);
    HitsMean(patterns, boxes, r);
    assert r in Detected(patterns, boxes) <==> r in multiset(Detected(patterns, boxes));
    assert r in h <==> r in multiset(h);
  }

  /** Pattern k matches the text, its check takes the match, and no earlier pattern gets so
      far. */
  ghost predicate TakenBy(patterns: seq<Pattern>, k: int, text: string) {
    && 0 <= k < |patterns| && Takes(patterns[k], text)
    && forall j | 0 <= j < k :: !Takes(patterns[j], text)
  }

  ghost predicate Takes(p: Pattern, text: string) {
    match p.find
    case None => false
    case Some(find) => find(text) != "" && (p.validate == None || p.validate.value(find(text)))
  }

  /** This text box is reported as this region: its rectangle, under the label of the first
      pattern that takes its text. */
  ghost predicate Yields(patterns: seq<Pattern>, b: TextBox, r: Region) {
    exists k :: TakenBy(patterns, k, b.text) && r == Region(b.rect, patterns[k].category)
  }

  lemma {:induction false} FirstByIndex(patterns: seq<Pattern>, text: string) returns (k: int)
    ensures FirstPattern(patterns, text).Some? ==>
              TakenBy(patterns, k, text) && FirstPattern(patterns, text).value == patterns[k]
    ensures FirstPattern(patterns, text).None? ==> forall j :: !TakenBy(patterns, j, text)
  {
    k := 0;
    if patterns != [] && !patterns[0].Accepts(text) {
      k := FirstByIndex(patterns[1..], text);
      k := k + 1;
    }
    if FirstPattern(patterns, text).None? {
      forall j ensures !TakenBy(patterns, j, text) {
        assert 0 <= j < |patterns| ==> patterns[j] in patterns;
      }
    }
  }

  lemma OnlyFirst(patterns: seq<Pattern>, text: string, j: int, k: int)
    requires TakenBy(patterns, j, text) && TakenBy(patterns, k, text)
    ensures j == k
  {
  }

  lemma HitByIndex(patterns: seq<Pattern>, b: TextBox)
    ensures |HitOf(patterns, b)| == if IsTaken(patterns, b.text) then 1 else 0
    ensures forall r :: r in HitOf(patterns, b) <==> Yields(patterns, b, r)
  {
    var k := FirstByIndex(patterns, b.text);
    forall r ensures r in HitOf(patterns, b) <==> Yields(patterns, b, r) {
      if j :| TakenBy(patterns, j, b.text) && r == Region(b.rect, patterns[j].category) {
        OnlyFirst(patterns, b.text, j, k);
      }
    }
  }

  /** By rectangle and label: a region is reported exactly for the text boxes that yield it. */
  lemma ReportedByIndex(patterns: seq<Pattern>, boxes: seq<TextBox>, r: Region)
    ensures r in Detected(patterns, boxes) <==> exists b :: b in boxes && Yields(patterns, b, r)
  {
    ReportedExactly(patterns, boxes, r);
    forall b | b in boxes ensures r in HitOf(patterns, b) <==> Yields(patterns, b, r) {
      HitByIndex(patterns, b);
    }
  }

  ghost predicate IsTaken(patterns: seq<Pattern>, text: string) {
    exists k :: TakenBy(patterns, k, text)
  }

  /** The places of the text boxes that some pattern takes. */
  ghost function Taken(patterns: seq<Pattern>, boxes: seq<TextBox>): set<int> {
    set i | 0 <= i < |boxes| && IsTaken(patterns, boxes[i].text)
  }

  lemma TakenLast(patterns: seq<Pattern>, boxes: seq<TextBox>, b: TextBox)
    ensures |Taken(patterns, boxes + [b])| == |Taken(patterns, boxes)| + if IsTaken(patterns, b.text) then 1 else 0
  {
    var before, all := Taken(patterns, boxes), boxes + [b];
    assert all[|boxes|] == b && forall i | 0 <= i < |boxes| :: all[i] == boxes[i];
    assert Taken(patterns, all) == if IsTaken(patterns, b.text) then before + {|boxes|} else before;
  }

  lemma {:induction false} HitsCount(patterns: seq<Pattern>, boxes: seq<TextBox>)
    ensures |Hits(patterns, boxes)| == |Taken(patterns, boxes)|
  {
    if boxes != [] {
      var n := |boxes| - 1;
      HitsCount(patterns, boxes[..n]);
      HitByIndex(patterns, boxes[n]);
      TakenLast(patterns, boxes[..n], boxes[n]);
      assert boxes == boxes[..n] + [boxes[n]];
    }
  }

  /** One region for each text box that some pattern takes, no more and no fewer. */
  lemma ReportedOnceEach(patterns: seq<Pattern>, boxes: seq<TextBox>)
    ensures |Detected(patterns, boxes)| == |Taken(patterns, boxes)|
  {
    HitsCount(patterns, boxes);
    var h, d := Hits(patterns, boxes), Detected(patterns, boxes);
    assert |h| == |multiset(h)| && |d| == |multiset(d)|;
  }

  /** The labels a pattern list gates with the card and IBAN checks. */
  ghost predicate Gated(patterns: seq<Pattern>) {
    forall p | p in patterns ::
      && (p.category == "card" ==> p.validate.Some? && forall s :: p.validate.value(s) ==> Luhn.Valid(s))
      && (p.category == "iban" ==> p.validate.Some? && forall s ::
           p.validate.value(s) ==> Iban.Valid(Iban.WithoutSpaces(s)))
  }

  /** With the default gates no text is masked as a card or an IBAN unless the matched
      characters pass the checksum. */
  lemma OnlyChecksummedNumbers(patterns: seq<Pattern>, box: TextBox, r: Region)
    requires Gated(patterns) && r in HitOf(patterns, box)
    ensures r.category == "card" ==> exists s :: s != "" && Luhn.Valid(s) && Found(patterns, "card", box.text, s)
    ensures r.category == "iban" ==> exists s ::
              s != "" && Iban.Valid(Iban.WithoutSpaces(s)) && Found(patterns, "iban", box.text, s)
  {
    var p := FirstPattern(patterns, box.text).value;
    assert Found(patterns, p.category, box.text, p.find.value(box.text));
  }

  /** s is what a pattern of this category, the first to accept the text, found in it. */
  ghost predicate Found(patterns: seq<Pattern>, category: string, text: string, s: string) {
    exists p :: p in patterns && p.category == category && FirstPattern(patterns, text) == Some(p)
                && p.find.Some? && p.find.value(text) == s
  }
}
