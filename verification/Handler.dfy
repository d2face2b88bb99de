// A whole upload request: each item sanitized, the parts put back in order, and either the
// complete sanitized body sent to the origin or nothing at all.
module Handler {
  import opened ByteStrings
  import opened Geometry
  import opened Machine
  import opened Sanitize
  import opened Wrappers
  import Decode
  import EndToEnd
  import MarkerDetector
  import Metrics
  import Multipart
  import Policy
  import Summary

  datatype Refusal = TooLarge | UnsupportedMedia | Backpressure | Rejected | BlockedItem

  /** The status a refusal is answered with. */
  function Status(r: Refusal): int {
    match r
    case TooLarge => 413
    case UnsupportedMedia => 415
    case Backpressure => 503
    case Rejected => 422
    case BlockedItem => 422
  }

  // ---------- one item ----------

  /** What Acquire answered for this item: a slot, a busy or draining pool, or the request
      was canceled while it waited. */
  datatype Admission = Admitted | Busy | GaveUp

  /** What one item meets while it is processed: how the codecs, detectors, encoder and
      audit log answer then, and what the pool answers. Items of one upload may meet
      different turns. */
  datatype Turn = Turn(env: Env, slot: Admission)

  ghost predicate AllSound(turns: seq<Turn>) {
    forall i | 0 <= i < |turns| :: turns[i].env.Sound()
  }

  datatype ItemResult = Done(out: Bytes, info: Summary.Info) | Refused(refusal: Refusal)

  function FormatName(f: Decode.Format): string {
    match f
    case JPEG => "jpeg" case PNG => "png" case GIF => "gif"
    case WebP => "webp" case BMP => "bmp" case TIFF => "tiff"
  }

  /** Lower case as far as ASCII results go: besides A to Z only the dotted capital I and the
      Kelvin sign have an ASCII letter for their lower case. Other characters stay, as no
      format name holds what they become. */
  function LowerCase(c: char): char {
    if 'A' <= c <= 'Z' then c - 'A' + 'a'
    else if c == '\U{0130}' then 'i'
    else if c == '\U{212A}' then 'k'
    else c
  }

  function Lower(s: string): string {
    if s == "" then "" else Lower(s[..|s| - 1]) + [LowerCase(s[|s| - 1])]
  }

  /** The white space of Unicode. */
  predicate IsSpace(c: char) {
    || c == ' ' || '\t' <= c <= '\r' || c == '\U{0085}' || c == '\U{00A0}' || c == '\U{1680}'
    || '\U{2000}' <= c <= '\U{200A}' || c == '\U{2028}' || c == '\U{2029}' || c == '\U{202F}'
    || c == '\U{205F}' || c == '\U{3000}'
  }

  function TrimSpace(s: string): string {
    if s != "" && IsSpace(s[0]) then TrimSpace(s[1..])
    else if s != "" && IsSpace(s[|s| - 1]) then TrimSpace(s[..|s| - 1])
    else s
  }

  function CanonicalFormat(s: string): string {
    var t := Lower(TrimSpace(s));
    if t == "jpg" then "jpeg" else t
  }

  /** An empty list allows every format; otherwise a sniffed format must be on it. */
  predicate FormatAllowed(allow: seq<string>, data: Bytes) {
    var format := Decode.SniffFormat(Decode.Prefix(data));
    allow == [] || format.None? || exists a :: a in allow && CanonicalFormat(a) == FormatName(format.value)
  }

  method IsFormatAllowed(allow: seq<string>, data: Bytes) returns (ok: bool)
    ensures ok <==> FormatAllowed(allow, data)
  {
    if |allow| == 0 {
      return true;
    }
    var format := Decode.SniffFormat(Decode.Prefix(data));
    if format.None? {
      return true;
    }
    var want := FormatName(format.value);
    var i := 0;
    while i < |allow|
      invariant i <= |allow| && forall k | 0 <= k < i :: CanonicalFormat(allow[k]) != want
    {
      if CanonicalFormat(allow[i]) == want {
        return true;
      }
      i := i + 1;
    }
    return false;
  }

  // ---------- the names of formats ----------

  lemma {:induction false} LowerExactly(s: string)
    ensures |Lower(s)| == |s|
    ensures forall k | 0 <= k < |s| ::
              if 'A' <= s[k] <= 'Z' then Lower(s)[k] as int == s[k] as int + 32
              else if s[k] == '\U{0130}' then Lower(s)[k] == 'i'
              else if s[k] == '\U{212A}' then Lower(s)[k] == 'k'
              else Lower(s)[k] == s[k]
  {
    if s != "" {
      LowerExactly(s[..|s| - 1]);
    }
  }

  predicate AllSpace(s: string) {
    forall k | 0 <= k < |s| :: IsSpace(s[k])
  }

  lemma FrontSpace(c: char, a: string, t: string, b: string)
    requires IsSpace(c) && AllSpace(a)
    ensures [c] + (a + t + b) == [c] + a + t + b && AllSpace([c] + a)
  {
  }

  /** Trimming takes white space from the ends until there is none. */
  lemma {:induction false} TrimExactly(s: string) returns (a: string, b: string)
    ensures s == a + TrimSpace(s) + b && AllSpace(a) && AllSpace(b)
    ensures var t := TrimSpace(s); t != "" ==> !IsSpace(t[0]) && !IsSpace(t[|t| - 1])
  {
    a, b := "", "";
    if s != "" && IsSpace(s[0]) {
      a, b := TrimExactly(s[1..]);
      FrontSpace(s[0], a, TrimSpace(s[1..]), b);
      assert s == [s[0]] + s[1..];
      a := [s[0]] + a;
    } else if s != "" && IsSpace(s[|s| - 1]) {
      a, b := TrimExactly(s[..|s| - 1]);
      assert s == s[..|s| - 1] + [s[|s| - 1]];
      b := b + [s[|s| - 1]];
    }
  }

  /** The name an accepted format has to have, in lower case and without spaces around it. */
  ghost predicate Lists(allow: seq<string>, name: string) {
    exists a :: a in allow && Lower(TrimSpace(a)) == name
  }

  /** Which images a route accepts: all under an empty list, otherwise those whose format is
      on it, where jpg and jpeg are the same. */
  lemma AllowedExactly(allow: seq<string>, data: Bytes)
    requires EndToEnd.IsImage(data)
    ensures var f := Decode.SniffFormat(data);
            FormatAllowed(allow, data) <==>
            || allow == []
            || (f == Some(Decode.JPEG) && (Lists(allow, "jpeg") || Lists(allow, "jpg")))
            || (f == Some(Decode.PNG) && Lists(allow, "png"))
            || (f == Some(Decode.GIF) && Lists(allow, "gif"))
            || (f == Some(Decode.WebP) && Lists(allow, "webp"))
            || (f == Some(Decode.BMP) && Lists(allow, "bmp"))
            || (f == Some(Decode.TIFF) && Lists(allow, "tiff"))
  {
    Decode.SniffSeesWhatDecodeAccepts(data);
    var f := Decode.SniffFormat(data).value;
    NamesDiffer();
    forall a ensures CanonicalFormat(a) == FormatName(f) <==>
                     Lower(TrimSpace(a)) == FormatName(f) || (f == Decode.JPEG && Lower(TrimSpace(a)) == "jpg") {
    }
  }

  lemma NamesDiffer()
    ensures forall f :: FormatName(f) != "jpg" && (f != Decode.JPEG ==> FormatName(f) != "jpeg")
  {
    assert "jpg"[0] == 'j' && "jpeg"[0] == 'j' && |"jpeg"| == 4 && |"jpg"| == 3;
    assert "png"[0] == 'p' && "gif"[0] == 'g' && "webp"[0] == 'w' && "bmp"[0] == 'b' && "tiff"[0] == 't';
  }

  // ---------- the outcome of one item ----------

  predicate NeedsSlot(route: Route, data: Bytes) {
    route.action.Masks() && EndToEnd.IsImage(data)
  }

  ghost function ItemOutcome(route: Route, data: Bytes, turn: Turn): ItemResult
    requires turn.env.Sound()
  {
    var isImage := EndToEnd.IsImage(data);
    if isImage && !FormatAllowed(route.acceptedFormats, data) then Refused(UnsupportedMedia)
    else if NeedsSlot(route, data) && turn.slot.Busy? then Refused(Backpressure)
    else if NeedsSlot(route, data) && turn.slot.GaveUp? then Refused(BlockedItem)
    else
      match Sanitized(turn.env, route, data, isImage)
      case Blocked(_) => Refused(BlockedItem)
      case Dropped => Refused(Rejected)
      case Item(out, _, boxes, categories) => Done(out, Summary.Info(boxes, categories))
  }

  method SanitizeItem(route: Route, data: Bytes, turn: Turn, m: Metrics.Metrics) returns (r: ItemResult)
    requires turn.env.Sound() && m.View().Sized()
    modifies m, m.blockedByReason
    ensures r == ItemOutcome(route, data, turn) && m.View().Sized()
  {
    var isImage := Decode.SniffFormat(Decode.Prefix(data)).Some?;
    var allowed := IsFormatAllowed(route.acceptedFormats, data);
    if isImage && !allowed {
      return Refused(UnsupportedMedia);
    }
    var needsSlot := route.action.Masks() && isImage;
    if needsSlot {
      if turn.slot.Busy? {
        return Refused(Backpressure);
      }
      if turn.slot.GaveUp? {
        return Refused(BlockedItem);
      }
    }
    var v := SanitizeImage(turn.env, route, data, isImage, m);
    match v {
      case Blocked(_) => r := Refused(BlockedItem);
      case Dropped => r := Refused(Rejected);
      case Item(out, _, boxes, categories) => r := Done(out, Summary.Info(boxes, categories));
    }
  }

  /** Every summary an item produces is tidy, so summaries can be merged in any order. */
  lemma InfoIsProper(route: Route, data: Bytes, turn: Turn)
    requires turn.env.Sound()
    ensures var r := ItemOutcome(route, data, turn); r.Done? ==> Summary.Proper(r.info)
  {
    CategoriesAreTidy(turn.env, route, data, EndToEnd.IsImage(data));
  }

  lemma CategoriesAreTidy(env: Env, route: Route, data: Bytes, isImage: bool)
    requires env.Sound()
    ensures var v := Sanitized(env, route, data, isImage); v.Item? ==> Summary.Tidy(v.categories)
  {
    if route.action.Masks() {
      MaskedIsTidy(env, route, data, isImage);
    }
  }

  lemma MaskedIsTidy(env: Env, route: Route, data: Bytes, isImage: bool)
    requires env.Sound()
    ensures var v := Masked(env, route, data, isImage); v.Item? ==> Summary.Tidy(v.categories)
  {
    var dec := Decode.Decode(env.codec, data, env.maxPixels);
    if dec.Ok? {
      var d := Detected(env, route.detectors, dec.image);
      if d.Union? {
        CategoriesMeans(d.regions);
      }
    }
  }

  /** What the summary of an item says: for an image redacted and logged, one box for each
      detected region and their labels; for anything else, nothing. */
  lemma InfoExactly(route: Route, data: Bytes, turn: Turn) returns (rs: seq<Region>)
    requires turn.env.Sound() && ItemOutcome(route, data, turn).Done?
    ensures var r := ItemOutcome(route, data, turn);
            if route.action.Masks() && EndToEnd.IsImage(data) && !route.failOpen then
              && EndToEnd.LoggedWith(turn.env, route, data, r.out, rs) && r.info.count == |rs|
              && forall c :: c in r.info.categories <==> c != "" && IsLabel(rs, c)
            else if route.action.Masks() && EndToEnd.IsImage(data) then
              r.info == Summary.NOTHING || r.info.count == |rs|
            else r.info.count == 0 && r.info.categories == []
  {
    rs := [];
    if route.action.Masks() && EndToEnd.IsImage(data) {
      EndToEnd.ImageIsLogged(turn.env, route, data);
      if Sanitized(turn.env, route, data, true).audited {
        rs := EndToEnd.MaskedReports(turn.env, route, data);
      }
    }
  }

  // ---------- the parts, processed at the same time ----------

  /** One of the three writes a part's goroutine makes into the result slices. */
  datatype Write = Output(i: nat) | Info(i: nat) | Error(i: nat)

  /** Every write of every part happens; nothing is said about the order. */
  ghost predicate Complete(schedule: seq<Write>, n: nat) {
    && (forall w | w in schedule :: w.i < n)
    && (forall i: nat | i < n :: Output(i) in schedule && Info(i) in schedule && Error(i) in schedule)
  }

  function OutputOf(r: ItemResult): Bytes { if r.Done? then r.out else [] }

  function InfoOf(r: ItemResult): Summary.Info { if r.Done? then r.info else Summary.NOTHING }

  function ErrorOf(r: ItemResult): Option<Refusal> { if r.Refused? then Some(r.refusal) else None }

  predicate Written(w: Write, results: seq<ItemResult>, outputs: seq<Bytes>, infos: seq<Summary.Info>,
                    errs: seq<Option<Refusal>>)
    requires w.i < |results| == |outputs| == |infos| == |errs|
  {
    match w
    case Output(i) => outputs[i] == OutputOf(results[i])
    case Info(i) => infos[i] == InfoOf(results[i])
    case Error(i) => errs[i] == ErrorOf(results[i])
  }

  /** One write; it leaves every write that has happened in place. */
  method Perform(w: Write, results: seq<ItemResult>, outs: array<Bytes>, sums: array<Summary.Info>,
                 fails: array<Option<Refusal>>)
    requires w.i < |results| == outs.Length == sums.Length == fails.Length
    modifies outs, sums, fails
    ensures Written(w, results, outs[..], sums[..], fails[..])
    ensures forall v: Write | v.i < |results| && old(Written(v, results, outs[..], sums[..], fails[..])) ::
              Written(v, results, outs[..], sums[..], fails[..])
  {
    match w {
      case Output(i) => outs[i] := OutputOf(results[i]);
      case Info(i) => sums[i] := InfoOf(results[i]);
      case Error(i) => fails[i] := ErrorOf(results[i]);
    }
  }

  /** Whatever the order of the writes, when all have happened each slice holds the results
      by index. */
  method Gather(results: seq<ItemResult>, schedule: seq<Write>)
    returns (outputs: seq<Bytes>, infos: seq<Summary.Info>, errs: seq<Option<Refusal>>)
    requires Complete(schedule, |results|)
    ensures |outputs| == |infos| == |errs| == |results|
    ensures forall i: nat | i < |results| :: outputs[i] == OutputOf(results[i])
    ensures forall i: nat | i < |results| :: infos[i] == InfoOf(results[i])
    ensures forall i: nat | i < |results| :: errs[i] == ErrorOf(results[i])
  {
    var n := |results|;
    var outs := new Bytes[n](_ => []);
    var sums := new Summary.Info[n](_ => Summary.NOTHING);
    var fails := new Option<Refusal>[n](_ => None);
    for k := 0 to |schedule|
      invariant forall j | 0 <= j < k :: Written(schedule[j], results, outs[..], sums[..], fails[..])
    {
      assert schedule[k] in schedule;
      Perform(schedule[k], results, outs, sums, fails);
    }
    outputs, infos, errs := outs[..], sums[..], fails[..];
    EachWritten(schedule, results, outputs, infos, errs);
  }

  lemma EachWritten(schedule: seq<Write>, results: seq<ItemResult>,
                    outputs: seq<Bytes>, infos: seq<Summary.Info>, errs: seq<Option<Refusal>>)
    requires |results| == |outputs| == |infos| == |errs| && Complete(schedule, |results|)
    requires forall j | 0 <= j < |schedule| :: Written(schedule[j], results, outputs, infos, errs)
    ensures forall i: nat | i < |results| :: outputs[i] == OutputOf(results[i])
    ensures forall i: nat | i < |results| :: infos[i] == InfoOf(results[i])
    ensures forall i: nat | i < |results| :: errs[i] == ErrorOf(results[i])
  {
    forall i: nat | i < |results|
      ensures outputs[i] == OutputOf(results[i]) && infos[i] == InfoOf(results[i]) && errs[i] == ErrorOf(results[i])
    {
      AllWritten(schedule, Output(i), results, outputs, infos, errs);
      AllWritten(schedule, Info(i), results, outputs, infos, errs);
      AllWritten(schedule, Error(i), results, outputs, infos, errs);
    }
  }

  lemma AllWritten(schedule: seq<Write>, w: Write, results: seq<ItemResult>,
                   outputs: seq<Bytes>, infos: seq<Summary.Info>, errs: seq<Option<Refusal>>)
    requires |results| == |outputs| == |infos| == |errs| && w in schedule
    requires forall v | v in schedule :: v.i < |results|
    requires forall j | 0 <= j < |schedule| :: Written(schedule[j], results, outputs, infos, errs)
    ensures Written(w, results, outputs, infos, errs)
  {
    var j :| 0 <= j < |schedule| && schedule[j] == w;
  }

  // ---------- a request ----------

  datatype Body = Parts(boundary: string, pieces: seq<Multipart.Piece>) | Raw(bytes: Bytes)

  /** The complete sanitized body for the origin, or a refusal and nothing for it. */
  datatype Reply = Forward(body: Body, info: Summary.Info) | Refuse(refusal: Refusal)

  /** The boundary of a form, and which boundaries the multipart writer takes. Reading a
      form asks only that the boundary is not empty. */
  datatype Framing = Framing(boundary: string, accepts: string -> bool) {
    predicate Writable() { accepts(boundary) }
  }

  ghost function Outcomes(route: Route, parts: seq<Multipart.Part>, turns: seq<Turn>): (rs: seq<ItemResult>)
    requires |turns| == |parts| && AllSound(turns)
    ensures |rs| == |parts|
    ensures forall i | 0 <= i < |rs| :: rs[i] == ItemOutcome(route, parts[i].body, turns[i])
  {
    seq(|parts|, i requires 0 <= i < |parts| => ItemOutcome(route, parts[i].body, turns[i]))
  }

  lemma NextOutcome(rs: seq<ItemResult>, i: nat, before: seq<ItemResult>, r: ItemResult)
    requires i < |rs| && before == rs[..i] && r == rs[i]
    ensures before + [r] == rs[..i + 1]
  {
  }

  ghost predicate AllDone(rs: seq<ItemResult>) {
    forall i | 0 <= i < |rs| :: rs[i].Done?
  }

  /** The lowest-index refusal decides. */
  ghost predicate FirstRefusal(rs: seq<ItemResult>, i: nat, r: Refusal) {
    && i < |rs| && rs[i] == Refused(r)
    && forall j | 0 <= j < i :: rs[j].Done?
  }

  /** What processMultipart must answer when the parts are read: it does not mention the
      order in which the parts were worked on. */
  ghost predicate AnswersParts(route: Route, framing: Framing, parts: seq<Multipart.Part>, turns: seq<Turn>,
                               reply: Reply)
    requires |turns| == |parts| && AllSound(turns)
  {
    var rs := Outcomes(route, parts, turns);
    if !AllDone(rs) then
      reply.Refuse? && exists i: nat :: FirstRefusal(rs, i, reply.refusal)
    else if !framing.Writable() then
      reply == Refuse(BlockedItem)
    else
      && reply.Forward? && reply.body.Parts? && reply.body.boundary == framing.boundary
      && |reply.body.pieces| == |parts|
      && (forall i | 0 <= i < |parts| ::
            reply.body.pieces[i] == Multipart.Write(parts[i].(body := rs[i].out)))
      && reply.info == Summary.MergedAll(Infos(rs))
  }

  function Infos(rs: seq<ItemResult>): (infos: seq<Summary.Info>)
    ensures |infos| == |rs| && forall i | 0 <= i < |rs| :: infos[i] == InfoOf(rs[i])
  {
    seq(|rs|, i requires 0 <= i < |rs| => InfoOf(rs[i]))
  }

  method SanitizeParts(route: Route, parts: seq<Multipart.Part>, turns: seq<Turn>, m: Metrics.Metrics)
    returns (results: seq<ItemResult>)
    requires |turns| == |parts| && AllSound(turns) && m.View().Sized()
    modifies m, m.blockedByReason
    ensures results == Outcomes(route, parts, turns) && m.View().Sized()
  {
    ghost var rs := Outcomes(route, parts, turns);
    results := [];
    for i := 0 to |parts|
      invariant m.View().Sized() && results == rs[..i]
    {
      var r := SanitizeItem(route, parts[i].body, turns[i], m);
      NextOutcome(rs, i, results, r);
      results := results + [r];
    }
  }

  method FirstError(errs: seq<Option<Refusal>>) returns (e: Option<Refusal>, ghost at: nat)
    ensures e.None? ==> forall i | 0 <= i < |errs| :: errs[i].None?
    ensures e.Some? ==> at < |errs| && errs[at] == e && forall i | 0 <= i < at :: errs[i].None?
  {
    at := 0;
    var i := 0;
    while i < |errs|
      invariant i <= |errs| && forall k | 0 <= k < i :: errs[k].None?
    {
      if errs[i].Some? {
        at := i;
        return errs[i], i;
      }
      i := i + 1;
    }
    return None, at;
  }

  method Substitute(parts: seq<Multipart.Part>, outputs: seq<Bytes>) returns (done: seq<Multipart.Part>)
    requires |outputs| == |parts|
    ensures |done| == |parts| && forall i | 0 <= i < |parts| :: done[i] == parts[i].(body := outputs[i])
  {
    done := [];
    for i := 0 to |parts|
      invariant |done| == i && forall k | 0 <= k < i :: done[k] == parts[k].(body := outputs[k])
    {
      done := done + [parts[i].(body := outputs[i])];
    }
  }

  /** For every schedule of the parts the answer is the one their results and the boundary
      determine. None of the three index errors is ever given: the parts are numbered. */
  method ProcessParts(route: Route, framing: Framing, parts: seq<Multipart.Part>, turns: seq<Turn>,
                      schedule: seq<Write>, m: Metrics.Metrics) returns (reply: Reply)
    requires |turns| == |parts| && AllSound(turns) && m.View().Sized()
    requires Multipart.Numbered(parts) && Complete(schedule, |parts|)
    modifies m, m.blockedByReason
    ensures AnswersParts(route, framing, parts, turns, reply)
  {
    var results := SanitizeParts(route, parts, turns, m);
    var outputs, infos, errs := Gather(results, schedule);
    var e, at := FirstError(errs);
    if e.Some? {
      FirstErrorIsFirstRefusal(results, errs, at, e.value);
      return Refuse(e.value);
    }
    NoErrorIsAllDone(results, errs);
    assert infos == Infos(results);
    var merged := Summary.MergeAll(infos);
    var done := Substitute(parts, outputs);
    Multipart.NumberedSerializes(done, framing.boundary, framing.accepts);
    var serialized := Multipart.Serialize(done, framing.boundary, framing.accepts);
    if !serialized.Ok? {
      return Refuse(BlockedItem);
    }
    return Forward(Parts(framing.boundary, serialized.pieces), merged);
  }

  lemma FirstErrorIsFirstRefusal(rs: seq<ItemResult>, errs: seq<Option<Refusal>>, at: nat, r: Refusal)
    requires |errs| == |rs| && forall i: nat | i < |rs| :: errs[i] == ErrorOf(rs[i])
    requires at < |errs| && errs[at] == Some(r) && forall i | 0 <= i < at :: errs[i].None?
    ensures FirstRefusal(rs, at, r) && !AllDone(rs)
  {
    forall j: nat | j < at ensures rs[j].Done? {
      assert errs[j].None?;
    }
  }

  lemma NoErrorIsAllDone(rs: seq<ItemResult>, errs: seq<Option<Refusal>>)
    requires |errs| == |rs| && forall i: nat | i < |rs| :: errs[i] == ErrorOf(rs[i])
    requires forall i | 0 <= i < |errs| :: errs[i].None?
    ensures AllDone(rs)
  {
    forall i: nat | i < |rs| ensures rs[i].Done? {
      assert errs[i].None?;
    }
  }

  function RefusalFor(p: Multipart.Payload): Refusal {
    if p.TooLarge? then TooLarge else BlockedItem
  }

  /** What a multipart upload must be answered: a body that cannot be read under the cap
      is refused, otherwise every part is sanitized. */
  ghost predicate AnswersMultipart(route: Route, framing: Framing, items: seq<Multipart.Item>, turns: seq<Turn>,
                                   reply: Reply)
    requires |turns| == |items| && AllSound(turns)
  {
    if Multipart.AllAccepted(items, route.maxBytes) then
      AnswersParts(route, framing, Multipart.PartsOf(items, route.maxBytes), turns, reply)
    else
      exists k :: Multipart.StopsAt(items, route.maxBytes, k) &&
        reply == Refuse(RefusalFor(Multipart.ErrorFor(items[k], route.maxBytes)))
  }

  method ProcessMultipart(route: Route, framing: Framing, items: seq<Multipart.Item>, turns: seq<Turn>,
                          schedule: seq<Write>, m: Metrics.Metrics) returns (reply: Reply)
    requires |turns| == |items| && AllSound(turns) && m.View().Sized() && Complete(schedule, |items|)
    modifies m, m.blockedByReason
    ensures AnswersMultipart(route, framing, items, turns, reply)
  {
    var payload := Multipart.ParseMultipart(items, route.maxBytes);
    if payload.Parts? {
      reply := ProcessParts(route, framing, payload.parts, turns, schedule, m);
    } else {
      reply := Refuse(RefusalFor(payload));
    }
  }

  ghost function RawReply(route: Route, body: Multipart.Source, turn: Turn): Reply
    requires turn.env.Sound()
  {
    match Multipart.ReadLimited(body, route.maxBytes)
    case OverCap => Refuse(TooLarge)
    case ReadFailed => Refuse(BlockedItem)
    case Got(data) =>
      match ItemOutcome(route, data, turn)
      case Refused(r) => Refuse(r)
      case Done(out, info) => Forward(Raw(out), info)
  }

  method ProcessRaw(route: Route, body: Multipart.Source, turn: Turn, m: Metrics.Metrics) returns (reply: Reply)
    requires turn.env.Sound() && m.View().Sized()
    modifies m, m.blockedByReason
    ensures reply == RawReply(route, body, turn)
  {
    var raw := Multipart.ReadLimited(body, route.maxBytes);
    match raw {
      case OverCap => reply := Refuse(TooLarge);
      case ReadFailed => reply := Refuse(BlockedItem);
      case Got(data) =>
        var r := SanitizeItem(route, data, turn, m);
        if r.Refused? {
          reply := Refuse(r.refusal);
        } else {
          reply := Forward(Raw(r.out), r.info);
        }
    }
  }

  // ---------- fail closed, request by request ----------

  /** The answer to a set of parts is unique, so no schedule of the goroutines can change
      it: not the bodies, not which refusal is reported, not the summary. */
  lemma ScheduleIrrelevant(route: Route, framing: Framing, parts: seq<Multipart.Part>, turns: seq<Turn>, one: Reply,
                           two: Reply)
    requires |turns| == |parts| && AllSound(turns)
    requires AnswersParts(route, framing, parts, turns, one) && AnswersParts(route, framing, parts, turns, two)
    ensures one == two
  {
    var rs := Outcomes(route, parts, turns);
    if !AllDone(rs) {
      var i: nat :| FirstRefusal(rs, i, one.refusal);
      var j: nat :| FirstRefusal(rs, j, two.refusal);
      assert i == j;
    } else if framing.Writable() {
      assert one.body.pieces == two.body.pieces;
    }
  }

  /** The bytes of an item that are read and sanitized. */
  function Got(route: Route, item: Multipart.Item): Bytes {
    Multipart.Received(item, route.maxBytes)
  }

  /** The item was read, and its outcome is not a refusal. */
  ghost predicate Passes(route: Route, item: Multipart.Item, turn: Turn)
    requires turn.env.Sound()
  {
    Multipart.Accepted(item, route.maxBytes) && ItemOutcome(route, Got(route, item), turn).Done?
  }

  ghost predicate PassesAt(route: Route, items: seq<Multipart.Item>, turns: seq<Turn>, i: int)
    requires |turns| == |items| && AllSound(turns) && 0 <= i < |items|
  {
    Passes(route, items[i], turns[i])
  }

  /** A form reaches the origin exactly when every part is read and passes and the writer
      takes its boundary. One refused part, or a refused boundary, keeps all of it back. */
  lemma ForwardedExactly(route: Route, framing: Framing, items: seq<Multipart.Item>, turns: seq<Turn>, reply: Reply)
    requires |turns| == |items| && AllSound(turns) && AnswersMultipart(route, framing, items, turns, reply)
    ensures reply.Forward? <==>
            framing.Writable() && forall i | 0 <= i < |items| :: PassesAt(route, items, turns, i)
  {
    if Multipart.AllAccepted(items, route.maxBytes) {
      var rs := Outcomes(route, Multipart.PartsOf(items, route.maxBytes), turns);
      forall i | 0 <= i < |items| ensures rs[i].Done? <==> PassesAt(route, items, turns, i) {
      }
    } else {
      var i :| 0 <= i < |items| && !Multipart.Accepted(items[i], route.maxBytes);
      assert !PassesAt(route, items, turns, i);
    }
  }

  /** Item i is refused like this, and every item before it passes. */
  ghost predicate RefusedFirst(route: Route, items: seq<Multipart.Item>, turns: seq<Turn>, i: int, why: Refusal)
    requires |turns| == |items| && AllSound(turns)
  {
    && 0 <= i < |items| && ItemOutcome(route, Got(route, items[i]), turns[i]) == Refused(why)
    && forall j | 0 <= j < i :: ItemOutcome(route, Got(route, items[j]), turns[j]).Done?
  }

  /** When all parts are read, the refusal of the first part that is refused is the answer,
      whichever part was worked on first. */
  lemma FirstRefusalDecides(route: Route, framing: Framing, items: seq<Multipart.Item>, turns: seq<Turn>,
                            reply: Reply, i: int, why: Refusal)
    requires |turns| == |items| && AllSound(turns) && AnswersMultipart(route, framing, items, turns, reply)
    requires Multipart.AllAccepted(items, route.maxBytes) && RefusedFirst(route, items, turns, i, why)
    ensures reply == Refuse(why)
  {
    var parts := Multipart.PartsOf(items, route.maxBytes);
    var rs := Outcomes(route, parts, turns);
    assert rs[i] == Refused(why) && forall j | 0 <= j < i :: rs[j].Done?;
    var k: nat :| FirstRefusal(rs, k, reply.refusal);
    assert k == i;
  }

  /** A form whose parts all pass but whose boundary the writer does not take is blocked. */
  lemma RefusedBoundaryBlocks(route: Route, framing: Framing, items: seq<Multipart.Item>, turns: seq<Turn>,
                              reply: Reply)
    requires |turns| == |items| && AllSound(turns) && AnswersMultipart(route, framing, items, turns, reply)
    requires !framing.Writable() && forall i | 0 <= i < |items| :: PassesAt(route, items, turns, i)
    ensures reply == Refuse(BlockedItem)
  {
    forall k | 0 <= k < |items| ensures Multipart.Accepted(items[k], route.maxBytes) {
      assert PassesAt(route, items, turns, k);
    }
    var rs := Outcomes(route, Multipart.PartsOf(items, route.maxBytes), turns);
    forall i | 0 <= i < |items| ensures rs[i].Done? {
      assert PassesAt(route, items, turns, i);
    }
  }

  lemma OutcomeIsClean(route: Route, data: Bytes, turn: Turn)
    requires turn.env.Sound() && ItemOutcome(route, data, turn).Done?
    ensures var out := ItemOutcome(route, data, turn).out;
            && (EndToEnd.Clean(turn.env, route, data, out) || (route.failOpen && out == data))
            && (EndToEnd.IsImage(data) && !route.failOpen ==> EndToEnd.Logged(turn.env, route, data, out))
  {
    EndToEnd.ItemFailsClosed(turn.env, route, data);
    if EndToEnd.IsImage(data) {
      EndToEnd.ImageIsLogged(turn.env, route, data);
    }
  }

  /** Piece i of a forwarded form is part i of the request with a clean body, or with its
      own body on a route that fails open, and an image on any other route was logged. Below
      the largest cap that part was read whole. */
  ghost predicate SentAt(route: Route, items: seq<Multipart.Item>, turns: seq<Turn>,
                         pieces: seq<Multipart.Piece>, i: int)
    requires |turns| == |items| == |pieces| && AllSound(turns) && 0 <= i < |items|
  {
    var data, out := Got(route, items[i]), pieces[i].body;
    && Multipart.Accepted(items[i], route.maxBytes) && Multipart.ReceivedWhole(items[i], route.maxBytes)
    && pieces[i] == Multipart.Write(Multipart.Part(i, items[i].header, out))
    && (EndToEnd.Clean(turns[i].env, route, data, out) || (route.failOpen && out == data))
    && (EndToEnd.IsImage(data) && !route.failOpen ==> EndToEnd.Logged(turns[i].env, route, data, out))
  }

  /** Whatever decoding, detection, encoding, auditing and the pool do, item by item: when a
      multipart upload reaches the origin, it has the boundary of the request and its parts
      in order, with their headers, and every body is clean (on a route that fails open:
      clean or untouched). */
  lemma MultipartFailsClosed(route: Route, framing: Framing, items: seq<Multipart.Item>, turns: seq<Turn>, reply: Reply)
    requires |turns| == |items| && AllSound(turns) && AnswersMultipart(route, framing, items, turns, reply)
    requires reply.Forward?
    ensures reply.body.Parts? && reply.body.boundary == framing.boundary && |reply.body.pieces| == |items|
    ensures forall i | 0 <= i < |items| :: SentAt(route, items, turns, reply.body.pieces, i)
  {
    var parts := Multipart.PartsOf(items, route.maxBytes);
    var rs := Outcomes(route, parts, turns);
    forall i | 0 <= i < |items| ensures SentAt(route, items, turns, reply.body.pieces, i) {
      assert Multipart.Accepted(items[i], route.maxBytes);
      Multipart.AcceptedIsWhole(items[i], route.maxBytes);
      assert parts[i].(body := rs[i].out) == Multipart.Part(i, items[i].header, rs[i].out);
      OutcomeIsClean(route, parts[i].body, turns[i]);
    }
  }

  /** The same for an upload that is a single body. */
  lemma RawFailsClosed(route: Route, body: Multipart.Source, turn: Turn)
    requires turn.env.Sound() && RawReply(route, body, turn).Forward?
    ensures SentBody(route, body, turn, RawReply(route, body, turn).body)
  {
    OutcomeIsClean(route, Multipart.ReadLimited(body, route.maxBytes).data, turn);
    if route.maxBytes < LARGEST {
      Multipart.KeepsPromise(body, route.maxBytes);
    }
  }

  /** The body sent is clean, or on a route that fails open the one received, and an image
      on any other route was logged; below the largest cap what was received is all of it,
      and within the cap. */
  ghost predicate SentBody(route: Route, source: Multipart.Source, turn: Turn, body: Body)
    requires turn.env.Sound()
  {
    var read := Multipart.ReadLimited(source, route.maxBytes);
    && read.Got? && body.Raw?
    && (route.maxBytes < LARGEST ==> source == Multipart.Readable(read.data) && |read.data| <= route.maxBytes)
    && (EndToEnd.Clean(turn.env, route, read.data, body.bytes) || (route.failOpen && body.bytes == read.data))
    && (EndToEnd.IsImage(read.data) && !route.failOpen ==>
          EndToEnd.Logged(turn.env, route, read.data, body.bytes))
  }

  /** In a multipart upload that a non-fail-open redact route with the region-marker
      detector forwards, every image part is the encoding of its own picture with every
      marker-coloured pixel opaque black and nothing outside the detected regions changed. */
  lemma ForwardedMarkersAreInked(route: Route, framing: Framing, items: seq<Multipart.Item>, turns: seq<Turn>,
                                 reply: Reply, i: nat, j: nat, d: MarkerDetector.Marker)
    returns (img: Image, format: Decode.Format, sent: Image)
    requires |turns| == |items| && AllSound(turns) && AnswersMultipart(route, framing, items, turns, reply)
    requires reply.Forward? && route.action.Redact? && !route.failOpen
    requires i < |items| && EndToEnd.IsImage(Got(route, items[i]))
    requires j < |route.detectors| && route.detectors[j] in turns[i].env.registry
    requires EndToEnd.IsMarker(turns[i].env.registry[route.detectors[j]], d) && d.minArea <= 0
    ensures Multipart.ReceivedWhole(items[i], route.maxBytes)
    ensures Decode.Decode(turns[i].env.codec, Got(route, items[i]), turns[i].env.maxPixels) == Decode.Ok(img, format)
    ensures reply.body.Parts? && |reply.body.pieces| == |items|
    ensures turns[i].env.encode(sent, format) == Some(reply.body.pieces[i].body)
    ensures img.Valid() && sent.Valid() && sent.bounds == img.bounds
    ensures forall x, y {:trigger sent.At(x, y)} | img.bounds.Has(x, y) ::
              && (d.Matches(img.At(x, y)) ==> sent.At(x, y) == RGBA(0, 0, 0, 255))
              && (!EndToEnd.Reports(turns[i].env, route.detectors, img, x, y) ==> sent.At(x, y) == img.At(x, y))
  {
    MultipartFailsClosed(route, framing, items, turns, reply);
    var out := reply.body.pieces[i].body;
    assert SentAt(route, items, turns, reply.body.pieces, i);
    img, format, sent := EndToEnd.MarkersAreInked(turns[i].env, route, Got(route, items[i]), out, j, d);
  }

  // ---------- what keeps an upload back ----------

  /** The only reasons for which an item is kept back on a masking route that fails open:
      an image in a format the route does not accept, an image that got no slot, or an
      image whose detection was canceled. */
  ghost predicate KeptBack(route: Route, data: Bytes, turn: Turn) {
    && EndToEnd.IsImage(data)
    && (!FormatAllowed(route.acceptedFormats, data) || !turn.slot.Admitted? ||
        EndToEnd.CanceledDuring(turn.env, route, data))
  }

  lemma FailOpenRefusesExactly(route: Route, data: Bytes, turn: Turn)
    requires turn.env.Sound() && route.action.Masks() && route.failOpen
    ensures ItemOutcome(route, data, turn).Refused? <==> KeptBack(route, data, turn)
  {
    EndToEnd.FailOpenBlocksExactly(turn.env, route, data);
  }

  ghost predicate KeptBackAt(route: Route, items: seq<Multipart.Item>, turns: seq<Turn>, i: int)
    requires |turns| == |items| && 0 <= i < |items|
  {
    !Multipart.Accepted(items[i], route.maxBytes) || KeptBack(route, Got(route, items[i]), turns[i])
  }

  /** A form on a masking route that fails open is kept from the origin exactly when some
      part cannot be read under the cap or is kept back, or its boundary cannot be written.
      Cancellation during detection is one of the reasons: failing open does not cover it. */
  lemma FailOpenFormRefusedExactly(route: Route, framing: Framing, items: seq<Multipart.Item>, turns: seq<Turn>,
                                   reply: Reply)
    requires |turns| == |items| && AllSound(turns) && AnswersMultipart(route, framing, items, turns, reply)
    requires route.action.Masks() && route.failOpen
    ensures reply.Refuse? <==>
            !framing.Writable() || exists i :: 0 <= i < |items| && KeptBackAt(route, items, turns, i)
  {
    ForwardedExactly(route, framing, items, turns, reply);
    forall i | 0 <= i < |items| ensures PassesAt(route, items, turns, i) <==> !KeptBackAt(route, items, turns, i) {
      if Multipart.Accepted(items[i], route.maxBytes) {
        FailOpenRefusesExactly(route, Got(route, items[i]), turns[i]);
      }
    }
  }

  /** The same for a single body. */
  lemma FailOpenRawRefusedExactly(route: Route, body: Multipart.Source, turn: Turn)
    requires turn.env.Sound() && route.action.Masks() && route.failOpen
    ensures RawReply(route, body, turn).Refuse? <==>
            var read := Multipart.ReadLimited(body, route.maxBytes);
            !read.Got? || KeptBack(route, read.data, turn)
  {
    var read := Multipart.ReadLimited(body, route.maxBytes);
    if read.Got? {
      FailOpenRefusesExactly(route, read.data, turn);
    }
  }

  /** On any masking route one part whose detection was canceled keeps the upload back. */
  lemma CancellationRefuses(route: Route, framing: Framing, items: seq<Multipart.Item>, turns: seq<Turn>,
                            reply: Reply, i: nat)
    requires |turns| == |items| && AllSound(turns) && AnswersMultipart(route, framing, items, turns, reply)
    requires route.action.Masks() && i < |items|
    requires EndToEnd.CanceledDuring(turns[i].env, route, Got(route, items[i]))
    ensures reply.Refuse?
  {
    ForwardedExactly(route, framing, items, turns, reply);
    EndToEnd.CancellationBlocks(turns[i].env, route, Got(route, items[i]));
    assert !PassesAt(route, items, turns, i);
  }

  /** What lets an item through a masking route that does not fail open: it is no image, or
      its format is accepted, it got a slot, and it was redacted and the redaction logged. */
  ghost predicate Cleared(route: Route, data: Bytes, turn: Turn)
    requires turn.env.Sound()
  {
    EndToEnd.IsImage(data) ==>
      && FormatAllowed(route.acceptedFormats, data) && turn.slot.Admitted?
      && EndToEnd.RedactedAndLogged(turn.env, route, data)
  }

  lemma FailClosedPassesExactly(route: Route, data: Bytes, turn: Turn)
    requires turn.env.Sound() && route.action.Masks() && !route.failOpen
    ensures ItemOutcome(route, data, turn).Done? <==> Cleared(route, data, turn)
  {
    EndToEnd.FailClosedPassesExactly(turn.env, route, data);
  }

  ghost predicate ClearedAt(route: Route, items: seq<Multipart.Item>, turns: seq<Turn>, i: int)
    requires |turns| == |items| && AllSound(turns) && 0 <= i < |items|
  {
    Multipart.Accepted(items[i], route.maxBytes) && Cleared(route, Got(route, items[i]), turns[i])
  }

  /** A form on a masking route that does not fail open reaches the origin exactly when its
      boundary can be written and every part is read and cleared. */
  lemma FailClosedFormForwardedExactly(route: Route, framing: Framing, items: seq<Multipart.Item>,
                                       turns: seq<Turn>, reply: Reply)
    requires |turns| == |items| && AllSound(turns) && AnswersMultipart(route, framing, items, turns, reply)
    requires route.action.Masks() && !route.failOpen
    ensures reply.Forward? <==>
            framing.Writable() && forall i | 0 <= i < |items| :: ClearedAt(route, items, turns, i)
  {
    ForwardedExactly(route, framing, items, turns, reply);
    forall i | 0 <= i < |items| ensures PassesAt(route, items, turns, i) <==> ClearedAt(route, items, turns, i) {
      FailClosedPassesExactly(route, Got(route, items[i]), turns[i]);
    }
  }

  /** The same for a single body. */
  lemma FailClosedRawForwardedExactly(route: Route, body: Multipart.Source, turn: Turn)
    requires turn.env.Sound() && route.action.Masks() && !route.failOpen
    ensures RawReply(route, body, turn).Forward? <==>
            var read := Multipart.ReadLimited(body, route.maxBytes);
            read.Got? && Cleared(route, read.data, turn)
  {
    var read := Multipart.ReadLimited(body, route.maxBytes);
    if read.Got? {
      FailClosedPassesExactly(route, read.data, turn);
    }
  }

  // ---------- refusals ----------

  /** Why an item is refused: an image in a format the route does not accept comes first,
      then an image to be masked that got no slot; a drop route refuses everything else. */
  lemma RefusedExactly(route: Route, data: Bytes, turn: Turn)
    requires turn.env.Sound()
    ensures var r, image := ItemOutcome(route, data, turn), EndToEnd.IsImage(data);
            var masked := image && (route.action == Policy.Redact || route.action == Policy.Blur);
            if image && !FormatAllowed(route.acceptedFormats, data) then r == Refused(UnsupportedMedia)
            else
              && r != Refused(UnsupportedMedia) && r != Refused(TooLarge)
              && (r == Refused(Backpressure) <==> masked && turn.slot == Busy)
              && (r == Refused(Rejected) <==> route.action == Policy.Drop)
              && (masked && turn.slot == GaveUp ==> r == Refused(BlockedItem))
  {
  }

  /** A foreign image never gets through a masking route that does not fail open. */
  lemma ForeignIsRefused(route: Route, data: Bytes, turn: Turn)
    requires turn.env.Sound() && route.action.Masks() && !route.failOpen && EndToEnd.OpensAsForeign(data)
    ensures ItemOutcome(route, data, turn)
            == if !FormatAllowed(route.acceptedFormats, data) then Refused(UnsupportedMedia)
               else if turn.slot == Busy then Refused(Backpressure)
               else Refused(BlockedItem)
  {
    EndToEnd.ForeignIsBlocked(turn.env, route, data);
  }

  /** One foreign image keeps a whole form back. */
  lemma ForeignKeepsFormBack(route: Route, framing: Framing, items: seq<Multipart.Item>, turns: seq<Turn>,
                             reply: Reply, i: nat)
    requires |turns| == |items| && AllSound(turns) && AnswersMultipart(route, framing, items, turns, reply)
    requires route.action.Masks() && !route.failOpen && i < |items|
    requires EndToEnd.OpensAsForeign(Got(route, items[i]))
    ensures reply.Refuse?
  {
    ForwardedExactly(route, framing, items, turns, reply);
    ForeignIsRefused(route, Got(route, items[i]), turns[i]);
    assert !PassesAt(route, items, turns, i);
  }

  // ---------- the pass route ----------

  /** What lets an item through a pass route that does not fail open: it is no image, or its
      format is accepted, it was stripped if that is asked for, and it was logged. */
  ghost predicate PassCleared(route: Route, data: Bytes, turn: Turn) {
    EndToEnd.IsImage(data) ==>
      && FormatAllowed(route.acceptedFormats, data)
      && exists out :: PassedAs(route, data, turn, out)
  }

  ghost predicate PassedAs(route: Route, data: Bytes, turn: Turn, out: Bytes) {
    EndToEnd.StripsTo(route, data, out) && turn.env.audit(Entry(route.prefix, Policy.Pass, [], [], out))
  }

  lemma PassItemExactly(route: Route, data: Bytes, turn: Turn)
    requires turn.env.Sound() && route.action.Pass?
    ensures !route.failOpen ==> (ItemOutcome(route, data, turn).Done? <==> PassCleared(route, data, turn))
    ensures route.failOpen ==>
              (ItemOutcome(route, data, turn).Refused? <==>
               EndToEnd.IsImage(data) && !FormatAllowed(route.acceptedFormats, data))
    ensures forall out | PassedAs(route, data, turn, out) && PassCleared(route, data, turn) && EndToEnd.IsImage(data) ::
              ItemOutcome(route, data, turn) == Done(out, Summary.NOTHING)
    ensures !EndToEnd.IsImage(data) ==> ItemOutcome(route, data, turn) == Done(data, Summary.NOTHING)
  {
    if EndToEnd.IsImage(data) {
      forall out ensures Sanitized(turn.env, route, data, true) == Item(out, true, 0, [])
                         <==> PassedAs(route, data, turn, out) {
        EndToEnd.PassExactly(turn.env, route, data, out);
      }
      if forall out :: !PassedAs(route, data, turn, out) {
        forall out
          ensures !(EndToEnd.StripsTo(route, data, out) &&
                    turn.env.audit(Entry(route.prefix, Policy.Pass, [], [], out)))
        {
          assert !PassedAs(route, data, turn, out);
        }
        EndToEnd.PassRefusals(turn.env, route, data);
      }
    }
  }

  ghost predicate PassClearedAt(route: Route, items: seq<Multipart.Item>, turns: seq<Turn>, i: int)
    requires |turns| == |items| && 0 <= i < |items|
  {
    Multipart.Accepted(items[i], route.maxBytes) && PassCleared(route, Got(route, items[i]), turns[i])
  }

  /** A form on a pass route that does not fail open reaches the origin exactly when its
      boundary can be written and every part is read and cleared. */
  lemma PassFormForwardedExactly(route: Route, framing: Framing, items: seq<Multipart.Item>, turns: seq<Turn>,
                                 reply: Reply)
    requires |turns| == |items| && AllSound(turns) && AnswersMultipart(route, framing, items, turns, reply)
    requires route.action.Pass? && !route.failOpen
    ensures reply.Forward? <==>
            framing.Writable() && forall i | 0 <= i < |items| :: PassClearedAt(route, items, turns, i)
  {
    ForwardedExactly(route, framing, items, turns, reply);
    forall i | 0 <= i < |items| ensures PassesAt(route, items, turns, i) <==> PassClearedAt(route, items, turns, i) {
      PassItemExactly(route, Got(route, items[i]), turns[i]);
    }
  }

  /** The same for a single body. */
  lemma PassRawForwardedExactly(route: Route, body: Multipart.Source, turn: Turn)
    requires turn.env.Sound() && route.action.Pass? && !route.failOpen
    ensures RawReply(route, body, turn).Forward? <==>
            var read := Multipart.ReadLimited(body, route.maxBytes);
            read.Got? && PassCleared(route, read.data, turn)
  {
    var read := Multipart.ReadLimited(body, route.maxBytes);
    if read.Got? {
      PassItemExactly(route, read.data, turn);
    }
  }

  // ---------- the largest cap ----------

  lemma EmptyPasses(route: Route, turn: Turn)
    requires turn.env.Sound() && (route.action.Masks() || route.action.Pass?)
    ensures ItemOutcome(route, [], turn) == Done([], Summary.NOTHING)
  {
    assert !EndToEnd.IsImage([]);
  }

  /** With the largest cap of all, every form that is framed well and whose boundary can be
      written is forwarded with all its bodies empty. */
  lemma LargestCapEmptiesForms(route: Route, framing: Framing, items: seq<Multipart.Item>, turns: seq<Turn>,
                               reply: Reply)
    requires |turns| == |items| && AllSound(turns) && AnswersMultipart(route, framing, items, turns, reply)
    requires route.maxBytes == LARGEST && (route.action.Masks() || route.action.Pass?)
    ensures reply.Forward? <==> framing.Writable() && forall i | 0 <= i < |items| :: items[i].Item?
    ensures reply.Forward? ==>
              reply.body.Parts? && |reply.body.pieces| == |items| &&
              forall i | 0 <= i < |items| :: reply.body.pieces[i].body == []
  {
    ForwardedExactly(route, framing, items, turns, reply);
    forall i | 0 <= i < |items| ensures PassesAt(route, items, turns, i) <==> items[i].Item? {
      EmptyPasses(route, turns[i]);
      if items[i].Item? {
        Multipart.LargestCapReadsNothing(items[i].source);
      }
    }
    if reply.Forward? {
      var rs := Outcomes(route, Multipart.PartsOf(items, route.maxBytes), turns);
      forall i | 0 <= i < |items| ensures rs[i] == Done([], Summary.NOTHING) {
        EmptyPasses(route, turns[i]);
        assert PassesAt(route, items, turns, i);
        Multipart.LargestCapReadsNothing(items[i].source);
      }
    }
  }

  /** And so is every single body, whatever it is and even if it breaks off. */
  lemma LargestCapEmptiesBodies(route: Route, body: Multipart.Source, turn: Turn)
    requires turn.env.Sound() && route.maxBytes == LARGEST && (route.action.Masks() || route.action.Pass?)
    ensures RawReply(route, body, turn) == Forward(Raw([]), Summary.NOTHING)
  {
    Multipart.LargestCapReadsNothing(body);
    EmptyPasses(route, turn);
  }

  // ---------- the summary ----------

  /** The summary sent with a forwarded upload counts the regions masked in all parts and
      lists, sorted and without repetition, exactly their labels. */
  lemma SummaryIsExact(route: Route, framing: Framing, parts: seq<Multipart.Part>, turns: seq<Turn>, reply: Reply)
    requires |turns| == |parts| && AllSound(turns) && AnswersParts(route, framing, parts, turns, reply) &&
             reply.Forward?
    ensures var infos := Infos(Outcomes(route, parts, turns));
            && reply.info.count == Summary.Total(infos) && Summary.Proper(reply.info)
            && forall x :: x in reply.info.categories <==> Summary.Labelled(infos, x)
  {
    var rs := Outcomes(route, parts, turns);
    forall i | 0 <= i < |rs| ensures Summary.Proper(Infos(rs)[i]) {
      InfoIsProper(route, parts[i].body, turns[i]);
    }
    Summary.MergedAllMeans(Infos(rs));
  }

  // ---------- serving ----------

  /** An upload: a form whose parts each meet their turn and are written in some order, or a
      single body. */
  datatype Upload =
    | Form(framing: Framing, items: seq<Multipart.Item>, turns: seq<Turn>, schedule: seq<Write>)
    | Single(source: Multipart.Source, turn: Turn)
  {
    ghost predicate Valid() {
      match this
      case Form(_, items, turns, schedule) => |turns| == |items| && AllSound(turns) && Complete(schedule, |items|)
      case Single(_, turn) => turn.env.Sound()
    }
  }

  /** What the origin and the client get to see. */
  datatype Response = ToOrigin(body: Body, info: Summary.Info) | Answered(status: int)

  function Respond(r: Reply): Response {
    match r
    case Forward(body, info) => ToOrigin(body, info)
    case Refuse(why) => Answered(Status(why))
  }

  /** Route, sanitize everything, and only then contact the origin. */
  method Serve(t: Policy.Table, path: string, up: Upload, m: Metrics.Metrics)
    returns (r: Response, ghost reply: Reply)
    requires up.Valid() && m.View().Sized()
    modifies m, m.blockedByReason
    ensures Serves(t, path, up, r, reply)
  {
    reply := Refuse(BlockedItem);
    var route := Policy.Match(t, path);
    if route.None? {
      return Answered(502), reply;
    }
    var answer: Reply;
    match up {
      case Form(framing, items, turns, schedule) =>
        answer := ProcessMultipart(route.value, framing, items, turns, schedule, m);
      case Single(source, turn) =>
        answer := ProcessRaw(route.value, source, turn, m);
    }
    return Respond(answer), answer;
  }

  ghost predicate Serves(t: Policy.Table, path: string, up: Upload, r: Response, reply: Reply)
    requires up.Valid()
  {
    var route := Policy.Answer(t, path);
    if route.None? then r == Answered(502)
    else
      && r == Respond(reply)
      && match up
         case Form(framing, items, turns, _) => AnswersMultipart(route.value, framing, items, turns, reply)
         case Single(source, turn) => reply == RawReply(route.value, source, turn)
  }

  /** Every item of the upload reached the body in its place, as SentAt and SentBody say. */
  ghost predicate SentInPlace(route: Route, up: Upload, body: Body)
    requires up.Valid()
  {
    match up
    case Form(framing, items, turns, _) =>
      && body.Parts? && body.boundary == framing.boundary && |body.pieces| == |items|
      && forall i | 0 <= i < |items| :: SentAt(route, items, turns, body.pieces, i)
    case Single(source, turn) =>
      SentBody(route, source, turn, body)
  }

  /** What the gateway is for: the origin is contacted only under a route of the policy,
      and only with bytes that are clean for every item and logged for every image, or, when
      that route fails open, clean or untouched. */
  lemma OriginSeesOnlyCleanBytes(t: Policy.Table, path: string, up: Upload, r: Response, reply: Reply)
    requires up.Valid() && Serves(t, path, up, r, reply) && r.ToOrigin?
    ensures Policy.Answer(t, path).Some?
    ensures SentInPlace(Policy.Answer(t, path).value, up, r.body)
  {
    var route := Policy.Answer(t, path).value;
    match up {
      case Form(framing, items, turns, _) => MultipartFailsClosed(route, framing, items, turns, reply);
      case Single(source, turn) => RawFailsClosed(route, source, turn);
    }
  }

  /** The status a single body is answered with when it does not reach the origin: 413 beyond
      the cap, 415 for an image in a format that is not accepted, 503 without a slot, 422 for
      everything else, and 502 without a route. */
  lemma StatusExactly(t: Policy.Table, path: string, source: Multipart.Source, turn: Turn, r: Response, reply: Reply)
    requires turn.env.Sound() && Serves(t, path, Single(source, turn), r, reply)
    ensures Policy.Answer(t, path).None? ==> r == Answered(502)
    ensures Policy.Answer(t, path).Some? ==>
              var route := Policy.Answer(t, path).value;
              var read := Multipart.ReadLimited(source, route.maxBytes);
              && (read.OverCap? ==> r == Answered(413))
              && (read.ReadFailed? ==> r == Answered(422))
              && (read.Got? ==>
                    match ItemOutcome(route, read.data, turn)
                    case Done(out, info) => r == ToOrigin(Raw(out), info)
                    case Refused(why) =>
                      && (why == UnsupportedMedia ==> r == Answered(415))
                      && (why == Backpressure ==> r == Answered(503))
                      && (why == Rejected || why == BlockedItem ==> r == Answered(422)))
  {
  }

  /** And a form that cannot be read: 413 for a part beyond the cap, 422 for bad framing or a
      part that breaks off, whichever comes first. */
  lemma UnreadFormStatus(t: Policy.Table, path: string, framing: Framing, items: seq<Multipart.Item>,
                         turns: seq<Turn>, schedule: seq<Write>, r: Response, reply: Reply, k: int)
    requires |turns| == |items| && AllSound(turns) && Complete(schedule, |items|)
    requires Serves(t, path, Form(framing, items, turns, schedule), r, reply) && Policy.Answer(t, path).Some?
    requires Multipart.StopsAt(items, Policy.Answer(t, path).value.maxBytes, k)
    ensures r == if items[k].BadFraming? then Answered(422)
                 else if Multipart.ReadLimited(items[k].source, Policy.Answer(t, path).value.maxBytes).OverCap?
                 then Answered(413) else Answered(422)
  {
    var cap := Policy.Answer(t, path).value.maxBytes;
    assert !Multipart.AllAccepted(items, cap);
    var j :| Multipart.StopsAt(items, cap, j) && reply == Refuse(RefusalFor(Multipart.ErrorFor(items[j], cap)));
    assert j == k;
  }
}
