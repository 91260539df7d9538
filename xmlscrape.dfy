/** The lenient reading of CZI metadata XML in src/__main.cpp: plain text
    search for `<Tag>…</Tag>` pairs, no XML parser. Numbers are read by
    `std::stod`, which is a parameter here (`parse`): it either fails
    (`None`, the exception the source catches) or yields a double. */
module XmlScrape {
  import opened Common

  /** A double without infinities: NaN or a real value. */
  datatype Double = NaN | Num(value: real)

  // ---------------------------------------------------------------------------
  // std::string::find
  // ---------------------------------------------------------------------------

  predicate MatchAt(s: string, pat: string, i: nat)
  {
    i + |pat| <= |s| && s[i .. i + |pat|] == pat
  }

  /** `pat[k..]` occurs in `s` at `i + k`, compared character by character. */
  predicate SameFrom(s: string, pat: string, i: nat, k: nat)
    requires i + |pat| <= |s| && k <= |pat|
    decreases |pat| - k
  {
    k == |pat| || (s[i + k] == pat[k] && SameFrom(s, pat, i, k + 1))
  }

  lemma {:induction false} SameFromIsMatch(s: string, pat: string, i: nat, k: nat)
    requires i + |pat| <= |s| && k <= |pat|
    ensures SameFrom(s, pat, i, k) <==> s[i + k .. i + |pat|] == pat[k..]
    decreases |pat| - k
  {
    if k < |pat| {
      SameFromIsMatch(s, pat, i, k + 1);
      assert s[i + k .. i + |pat|] == [s[i + k]] + s[i + k + 1 .. i + |pat|];
      assert pat[k..] == [pat[k]] + pat[k + 1..];
    }
  }

  /** `s.find(pat, from)`: the first position at or after `from` where `pat`
      occurs, `None` for `npos` (see FindIsFirst). */
  function Find(s: string, pat: string, from: nat): (r: Option<nat>)
    ensures r.Some? ==> from <= r.value && r.value + |pat| <= |s|
    decreases |s| - from
  {
    if from + |pat| > |s| then None
    else if SameFrom(s, pat, from, 0) then Some(from)
    else Find(s, pat, from + 1)
  }

  /** `Find` yields an occurrence with none before it, and `None` only when
      there is no occurrence at or after `from`. */
  lemma {:induction false} FindIsFirst(s: string, pat: string, from: nat)
    ensures Find(s, pat, from).Some? ==> MatchAt(s, pat, Find(s, pat, from).value)
    ensures forall j :: from <= j && MatchAt(s, pat, j) ==> Find(s, pat, from).Some? && Find(s, pat, from).value <= j
    decreases |s| - from
  {
    if from + |pat| <= |s| {
      SameFromIsMatch(s, pat, from, 0);
      if !SameFrom(s, pat, from, 0) {
        FindIsFirst(s, pat, from + 1);
      }
    }
  }

  // ---------------------------------------------------------------------------
  // trim
  // ---------------------------------------------------------------------------

  /** The characters `" \t\r\n"` that `trim` removes. */
  predicate IsSpace(c: char)
  {
    c == ' ' || c == '\t' || c == '\r' || c == '\n'
  }

  /** `s.find_first_not_of(" \t\r\n", from)` (see FirstNotSpaceIsFirst). */
  function FirstNotSpace(s: string, from: nat): (r: Option<nat>)
    ensures r.Some? ==> from <= r.value < |s| && !IsSpace(s[r.value])
    decreases |s| - from
  {
    if from >= |s| then None
    else if !IsSpace(s[from]) then Some(from)
    else FirstNotSpace(s, from + 1)
  }

  /** Everything `FirstNotSpace` skips is blank. */
  lemma {:induction false} FirstNotSpaceIsFirst(s: string, from: nat)
    ensures var r := FirstNotSpace(s, from);
            forall j :: from <= j < (if r.Some? then r.value else |s|) ==> IsSpace(s[j])
    decreases |s| - from
  {
    if from < |s| && IsSpace(s[from]) {
      FirstNotSpaceIsFirst(s, from + 1);
    }
  }

  /** `s.find_last_not_of(" \t\r\n")`, looking below `upto` (see
      LastNotSpaceIsLast). */
  function LastNotSpace(s: string, upto: nat): (r: Option<nat>)
    requires upto <= |s|
    ensures r.Some? ==> r.value < upto && !IsSpace(s[r.value])
  {
    if upto == 0 then None
    else if !IsSpace(s[upto - 1]) then Some(upto - 1)
    else LastNotSpace(s, upto - 1)
  }

  /** Everything `LastNotSpace` skips is blank. */
  lemma {:induction false} LastNotSpaceIsLast(s: string, upto: nat)
    requires upto <= |s|
    ensures var r := LastNotSpace(s, upto);
            forall j :: (if r.Some? then r.value + 1 else 0) <= j < upto ==> IsSpace(s[j])
  {
    if upto > 0 && IsSpace(s[upto - 1]) {
      LastNotSpaceIsLast(s, upto - 1);
    }
  }

  /** `trim`: `s` without its leading and trailing blanks (see TrimSlice). */
  function Trim(s: string): (t: string)
    ensures |t| <= |s|
    ensures |t| > 0 ==> !IsSpace(t[0]) && !IsSpace(t[|t| - 1])
  {
    match FirstNotSpace(s, 0)
    case None => ""
    case Some(start) =>
      LastNotSpaceIsLast(s, |s|);
      var end := LastNotSpace(s, |s|);
      assert end.Some? && start <= end.value;
      s[start .. end.value + 1]
  }

  /** What `trim` keeps is one contiguous piece of `s`, and all it drops are
      blanks. */
  lemma TrimSlice(s: string) returns (a: nat, b: nat)
    ensures a <= b <= |s| && Trim(s) == s[a..b]
    ensures forall j :: 0 <= j < a ==> IsSpace(s[j])
    ensures forall j :: b <= j < |s| ==> IsSpace(s[j])
  {
    FirstNotSpaceIsFirst(s, 0);
    LastNotSpaceIsLast(s, |s|);
    match FirstNotSpace(s, 0)
    case None =>
      a, b := |s|, |s|;
    case Some(start) =>
      var end := LastNotSpace(s, |s|);
      a, b := start, end.value + 1;
  }

  /** `trim` yields the empty string exactly for all-blank input. */
  lemma TrimEmpty(s: string)
    ensures |Trim(s)| == 0 <==> forall j :: 0 <= j < |s| ==> IsSpace(s[j])
  {
    var a, b := TrimSlice(s);
    if |Trim(s)| > 0 {
      assert !IsSpace(s[a]);
    }
  }

  /** Trimming twice is trimming once. */
  lemma TrimIdempotent(s: string)
    ensures Trim(Trim(s)) == Trim(s)
  {
    var t := Trim(s);
    if |t| > 0 {
      assert FirstNotSpace(t, 0) == Some(0);
      assert LastNotSpace(t, |t|) == Some(|t| - 1);
      assert t[0 .. |t|] == t;
    }
  }

  // ---------------------------------------------------------------------------
  // findFirstTagValue
  // ---------------------------------------------------------------------------

  function OpenTag(tag: string): string { "<" + tag + ">" }

  function CloseTag(tag: string): string { "</" + tag + ">" }

  /** Where the text of the first `<tag>` element lies: from the end of the
      first opening tag to the first closing tag after it. */
  function TagSpan(xml: string, tag: string): (span: Option<(nat, nat)>)
    ensures span.Some? ==> span.value.0 <= span.value.1 <= |xml|
  {
    match Find(xml, OpenTag(tag), 0)
    case None => None
    case Some(pos) =>
      var start := pos + |OpenTag(tag)|;
      match Find(xml, CloseTag(tag), start)
      case None => None
      case Some(end) => Some((start, end))
  }

  /** The span lies between the first opening tag and the first closing tag
      that follows it; there is none when either is missing. */
  lemma TagSpanBetween(xml: string, tag: string)
    ensures Find(xml, OpenTag(tag), 0).None? ==> TagSpan(xml, tag).None?
    ensures TagSpan(xml, tag).Some? ==>
              var (start, end) := TagSpan(xml, tag).value;
              start >= |OpenTag(tag)| && MatchAt(xml, OpenTag(tag), start - |OpenTag(tag)|) &&
              (forall j :: 0 <= j < start - |OpenTag(tag)| ==> !MatchAt(xml, OpenTag(tag), j)) &&
              MatchAt(xml, CloseTag(tag), end) &&
              (forall j :: start <= j < end ==> !MatchAt(xml, CloseTag(tag), j))
  {
    FindIsFirst(xml, OpenTag(tag), 0);
    match Find(xml, OpenTag(tag), 0)
    case None =>
    case Some(pos) => FindIsFirst(xml, CloseTag(tag), pos + |OpenTag(tag)|);
  }

  /** `findFirstTagValue(xml, tag, out)`: the trimmed text between the first
      `<tag>` and the next `</tag>`. The result pairs the returned flag with
      the new value of `out`: `out` keeps its old value when either tag is
      missing, and otherwise takes the trimmed text, the flag saying whether
      that is non-blank. */
  function FindFirstTagValue(xml: string, tag: string, out: string): (r: (bool, string))
    ensures TagSpan(xml, tag).None? ==> r == (false, out)
    ensures r.0 <==> TagSpan(xml, tag).Some? && |r.1| > 0
    ensures r.0 ==> !IsSpace(r.1[0]) && !IsSpace(r.1[|r.1| - 1])
    ensures TagSpan(xml, tag).Some? ==> r.1 == Trim(xml[TagSpan(xml, tag).value.0 .. TagSpan(xml, tag).value.1])
  {
    match TagSpan(xml, tag)
    case None => (false, out)
    case Some((start, end)) =>
      var text := Trim(xml[start .. end]);
      (|text| > 0, text)
  }

  // ---------------------------------------------------------------------------
  // findMaxTagDouble
  // ---------------------------------------------------------------------------

  /** The raw texts of the `<tag>…</tag>` pairs on the walk that starts
      at the opening tag found at `at`: each next opening tag is searched
      for after the previous closing tag, and the walk stops at the first
      opening tag without a closing tag. */
  function TagTexts(xml: string, open: string, close: string, at: Option<nat>): seq<string>
    requires |close| > 0
    requires at.Some? ==> at.value + |open| <= |xml|
    decreases if at.Some? then |xml| + 1 - at.value else 0
  {
    match at
    case None => []
    case Some(p) =>
      match Find(xml, close, p + |open|)
      case None => []
      case Some(e) => [xml[p + |open| .. e]] + TagTexts(xml, open, close, Find(xml, open, e + |close|))
  }

  /** One step of the maximum: `if (isnan(best) || v > best) best = v`,
      skipped when `stod` throws. A NaN value only replaces a NaN. */
  function Better(best: Double, v: Option<Double>): Double
  {
    match v
    case None => best
    case Some(NaN) => best
    case Some(Num(x)) => if best.NaN? || x > best.value then Num(x) else best
  }

  /** How `findMaxTagDouble` reads the text of a pair: trimmed, then given
      to `stod`. */
  function Reading(parse: string -> Option<Double>): string -> Option<Double>
  {
    t => parse(Trim(t))
  }

  /** The running maximum over `texts`, starting from `best`. */
  function MaxParsed(best: Double, texts: seq<string>, read: string -> Option<Double>): Double
    decreases |texts|
  {
    if |texts| == 0 then best
    else MaxParsed(Better(best, read(texts[0])), texts[1..], read)
  }

  /** A text that reads as a number. */
  predicate ParsesTo(t: string, read: string -> Option<Double>, x: real)
  {
    read(t) == Some(Num(x))
  }

  /** The running maximum is NaN exactly when it starts at NaN and no text
      parses to a number; otherwise it is the start or the value of one of
      the texts, and neither the start nor any text is larger. */
  lemma {:induction false} MaxParsedIsMax(best: Double, texts: seq<string>, read: string -> Option<Double>)
    ensures MaxParsed(best, texts, read).NaN? <==>
              best.NaN? && forall i, x :: 0 <= i < |texts| ==> !ParsesTo(texts[i], read, x)
    ensures var m := MaxParsed(best, texts, read);
            m.Num? ==>
              (m == best || exists i :: 0 <= i < |texts| && ParsesTo(texts[i], read, m.value)) &&
              (best.Num? ==> best.value <= m.value) &&
              forall i, x :: 0 <= i < |texts| && ParsesTo(texts[i], read, x) ==> x <= m.value
    decreases |texts|
  {
    if |texts| > 0 {
      var b := Better(best, read(texts[0]));
      var rest := texts[1..];
      MaxParsedIsMax(b, rest, read);
      forall i | 1 <= i < |texts|
        ensures texts[i] == rest[i - 1]
      {
      }
      var m := MaxParsed(best, texts, read);
      if m.Num? && m != best && m == b {
        assert ParsesTo(texts[0], read, m.value);
      } else if m.Num? && m != b {
        var i :| 0 <= i < |rest| && ParsesTo(rest[i], read, m.value);
        assert ParsesTo(texts[i + 1], read, m.value);
      }
    }
  }

  /** One pair on the walk: its text is the next one folded in. */
  lemma {:induction false} WalkStep(xml: string, open: string, close: string, p: nat, e: nat,
                                    best: Double, best': Double, read: string -> Option<Double>)
    requires |close| > 0 && p + |open| <= |xml|
    requires Find(xml, close, p + |open|) == Some(e)
    requires best' == Better(best, read(xml[p + |open| .. e]))
    ensures MaxParsed(best, TagTexts(xml, open, close, Some(p)), read) ==
            MaxParsed(best', TagTexts(xml, open, close, Find(xml, open, e + |close|)), read)
  {
    var rest := TagTexts(xml, open, close, Find(xml, open, e + |close|));
    assert TagTexts(xml, open, close, Some(p)) == [xml[p + |open| .. e]] + rest;
    assert ([xml[p + |open| .. e]] + rest)[1..] == rest;
  }

  /** An opening tag without a closing tag ends the walk. */
  lemma WalkEnd(xml: string, open: string, close: string, p: nat, best: Double, read: string -> Option<Double>)
    requires |close| > 0 && p + |open| <= |xml|
    requires Find(xml, close, p + |open|).None?
    ensures MaxParsed(best, TagTexts(xml, open, close, Some(p)), read) == best
  {
  }

  /** The body of the loop of `findMaxTagDouble`: the trimmed text is
      parsed and replaces `best` when it is a larger number, or when `best`
      is still NaN. */
  method Consider(raw: string, best: Double, parse: string -> Option<Double>) returns (best': Double)
    ensures best' == Better(best, Reading(parse)(raw))
  {
    best' := best;
    var text := Trim(raw);
    var v := parse(text);
    if v.Some? && v.value.Num? && (best.NaN? || v.value.value > best.value) {
      best' := v.value;
    }
  }

  /** One pass of the loop of `findMaxTagDouble` at the opening tag found
      at `p`. When its closing tag is missing the loop breaks, which is
      `next == None` here; otherwise the text is folded into `best` and the
      next opening tag is searched for after the closing tag. */
  method WalkPair(xml: string, open: string, close: string, p: nat, best: Double, parse: string -> Option<Double>)
    returns (next: Option<nat>, best': Double)
    requires |close| > 0 && p + |open| <= |xml|
    ensures next.Some? ==> p < next.value && next.value + |open| <= |xml|
    ensures MaxParsed(best, TagTexts(xml, open, close, Some(p)), Reading(parse)) ==
            MaxParsed(best', TagTexts(xml, open, close, next), Reading(parse))
  {
    var end := Find(xml, close, p + |open|);
    if end.None? {
      WalkEnd(xml, open, close, p, best, Reading(parse));
      return None, best;
    }
    next, best' := FoldPair(xml, open, close, p, end.value, best, parse);
  }

  /** A pair whose closing tag starts at `e`: its text is folded into
      `best` and the next opening tag is searched for after `</tag>`. */
  method FoldPair(xml: string, open: string, close: string, p: nat, e: nat, best: Double,
                  parse: string -> Option<Double>)
    returns (next: Option<nat>, best': Double)
    requires |close| > 0 && p + |open| <= |xml|
    requires Find(xml, close, p + |open|) == Some(e)
    ensures next.Some? ==> p < next.value && next.value + |open| <= |xml|
    ensures MaxParsed(best, TagTexts(xml, open, close, Some(p)), Reading(parse)) ==
            MaxParsed(best', TagTexts(xml, open, close, next), Reading(parse))
  {
    best' := Consider(xml[p + |open| .. e], best, parse);
    WalkStep(xml, open, close, p, e, best, best', Reading(parse));
    next := Find(xml, open, e + |close|);
  }

  /** `findMaxTagDouble`: the largest value among the `<tag>` texts that
      parse, NaN when none does (see MaxTagIsMax). */
  method FindMaxTagDouble(xml: string, tag: string, parse: string -> Option<Double>) returns (best: Double)
    ensures best == MaxTag(xml, tag, parse)
  {
    var open, close := OpenTag(tag), CloseTag(tag);
    ghost var result := MaxTag(xml, tag, parse);
    best := NaN;
    var pos := Find(xml, open, 0);
    while pos.Some?
      invariant pos.Some? ==> pos.value + |open| <= |xml|
      invariant MaxParsed(best, TagTexts(xml, open, close, pos), Reading(parse)) == result
      decreases if pos.Some? then |xml| + 1 - pos.value else 0
    {
      pos, best := WalkPair(xml, open, close, pos.value, best, parse);
    }
  }

  // ---------------------------------------------------------------------------
  // extractCziMetadataFromXml
  // ---------------------------------------------------------------------------

  /** `CziMetadata` / `CziMetadataDefaults`. */
  datatype CziMetadata = CziMetadata(
    barcode: string,
    mppX: Double,
    mppY: Double,
    apparentMag: Double,
    minificationFactor: Double,
    pyramidLayers: int)

  /** The defaults the source declares: no barcode, unknown resolution,
      magnification 21, minification 2 and a single pyramid layer. */
  const Defaults: CziMetadata := CziMetadata("", NaN, NaN, Num(21.0), Num(2.0), 1)

  /** The text from the first `startTag` through the first `endTag` at or
      after it, or "" when either is missing. */
  function Section(xml: string, startTag: string, endTag: string): (sec: string)
    ensures Find(xml, startTag, 0).None? ==> sec == ""
  {
    var start := Find(xml, startTag, 0);
    var end := Find(xml, endTag, if start.None? then 0 else start.value);
    if start.Some? && end.Some? then xml[start.value .. end.value + |endTag|] else ""
  }

  /** A non-empty section runs from the first `startTag` to the end of the
      first `endTag` at or after it. */
  lemma SectionBetween(xml: string, startTag: string, endTag: string) returns (start: nat, end: nat)
    requires Section(xml, startTag, endTag) != ""
    ensures MatchAt(xml, startTag, start) && forall j :: 0 <= j < start ==> !MatchAt(xml, startTag, j)
    ensures start <= end && MatchAt(xml, endTag, end) && forall j :: start <= j < end ==> !MatchAt(xml, endTag, j)
    ensures Section(xml, startTag, endTag) == xml[start .. end + |endTag|]
  {
    FindIsFirst(xml, startTag, 0);
    start := Find(xml, startTag, 0).value;
    FindIsFirst(xml, endTag, start);
    end := Find(xml, endTag, start).value;
  }

  /** A metres-per-pixel reading in micrometres (`* 1e6`). */
  function Micro(d: Double): Double
  {
    match d
    case NaN => NaN
    case Num(x) => Num(x * 1000000.0)
  }

  /** `static_cast<int>`: truncation toward zero. */
  function Truncate(x: real): (n: int)
    ensures x >= 0.0 ==> n as real <= x < n as real + 1.0
    ensures x < 0.0 ==> n as real - 1.0 < x <= n as real
  {
    if x >= 0.0 then x.Floor else -((-x).Floor)
  }

  /** The barcode: the first non-blank `<Content>` of the `<Barcodes>`
      section, else the default. */
  function BarcodeOf(xml: string, dflt: string): string
  {
    var section := Section(xml, "<Barcodes>", "</Barcodes>");
    var (found, content) := FindFirstTagValue(section, "Content", "");
    if section != "" && found then content else dflt
  }

  /** The value of a `<Value>` text that parses, else `dflt`. */
  function ValueOr(found: bool, text: string, parse: string -> Option<Double>, dflt: Double): Double
  {
    if found && parse(text).Some? then Micro(parse(text).value) else dflt
  }

  /** The first `<Value>` of the `<Scaling>` section, as micrometres. */
  function MppXOf(xml: string, parse: string -> Option<Double>, dflt: Double): Double
  {
    var scaling := Section(xml, "<Scaling>", "</Scaling>");
    var (found, v1) := FindFirstTagValue(scaling, "Value", "");
    if scaling != "" then ValueOr(found, v1, parse, dflt) else dflt
  }

  /** The first `<Value>` after the first `</Value>` of the section. */
  function MppYOf(xml: string, parse: string -> Option<Double>, dflt: Double): Double
  {
    var scaling := Section(xml, "<Scaling>", "</Scaling>");
    var firstClose := Find(scaling, "</Value>", 0);
    if scaling != "" && firstClose.Some? then
      match Find(scaling, "<Value>", firstClose.value)
      case None => dflt
      case Some(second) =>
        var (found, v2) := FindFirstTagValue(scaling[second..], "Value", "");
        ValueOr(found, v2, parse, dflt)
    else dflt
  }

  /** The texts of every `<tag>…</tag>` pair the maximum walks over. */
  function TagTextsOf(xml: string, tag: string): seq<string>
  {
    TagTexts(xml, OpenTag(tag), CloseTag(tag), Find(xml, OpenTag(tag), 0))
  }

  /** `findMaxTagDouble` as a function of the document. */
  function MaxTag(xml: string, tag: string, parse: string -> Option<Double>): Double
  {
    MaxParsed(NaN, TagTextsOf(xml, tag), Reading(parse))
  }

  /** `findMaxTagDouble` yields NaN exactly when no `<tag>` text parses to a
      number, and otherwise the largest such number. */
  lemma MaxTagIsMax(xml: string, tag: string, parse: string -> Option<Double>)
    ensures var texts := TagTextsOf(xml, tag);
            var m := MaxTag(xml, tag, parse);
            (m.NaN? <==> forall i, x :: 0 <= i < |texts| ==> !ParsesTo(texts[i], Reading(parse), x)) &&
            (m.Num? ==> (exists i :: 0 <= i < |texts| && ParsesTo(texts[i], Reading(parse), m.value)) &&
                        forall i, x :: 0 <= i < |texts| && ParsesTo(texts[i], Reading(parse), x) ==> x <= m.value)
  {
    MaxParsedIsMax(NaN, TagTextsOf(xml, tag), Reading(parse));
  }

  /** The larger of the two magnifications, ignoring NaN; the first one
      when they are equal or the second is NaN. */
  function MaxMag(tot: Double, theo: Double): Double
  {
    if tot.NaN? || (theo.Num? && theo.value > tot.value) then theo else tot
  }

  /** The apparent magnification, else `dflt`. */
  function MagnificationOf(xml: string, parse: string -> Option<Double>, dflt: Double): Double
  {
    var mag := MaxMag(MaxTag(xml, "TotalMagnification", parse), MaxTag(xml, "TheoreticalTotalMagnification", parse));
    if mag.Num? then mag else dflt
  }

  /** The largest `<MinificationFactor>`, else `dflt`. */
  function MinificationOf(xml: string, parse: string -> Option<Double>, dflt: Double): Double
  {
    var v := MaxTag(xml, "MinificationFactor", parse);
    if v.Num? then v else dflt
  }

  /** The largest `<PyramidLayersCount>`, truncated, else `dflt`. */
  function LayersOf(xml: string, parse: string -> Option<Double>, dflt: int): int
  {
    var v := MaxTag(xml, "PyramidLayersCount", parse);
    if v.Num? then Truncate(v.value) else dflt
  }

  /** The metadata `extractCziMetadataFromXml` returns. */
  function Extract(xml: string, d: CziMetadata, parse: string -> Option<Double>): CziMetadata
  {
    d.(barcode := BarcodeOf(xml, d.barcode),
       mppX := MppXOf(xml, parse, d.mppX),
       mppY := MppYOf(xml, parse, d.mppY),
       apparentMag := MagnificationOf(xml, parse, d.apparentMag),
       minificationFactor := MinificationOf(xml, parse, d.minificationFactor),
       pyramidLayers := LayersOf(xml, parse, d.pyramidLayers))
  }

  /** The barcode section of `extractCziMetadataFromXml`. */
  method ScanBarcode(xml: string, md: CziMetadata) returns (r: CziMetadata)
    ensures r == md.(barcode := BarcodeOf(xml, md.barcode))
  {
    r := md;
    var barcodeSection := Section(xml, "<Barcodes>", "</Barcodes>");
    var (found, content) := FindFirstTagValue(barcodeSection, "Content", "");
    if barcodeSection != "" && found {
      r := r.(barcode := content);
    }
  }

  /** The microns-per-pixel section: the first two `<Value>` texts of
      `<Scaling>`. */
  method ScanScaling(xml: string, parse: string -> Option<Double>, md: CziMetadata) returns (r: CziMetadata)
    ensures r == md.(mppX := MppXOf(xml, parse, md.mppX), mppY := MppYOf(xml, parse, md.mppY))
  {
    r := md;
    var scaling := Section(xml, "<Scaling>", "</Scaling>");
    if scaling != "" {
      var (found1, v1) := FindFirstTagValue(scaling, "Value", "");
      if found1 {
        var x := parse(v1);
        if x.Some? {
          r := r.(mppX := Micro(x.value));
        }
      }
      var secondPos := Find(scaling, "</Value>", 0);
      if secondPos.Some? {
        secondPos := Find(scaling, "<Value>", secondPos.value);
        if secondPos.Some? {
          var tmp := scaling[secondPos.value..];
          var (found2, v2) := FindFirstTagValue(tmp, "Value", "");
          if found2 {
            var y := parse(v2);
            if y.Some? {
              r := r.(mppY := Micro(y.value));
            }
          }
        }
      }
    }
  }

  /** The apparent-magnification section: the larger of the two maxima. */
  method ScanMagnification(xml: string, parse: string -> Option<Double>, md: CziMetadata) returns (r: CziMetadata)
    ensures r == md.(apparentMag := MagnificationOf(xml, parse, md.apparentMag))
  {
    r := md;
    var bestTot := FindMaxTagDouble(xml, "TotalMagnification", parse);
    var bestTheo := FindMaxTagDouble(xml, "TheoreticalTotalMagnification", parse);
    var best := bestTot;
    if best.NaN? || (bestTheo.Num? && bestTheo.value > best.value) {
      best := bestTheo;
    }
    if best.Num? {
      r := r.(apparentMag := best);
    }
  }

  /** The minification-factor and pyramid-layer sections. */
  method ScanPyramid(xml: string, parse: string -> Option<Double>, md: CziMetadata) returns (r: CziMetadata)
    ensures r == md.(minificationFactor := MinificationOf(xml, parse, md.minificationFactor),
                     pyramidLayers := LayersOf(xml, parse, md.pyramidLayers))
  {
    r := md;
    var minification := FindMaxTagDouble(xml, "MinificationFactor", parse);
    if minification.Num? {
      r := r.(minificationFactor := minification);
    }
    var layers := FindMaxTagDouble(xml, "PyramidLayersCount", parse);
    if layers.Num? {
      r := r.(pyramidLayers := Truncate(layers.value));
    }
  }

  /** `extractCziMetadataFromXml`: starts from the defaults and overwrites
      each field that the document supplies. */
  method ExtractCziMetadataFromXml(xml: string, d: CziMetadata, parse: string -> Option<Double>)
    returns (md: CziMetadata)
    ensures md == Extract(xml, d, parse)
  {
    md := ScanBarcode(xml, d);
    md := ScanScaling(xml, parse, md);
    md := ScanMagnification(xml, parse, md);
    md := ScanPyramid(xml, parse, md);
  }

  /** A document with none of the recognised tags yields the defaults
      unchanged. */
  lemma NoTagsKeepsDefaults(xml: string, d: CziMetadata, parse: string -> Option<Double>)
    requires Find(xml, "<Barcodes>", 0).None? && Find(xml, "<Scaling>", 0).None?
    requires Find(xml, OpenTag("TotalMagnification"), 0).None?
    requires Find(xml, OpenTag("TheoreticalTotalMagnification"), 0).None?
    requires Find(xml, OpenTag("MinificationFactor"), 0).None?
    requires Find(xml, OpenTag("PyramidLayersCount"), 0).None?
    ensures Extract(xml, d, parse) == d
    ensures Extract(xml, Defaults, parse) == Defaults
  {
  }

  /** The barcode is the default or the first non-blank `<Content>` text of
      the `<Barcodes>` section; a `<Content>` elsewhere is never used. */
  lemma BarcodeFromSection(xml: string, d: CziMetadata, parse: string -> Option<Double>)
    ensures var b := Extract(xml, d, parse).barcode;
            var section := Section(xml, "<Barcodes>", "</Barcodes>");
            b == d.barcode || (section != "" && FindFirstTagValue(section, "Content", "") == (true, b))
    ensures Find(xml, "<Barcodes>", 0).None? ==> Extract(xml, d, parse).barcode == d.barcode
    ensures var section := Section(xml, "<Barcodes>", "</Barcodes>");
            var content := FindFirstTagValue(section, "Content", "");
            section != "" && content.0 ==> Extract(xml, d, parse).barcode == content.1
  {
  }

  /** The apparent magnification is the largest `<TotalMagnification>` or
      `<TheoreticalTotalMagnification>` value that parses, and the default
      when there is none. */
  lemma MagnificationIsMax(xml: string, d: CziMetadata, parse: string -> Option<Double>)
    ensures var tot := MaxTag(xml, "TotalMagnification", parse);
            var theo := MaxTag(xml, "TheoreticalTotalMagnification", parse);
            var mag := Extract(xml, d, parse).apparentMag;
            (tot.NaN? && theo.NaN? ==> mag == d.apparentMag) &&
            (tot.Num? ==> mag.Num? && tot.value <= mag.value) &&
            (theo.Num? ==> mag.Num? && theo.value <= mag.value) &&
            (tot.Num? || theo.Num? ==> mag == tot || mag == theo)
  {
  }


  /** The minification factor is the default when no `<MinificationFactor>`
      text parses to a number, and otherwise one of the parsed values, no
      smaller than any other. */
  lemma MinificationIsMax(xml: string, parse: string -> Option<Double>, dflt: Double)
    ensures var texts := TagTextsOf(xml, "MinificationFactor");
            var m := MinificationOf(xml, parse, dflt);
            ((forall i, x :: 0 <= i < |texts| ==> !ParsesTo(texts[i], Reading(parse), x)) ==> m == dflt) &&
            ((exists i, x :: 0 <= i < |texts| && ParsesTo(texts[i], Reading(parse), x)) ==>
               m.Num? && (exists i :: 0 <= i < |texts| && ParsesTo(texts[i], Reading(parse), m.value)) &&
               forall i, x :: 0 <= i < |texts| && ParsesTo(texts[i], Reading(parse), x) ==> x <= m.value)
  {
    MaxTagIsMax(xml, "MinificationFactor", parse);
  }

  /** The pyramid layer count is the default when no `<PyramidLayersCount>`
      text parses to a number, and otherwise the truncation of one of the
      parsed values, with every parsed value below that count plus one. */
  lemma LayersFromMax(xml: string, parse: string -> Option<Double>, dflt: int)
    ensures var texts := TagTextsOf(xml, "PyramidLayersCount");
            var n := LayersOf(xml, parse, dflt);
            ((forall i, x :: 0 <= i < |texts| ==> !ParsesTo(texts[i], Reading(parse), x)) ==> n == dflt) &&
            ((exists i, x :: 0 <= i < |texts| && ParsesTo(texts[i], Reading(parse), x)) ==>
               (exists i, x :: 0 <= i < |texts| && ParsesTo(texts[i], Reading(parse), x) && n == Truncate(x)) &&
               forall i, x :: 0 <= i < |texts| && ParsesTo(texts[i], Reading(parse), x) ==> x < n as real + 1.0)
  {
    var texts, m := TagTextsOf(xml, "PyramidLayersCount"), MaxTag(xml, "PyramidLayersCount", parse);
    MaxTagIsMax(xml, "PyramidLayersCount", parse);
    if m.Num? {
      var i :| 0 <= i < |texts| && ParsesTo(texts[i], Reading(parse), m.value);
      assert LayersOf(xml, parse, dflt) == Truncate(m.value);
    }
  }

  /** The resolution is left at its defaults without a `<Scaling>` section;
      with one, the X resolution is the default or the first non-blank
      `<Value>` text of the section, read in metres and scaled to
      micrometres. */
  lemma MppFromScaling(xml: string, d: CziMetadata, parse: string -> Option<Double>)
    ensures var scaling := Section(xml, "<Scaling>", "</Scaling>");
            var md := Extract(xml, d, parse);
            (scaling == "" ==> md.mppX == d.mppX && md.mppY == d.mppY) &&
            (md.mppX == d.mppX ||
             exists v :: FindFirstTagValue(scaling, "Value", "") == (true, v) && parse(v).Some? &&
                         md.mppX == Micro(parse(v).value)) &&
            (md.mppY == d.mppY ||
             (Find(scaling, "</Value>", 0).Some? &&
              exists p :: Find(scaling, "<Value>", Find(scaling, "</Value>", 0).value) == Some(p) &&
                exists v :: FindFirstTagValue(scaling[p..], "Value", "") == (true, v) && parse(v).Some? &&
                            md.mppY == Micro(parse(v).value)))
    ensures var scaling := Section(xml, "<Scaling>", "</Scaling>");
            var first := FindFirstTagValue(scaling, "Value", "");
            scaling != "" && first.0 && parse(first.1).Some? ==>
              Extract(xml, d, parse).mppX == Micro(parse(first.1).value)
    ensures var scaling := Section(xml, "<Scaling>", "</Scaling>");
            var close := Find(scaling, "</Value>", 0);
            scaling != "" && close.Some? && Find(scaling, "<Value>", close.value).Some? ==>
              var second := FindFirstTagValue(scaling[Find(scaling, "<Value>", close.value).value..], "Value", "");
              second.0 && parse(second.1).Some? ==> Extract(xml, d, parse).mppY == Micro(parse(second.1).value)
  {
    var scaling := Section(xml, "<Scaling>", "</Scaling>");
    var (found, v1) := FindFirstTagValue(scaling, "Value", "");
    if scaling != "" && found && parse(v1).Some? {
      assert FindFirstTagValue(scaling, "Value", "") == (true, v1);
    }
  }
}
