/** The Aperio `ImageDescription` texts the converter writes into each TIFF
    directory (`description_generators` in src/main.cpp): a fixed library
    header, the image geometry, `Key = value|` fields, all padded with '='
    to a fixed length. Integers are formatted as `operator<<` formats them;
    the microns-per-pixel text is a parameter, since its floating-point
    formatting is not part of this model. */
module Descriptor {
  import opened Common

  // ---------------------------------------------------------------------------
  // Decimal formatting of integers (`ostream << int`)
  // ---------------------------------------------------------------------------

  predicate IsDigit(c: char) { '0' <= c <= '9' }

  predicate AllDigits(s: string) { forall i :: 0 <= i < |s| ==> IsDigit(s[i]) }

  function DigitChar(d: nat): (c: char)
    requires d < 10
    ensures IsDigit(c)
  {
    ('0' as int + d) as char
  }

  function DigitValue(c: char): (d: nat)
    requires IsDigit(c)
    ensures d < 10 && DigitChar(d) == c
  {
    c as int - '0' as int
  }

  /** The decimal digits of `n`, most significant first, without leading
      zeros. */
  function NatDigits(n: nat): (s: string)
    ensures |s| > 0 && AllDigits(s)
    ensures s[0] == '0' ==> n == 0
    decreases n
  {
    if n < 10 then [DigitChar(n)] else NatDigits(n / 10) + [DigitChar(n % 10)]
  }

  /** `ostream << n` for a signed integer. */
  function Decimal(n: int): (s: string)
    ensures |s| > 0 && '|' !in s && 'x' !in s && '=' !in s
  {
    if n < 0 then "-" + NatDigits(-n) else NatDigits(n)
  }

  /** The value of a string of decimal digits (a reference reading of the
      text, used to show the formatting loses nothing). */
  function DigitsValue(s: string): nat
    requires AllDigits(s)
  {
    if |s| == 0 then 0 else DigitsValue(s[..|s| - 1]) * 10 + DigitValue(s[|s| - 1])
  }

  /** Reads an optionally signed decimal integer; anything else is `None`. */
  function ParseDecimal(s: string): Option<int>
  {
    if |s| > 1 && s[0] == '-' && AllDigits(s[1..]) then var n: int := DigitsValue(s[1..]); Some(-n)
    else if |s| > 0 && AllDigits(s) then Some(DigitsValue(s))
    else None
  }

  lemma {:induction false} NatDigitsValue(n: nat)
    ensures DigitsValue(NatDigits(n)) == n
    decreases n
  {
    if n >= 10 {
      var s := NatDigits(n);
      NatDigitsValue(n / 10);
      assert s[..|s| - 1] == NatDigits(n / 10);
      assert s[|s| - 1] == DigitChar(n % 10);
    }
  }

  /** Formatting round-trips: the printed integer reads back as itself. */
  lemma DecimalRoundTrip(n: int)
    ensures ParseDecimal(Decimal(n)) == Some(n)
  {
    if n < 0 {
      NegativeRoundTrip(n, NatDigits(-n));
    } else {
      NatDigitsValue(n);
      assert IsDigit(NatDigits(n)[0]);
    }
  }

  lemma NegativeRoundTrip(n: int, d: string)
    requires n < 0 && d == NatDigits(-n)
    ensures ParseDecimal("-" + d) == Some(n)
  {
    assert ("-" + d)[1..] == d;
    NatDigitsValue(-n);
  }

  /** Different integers print differently. */
  lemma DecimalInjective(m: int, n: int)
    ensures Decimal(m) == Decimal(n) <==> m == n
  {
    DecimalRoundTrip(m);
    DecimalRoundTrip(n);
  }

  // ---------------------------------------------------------------------------
  // Background colour
  // ---------------------------------------------------------------------------

  /** `encode_bg` on channels already rounded to 0..255: red in bits 16..23,
      green in bits 8..15, blue in bits 0..7, combined with `|`; that is
      `R * 65536 + G * 256 + B`. */
  function EncodeBg(r: bv8, g: bv8, b: bv8): (v: bv32)
    ensures v <= 0xFF_FFFF
    ensures v == (r as bv32) * 0x1_0000 + (g as bv32) * 0x100 + (b as bv32)
  {
    ((r as bv32) << 16) | ((g as bv32) << 8) | (b as bv32)
  }

  /** The channels of a packed colour. */
  function DecodeBg(v: bv32): (bv8, bv8, bv8)
  {
    (((v >> 16) & 0xFF) as bv8, ((v >> 8) & 0xFF) as bv8, (v & 0xFF) as bv8)
  }

  /** Each channel is recovered from the packed colour. */
  lemma EncodeDecodeBg(r: bv8, g: bv8, b: bv8)
    ensures DecodeBg(EncodeBg(r, g, b)) == (r, g, b)
  {
  }

  /** Every value up to 0xFFFFFF is the packing of its channels. */
  lemma DecodeEncodeBg(v: bv32)
    requires v <= 0xFF_FFFF
    ensures var (r, g, b) := DecodeBg(v); EncodeBg(r, g, b) == v
  {
  }

  /** White (1.0, 1.0, 1.0 scaled to 255 each) packs to 0xFFFFFF. */
  lemma WhiteBg()
    ensures EncodeBg(255, 255, 255) == 0xFF_FFFF
  {
  }

  // ---------------------------------------------------------------------------
  // Padding
  // ---------------------------------------------------------------------------

  /** `n` copies of `c`. */
  function Repeat(c: char, n: nat): (s: string)
    ensures |s| == n && forall i :: 0 <= i < n ==> s[i] == c
  {
    if n == 0 then [] else Repeat(c, n - 1) + [c]
  }

  /** `pad_equals`: a text shorter than `padLength` is extended with '=' to
      exactly `padLength` characters; a longer one is kept as it is. */
  function PadEquals(s: string, padLength: nat): (p: string)
    ensures |p| == Max(|s|, padLength)
    ensures p[..|s|] == s
    ensures forall i :: |s| <= i < |p| ==> p[i] == '='
  {
    if |s| < padLength then s + Repeat('=', padLength - |s|) else s
  }

  /** Padding a padded text again changes nothing. */
  lemma PadEqualsIdempotent(s: string, padLength: nat)
    ensures PadEquals(PadEquals(s, padLength), padLength) == PadEquals(s, padLength)
  {
  }

  /** The text with its trailing '=' removed: the inverse of `PadEquals`. */
  function Unpad(s: string): (u: string)
    ensures u <= s
    ensures |u| > 0 ==> u[|u| - 1] != '='
    decreases |s|
  {
    if |s| > 0 && s[|s| - 1] == '=' then Unpad(s[..|s| - 1]) else s
  }

  /** A text that does not end in '=' is recovered from its padding. */
  lemma {:induction false} UnpadPadEquals(s: string, padLength: nat)
    requires |s| > 0 && s[|s| - 1] != '='
    ensures Unpad(PadEquals(s, padLength)) == s
  {
    UnpadAppended(s, Max(|s|, padLength) - |s|, PadEquals(s, padLength));
  }

  lemma {:induction false} UnpadAppended(s: string, n: nat, p: string)
    requires |s| > 0 && s[|s| - 1] != '='
    requires |p| == |s| + n && p[..|s|] == s
    requires forall i :: |s| <= i < |p| ==> p[i] == '='
    ensures Unpad(p) == s
    decreases n
  {
    if n > 0 {
      UnpadAppended(s, n - 1, p[..|p| - 1]);
    } else {
      assert p == s;
    }
  }

  // ---------------------------------------------------------------------------
  // Fields separated by '|'
  // ---------------------------------------------------------------------------

  /** The position of the first `c` in `s`. */
  function IndexOf(s: string, c: char): (i: nat)
    requires c in s
    ensures i < |s| && s[i] == c
  {
    if s[0] == c then 0 else 1 + IndexOf(s[1..], c)
  }

  /** No `c` comes before `IndexOf(s, c)`. */
  lemma {:induction false} IndexOfFirst(s: string, c: char)
    requires c in s
    ensures forall j :: 0 <= j < IndexOf(s, c) ==> s[j] != c
  {
    if s[0] != c {
      assert c in s[1..] by {
        var k :| 0 <= k < |s| && s[k] == c;
        assert s[1..][k - 1] == c;
      }
      IndexOfFirst(s[1..], c);
      forall j | 1 <= j < IndexOf(s, c)
        ensures s[j] != c
      {
        assert s[j] == s[1..][j - 1];
      }
    }
  }

  /** The pieces of `s` between occurrences of `sep`. */
  function Split(s: string, sep: char): (parts: seq<string>)
    ensures |parts| > 0
    decreases |s|
  {
    if sep in s then
      var i := IndexOf(s, sep);
      [s[..i]] + Split(s[i + 1..], sep)
    else [s]
  }

  /** The first piece of `a + sep + b` is `a` when `a` holds no `sep`. */
  lemma SplitCons(a: string, b: string, sep: char)
    requires sep !in a
    ensures Split(a + [sep] + b, sep) == [a] + Split(b, sep)
  {
    var s := a + [sep] + b;
    assert s[|a|] == sep;
    var i := IndexOf(s, sep);
    IndexOfFirst(s, sep);
    assert forall j :: 0 <= j < |a| ==> s[j] == a[j];
    assert i == |a|;
    assert s[..i] == a;
    assert s[i + 1..] == b;
  }

  /** Fields each followed by a '|'. */
  function Terminated(parts: seq<string>): (s: string)
    ensures |parts| > 0 ==> |s| > 0 && s[|s| - 1] == '|'
  {
    if |parts| == 0 then "" else parts[0] + "|" + Terminated(parts[1..])
  }

  /** Splitting '|'-terminated fields on '|' gives the fields back, followed
      by the empty text after the last '|'. */
  lemma {:induction false} SplitTerminated(parts: seq<string>)
    requires forall i :: 0 <= i < |parts| ==> '|' !in parts[i]
    ensures Split(Terminated(parts), '|') == parts + [""]
  {
    if |parts| == 0 {
      assert Split("", '|') == [""];
    } else {
      var rest := parts[1..];
      forall i | 0 <= i < |rest|
        ensures '|' !in rest[i]
      {
        assert rest[i] == parts[i + 1];
      }
      SplitTerminated(rest);
      SplitTerminatedStep(parts[0], rest);
      assert parts == [parts[0]] + rest;
    }
  }

  /** One more field in front of a '|'-terminated list. */
  lemma SplitTerminatedStep(first: string, rest: seq<string>)
    requires '|' !in first
    requires Split(Terminated(rest), '|') == rest + [""]
    ensures Split(Terminated([first] + rest), '|') == [first] + rest + [""]
  {
    TerminatedCons(first, rest);
    SplitCons(first, Terminated(rest), '|');
    ConsAppend(first, rest, "");
  }

  lemma TerminatedCons(first: string, rest: seq<string>)
    ensures Terminated([first] + rest) == first + ['|'] + Terminated(rest)
  {
    assert ([first] + rest)[1..] == rest;
  }

  lemma ConsAppend<T>(x: T, s: seq<T>, y: T)
    ensures [x] + (s + [y]) == [x] + s + [y]
  {
  }

  lemma TerminatedPrefix(parts: seq<string>, pre: string)
    requires |parts| > 0 && pre <= parts[0]
    ensures pre <= Terminated(parts)
  {
    assert Terminated(parts) == parts[0] + "|" + Terminated(parts[1..]);
    PrefixExtend(pre, parts[0], "|");
    PrefixExtend(pre, parts[0] + "|", Terminated(parts[1..]));
  }

  /** A descriptor: '|'-terminated fields padded with '='. Unpadding and
      splitting on '|' gives the fields back, provided no field contains
      a '|'. */
  lemma DescriptorFields(parts: seq<string>, padLength: nat)
    requires |parts| > 0
    requires forall i :: 0 <= i < |parts| ==> '|' !in parts[i]
    ensures Split(Unpad(PadEquals(Terminated(parts), padLength)), '|') == parts + [""]
  {
    UnpadPadEquals(Terminated(parts), padLength);
    SplitTerminated(parts);
  }

  /** `width x height`, as `w << 'x' << h` prints it. */
  function Dims(w: int, h: int): (s: string)
    ensures '|' !in s
  {
    Decimal(w) + "x" + Decimal(h)
  }

  /** The two numbers of a size are recovered by splitting at the 'x'. */
  lemma DimsSplit(w: int, h: int)
    ensures Split(Dims(w, h), 'x') == [Decimal(w), Decimal(h)]
  {
    SplitCons(Decimal(w), Decimal(h), 'x');
    assert Decimal(w) + "x" + Decimal(h) == Decimal(w) + ['x'] + Decimal(h);
    assert Split(Decimal(h), 'x') == [Decimal(h)];
  }

  /** The header every descriptor starts with. */
  const Header: string := "Aperio Image Library v12.0.0.1"

  /** The text of a descriptor whose fields are `parts`, before padding. */
  function Text(parts: seq<string>): (s: string)
    requires |parts| > 0 && Header <= parts[0]
    ensures Header <= s
  {
    TerminatedPrefix(parts, Header);
    Terminated(parts)
  }

  /** The five `Key = value` fields shared by the full-resolution,
      thumbnail and overview descriptors; the first one follows the image
      geometry `geometry`. */
  function Fields(geometry: string, quality: int, appMag: int, mpp: string, bg: bv32, barcode: string): (parts: seq<string>)
    ensures |parts| == 5 && geometry <= parts[0]
  {
    [geometry + "Q = " + Decimal(quality), "AppMag = " + Decimal(appMag), "MPP = " + mpp,
     "BackgroundColor = " + NatDigits(bg as int), "Barcode = " + barcode]
  }

  /** No field holds a '|' unless the MPP text or the barcode does. */
  lemma FieldsNoBar(geometry: string, quality: int, appMag: int, mpp: string, bg: bv32, barcode: string)
    requires '|' !in geometry && '|' !in mpp && '|' !in barcode
    ensures var parts := Fields(geometry, quality, appMag, mpp, bg, barcode);
            forall i :: 0 <= i < |parts| ==> '|' !in parts[i]
  {
    assert '|' !in NatDigits(bg as int) by {
      assert Decimal(bg as int) == NatDigits(bg as int);
    }
    NoBarJoin(geometry, "Q = ");
    NoBarJoin(geometry + "Q = ", Decimal(quality));
    NoBarJoin("AppMag = ", Decimal(appMag));
    NoBarJoin("MPP = ", mpp);
    NoBarJoin("BackgroundColor = ", NatDigits(bg as int));
    NoBarJoin("Barcode = ", barcode);
  }

  lemma NoBarJoin(a: string, b: string)
    requires '|' !in a && '|' !in b
    ensures '|' !in a + b
  {
  }

  // ---------------------------------------------------------------------------
  // The five descriptors
  // ---------------------------------------------------------------------------

  lemma HeaderNoBar()
    ensures '|' !in Header
  {
  }

  /** The text after the header of the full-resolution descriptor, up to
      its first field: `\n\nW x H [0,0 W x H] [tileW x tileH] JPEG/RGB `. */
  function IFD0Layout(full: string, tile: string): (t: string)
    ensures '|' !in full && '|' !in tile ==> '|' !in t
  {
    "\n\n" + full + " " + "[0,0 " + full + "] " + "[" + tile + "] " + "JPEG/RGB "
  }

  /** The same for the thumbnail: `\n\nW x H -> w x h `. */
  function ThumbnailLayout(full: string, thumb: string): (t: string)
    ensures '|' !in full && '|' !in thumb ==> '|' !in t
  {
    "\n\n" + full + " -> " + thumb + " "
  }

  /** The same for the overview:
      `\n\nW x H [0,0 W x H] [tileW x tileH] -> w x h JPEG/RGB `. */
  function OverviewLayout(full: string, tile: string, ov: string): (t: string)
    ensures '|' !in full && '|' !in tile && '|' !in ov ==> '|' !in t
  {
    "\n\n" + full + " " + "[0,0 " + full + "] " + "[" + tile + "] -> " + ov + " " + "JPEG/RGB "
  }

  /** Geometry of the full-resolution directory:
      `W x H [0,0 W x H] [tileW x tileH] JPEG/RGB `. */
  function IFD0Geometry(fullW: int, fullH: int, tileW: int, tileH: int): (g: string)
    ensures Header <= g && '|' !in g
  {
    HeaderNoBar();
    Header + IFD0Layout(Dims(fullW, fullH), Dims(tileW, tileH))
  }

  /** `make_aperio_description_IFD0`. */
  function DescriptionIFD0(fullW: int, fullH: int, tileW: int, tileH: int, quality: int, appMag: int,
                           mpp: string, r: bv8, g: bv8, b: bv8, barcode: string, padLength: nat): (d: string)
    ensures Header <= d && |d| >= padLength
    ensures |d| == Max(|Terminated(Fields(IFD0Geometry(fullW, fullH, tileW, tileH), quality, appMag, mpp,
                                          EncodeBg(r, g, b), barcode))|, padLength)
  {
    var geometry := IFD0Geometry(fullW, fullH, tileW, tileH);
    PadEquals(Text(Fields(geometry, quality, appMag, mpp, EncodeBg(r, g, b), barcode)), padLength)
  }

  /** Geometry of the thumbnail directory: `W x H -> w x h `. */
  function ThumbnailGeometry(fullW: int, fullH: int, thumbW: int, thumbH: int): (g: string)
    ensures Header <= g && '|' !in g
  {
    HeaderNoBar();
    Header + ThumbnailLayout(Dims(fullW, fullH), Dims(thumbW, thumbH))
  }

  /** `make_aperio_description_thumbnail` (the MPP text is the caller's
      six-decimal rendering). */
  function DescriptionThumbnail(fullW: int, fullH: int, thumbW: int, thumbH: int, quality: int, appMag: int,
                                mpp: string, r: bv8, g: bv8, b: bv8, barcode: string, padLength: nat): (d: string)
    ensures Header <= d && |d| >= padLength
    ensures |d| == Max(|Terminated(Fields(ThumbnailGeometry(fullW, fullH, thumbW, thumbH), quality, appMag, mpp,
                                          EncodeBg(r, g, b), barcode))|, padLength)
  {
    var geometry := ThumbnailGeometry(fullW, fullH, thumbW, thumbH);
    PadEquals(Text(Fields(geometry, quality, appMag, mpp, EncodeBg(r, g, b), barcode)), padLength)
  }

  /** Geometry of the overview directory:
      `W x H [0,0 W x H] [tileW x tileH] -> w x h JPEG/RGB `. */
  function OverviewGeometry(fullW: int, fullH: int, tileW: int, tileH: int, ovW: int, ovH: int): (g: string)
    ensures Header <= g && '|' !in g
  {
    HeaderNoBar();
    Header + OverviewLayout(Dims(fullW, fullH), Dims(tileW, tileH), Dims(ovW, ovH))
  }

  /** `make_aperio_description_overview` (six-decimal MPP text). */
  function DescriptionOverview(fullW: int, fullH: int, tileW: int, tileH: int, ovW: int, ovH: int,
                               quality: int, appMag: int, mpp: string, r: bv8, g: bv8, b: bv8,
                               barcode: string, padLength: nat): (d: string)
    ensures Header <= d && |d| >= padLength
    ensures |d| == Max(|Terminated(Fields(OverviewGeometry(fullW, fullH, tileW, tileH, ovW, ovH), quality, appMag,
                                          mpp, EncodeBg(r, g, b), barcode))|, padLength)
  {
    var geometry := OverviewGeometry(fullW, fullH, tileW, tileH, ovW, ovH);
    PadEquals(Text(Fields(geometry, quality, appMag, mpp, EncodeBg(r, g, b), barcode)), padLength)
  }

  /** The fields of the full-resolution descriptor read back by removing
      the padding and splitting on '|', as long as neither the MPP text nor
      the barcode contains a '|'. */
  lemma IFD0Fields(fullW: int, fullH: int, tileW: int, tileH: int, quality: int, appMag: int,
                   mpp: string, r: bv8, g: bv8, b: bv8, barcode: string, padLength: nat)
    requires '|' !in mpp && '|' !in barcode
    ensures var parts := Split(Unpad(DescriptionIFD0(fullW, fullH, tileW, tileH, quality, appMag, mpp, r, g, b, barcode, padLength)), '|');
            parts == Fields(IFD0Geometry(fullW, fullH, tileW, tileH), quality, appMag, mpp, EncodeBg(r, g, b), barcode) + [""]
  {
    var geometry := IFD0Geometry(fullW, fullH, tileW, tileH);
    FieldsNoBar(geometry, quality, appMag, mpp, EncodeBg(r, g, b), barcode);
    DescriptorFields(Fields(geometry, quality, appMag, mpp, EncodeBg(r, g, b), barcode), padLength);
  }

  /** Likewise for the thumbnail descriptor. */
  lemma ThumbnailFields(fullW: int, fullH: int, thumbW: int, thumbH: int, quality: int, appMag: int,
                        mpp: string, r: bv8, g: bv8, b: bv8, barcode: string, padLength: nat)
    requires '|' !in mpp && '|' !in barcode
    ensures var parts := Split(Unpad(DescriptionThumbnail(fullW, fullH, thumbW, thumbH, quality, appMag, mpp, r, g, b, barcode, padLength)), '|');
            parts == Fields(ThumbnailGeometry(fullW, fullH, thumbW, thumbH), quality, appMag, mpp, EncodeBg(r, g, b), barcode) + [""]
  {
    var geometry := ThumbnailGeometry(fullW, fullH, thumbW, thumbH);
    FieldsNoBar(geometry, quality, appMag, mpp, EncodeBg(r, g, b), barcode);
    DescriptorFields(Fields(geometry, quality, appMag, mpp, EncodeBg(r, g, b), barcode), padLength);
  }

  /** Likewise for the overview descriptor. */
  lemma OverviewFields(fullW: int, fullH: int, tileW: int, tileH: int, ovW: int, ovH: int,
                       quality: int, appMag: int, mpp: string, r: bv8, g: bv8, b: bv8,
                       barcode: string, padLength: nat)
    requires '|' !in mpp && '|' !in barcode
    ensures var parts := Split(Unpad(DescriptionOverview(fullW, fullH, tileW, tileH, ovW, ovH, quality, appMag, mpp, r, g, b, barcode, padLength)), '|');
            parts == Fields(OverviewGeometry(fullW, fullH, tileW, tileH, ovW, ovH), quality, appMag, mpp, EncodeBg(r, g, b), barcode) + [""]
  {
    var geometry := OverviewGeometry(fullW, fullH, tileW, tileH, ovW, ovH);
    FieldsNoBar(geometry, quality, appMag, mpp, EncodeBg(r, g, b), barcode);
    DescriptorFields(Fields(geometry, quality, appMag, mpp, EncodeBg(r, g, b), barcode), padLength);
  }

  /** The single field of an associated image's descriptor (label or
      macro): the header, a line separator, the kind and the size. */
  function AssociatedField(separator: string, kind: string, w: int, h: int): (f: string)
    ensures Header <= f
    ensures '|' !in separator && '|' !in kind ==> '|' !in f
  {
    HeaderNoBar();
    Header + (separator + kind + " " + Dims(w, h))
  }

  /** The field is the prefix `Header + separator + kind + " "` followed by
      the size. */
  lemma AssociatedFieldSplit(separator: string, kind: string, w: int, h: int)
    ensures var prefix := Header + (separator + kind + " ");
            prefix <= AssociatedField(separator, kind, w, h) &&
            AssociatedField(separator, kind, w, h)[|prefix|..] == Dims(w, h)
  {
    var tail := separator + kind + " ";
    AppendAssoc(Header, tail, Dims(w, h));
    PrefixOfAppend(Header + tail, Dims(w, h));
  }

  /** Character `i` of the separator sits right after the header. */
  lemma AssociatedFieldAt(separator: string, kind: string, w: int, h: int, i: nat)
    requires i < |separator|
    ensures |Header| + i < |AssociatedField(separator, kind, w, h)|
    ensures AssociatedField(separator, kind, w, h)[|Header| + i] == separator[i]
  {
    var tail := separator + kind + " " + Dims(w, h);
    assert AssociatedField(separator, kind, w, h) == Header + tail;
    AppendAtBack(Header, tail, i);
    assert tail[i] == separator[i];
  }

  /** `make_aperio_description_label`: three newlines after the header. */
  function DescriptionLabel(labelW: int, labelH: int, padLength: nat): (d: string)
    ensures Header <= d && |d| >= padLength
    ensures |d| == Max(|AssociatedField("\n\n\n", "label", labelW, labelH)| + 1, padLength)
  {
    var f := AssociatedField("\n\n\n", "label", labelW, labelH);
    assert [f][1..] == [] && Terminated([f]) == f + "|" + Terminated([]);
    PadEquals(Text([f]), padLength)
  }

  /** `make_aperio_description_macro`: two newlines after the header. */
  function DescriptionMacro(macroW: int, macroH: int, padLength: nat): (d: string)
    ensures Header <= d && |d| >= padLength
    ensures |d| == Max(|AssociatedField("\n\n", "macro", macroW, macroH)| + 1, padLength)
  {
    var f := AssociatedField("\n\n", "macro", macroW, macroH);
    assert [f][1..] == [] && Terminated([f]) == f + "|" + Terminated([]);
    PadEquals(Text([f]), padLength)
  }

  /** Reads `w x h` back. */
  function ParseDims(t: string): Option<(int, int)>
  {
    var nums := Split(t, 'x');
    if |nums| == 2 then
      match (ParseDecimal(nums[0]), ParseDecimal(nums[1]))
      case (Some(w), Some(h)) => Some((w, h))
      case _ => None
    else None
  }

  lemma DimsRoundTrip(w: int, h: int)
    ensures ParseDims(Dims(w, h)) == Some((w, h))
  {
    DimsSplit(w, h);
    DecimalRoundTrip(w);
    DecimalRoundTrip(h);
  }

  /** Reads the size back from an associated image's descriptor: one
      '|'-terminated field made of the expected prefix and `w x h`, then
      only padding. */
  function ParseAssociated(d: string, separator: string, kind: string): Option<(int, int)>
  {
    var parts := Split(Unpad(d), '|');
    var prefix := Header + (separator + kind + " ");
    if |parts| == 2 && parts[1] == "" && prefix <= parts[0] then ParseDims(parts[0][|prefix|..])
    else None
  }

  lemma AssociatedRoundTrip(separator: string, kind: string, w: int, h: int, padLength: nat)
    requires '|' !in separator && '|' !in kind
    ensures ParseAssociated(PadEquals(Terminated([AssociatedField(separator, kind, w, h)]), padLength), separator, kind) == Some((w, h))
  {
    var f := AssociatedField(separator, kind, w, h);
    AssociatedFieldSplit(separator, kind, w, h);
    SingleField(f, padLength);
    DimsRoundTrip(w, h);
  }

  /** A descriptor with a single field splits into that field and the empty
      text after its '|'. */
  lemma SingleField(f: string, padLength: nat)
    requires '|' !in f
    ensures Split(Unpad(PadEquals(Terminated([f]), padLength)), '|') == [f, ""]
  {
    DescriptorFields([f], padLength);
  }

  /** The label's size reads back from its descriptor. */
  lemma LabelRoundTrip(labelW: int, labelH: int, padLength: nat)
    ensures ParseAssociated(DescriptionLabel(labelW, labelH, padLength), "\n\n\n", "label") == Some((labelW, labelH))
  {
    AssociatedRoundTrip("\n\n\n", "label", labelW, labelH, padLength);
  }

  /** The macro image's size reads back from its descriptor. */
  lemma MacroRoundTrip(macroW: int, macroH: int, padLength: nat)
    ensures ParseAssociated(DescriptionMacro(macroW, macroH, padLength), "\n\n", "macro") == Some((macroW, macroH))
  {
    AssociatedRoundTrip("\n\n", "macro", macroW, macroH, padLength);
  }

  /** An associated image's descriptor is not read with a prefix that
      differs from its own at position `i` after the header. */
  lemma AssociatedMismatch(separator: string, kind: string, w: int, h: int, padLength: nat,
                           separator': string, kind': string, i: nat)
    requires '|' !in separator && '|' !in kind
    requires i < |separator| && i < |separator' + kind' + " "| && separator[i] != (separator' + kind' + " ")[i]
    ensures ParseAssociated(PadEquals(Terminated([AssociatedField(separator, kind, w, h)]), padLength), separator', kind') == None
  {
    var f := AssociatedField(separator, kind, w, h);
    SingleField(f, padLength);
    var tail := separator' + kind' + " ";
    AppendAtBack(Header, tail, i);
    AssociatedFieldAt(separator, kind, w, h, i);
  }

  /** A label descriptor is never read as a macro descriptor: the third
      newline after the header tells them apart. */
  lemma LabelIsNotMacro(labelW: int, labelH: int, padLength: nat)
    ensures ParseAssociated(DescriptionLabel(labelW, labelH, padLength), "\n\n", "macro") == None
  {
    AssociatedMismatch("\n\n\n", "label", labelW, labelH, padLength, "\n\n", "macro", 2);
  }
}
