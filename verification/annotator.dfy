/** The decoration payloads: each colour declaration the scanner finds is
    turned into a `DecorationOptions` record that either carries only the
    declaration's range (colours switched off) or also a hover text and an
    inline swatch showing the hex colour (colours switched on). */
module Annotator {
  import opened Options
  import opened Text
  import opened Pattern
  import opened GlobalScan
  import opened Scanner

  /** A JavaScript number as far as the payload builder looks at one: a
      finite value, or NaN, which every comparison answers `false` for.
      (`parseFloat(".")` is NaN, and the scanner lets `.` through.) */
  datatype Num = Finite(value: real) | NaN

  /** The operations the builder takes from JavaScript and from the
      `color-convert` library, whose results the model does not compute:
      `parseFloat`, the conversion of a number to text inside a template
      string, and `hsl.hex`, which gives six hex digits without the `#`. */
  datatype Numbers = Numbers(parseFloat: string -> Num, show: Num -> string, hslHex: (Num, Num, Num) -> string)

  /** `ColorMatch`: the character offsets of a hit and its three numbers. */
  datatype ColorMatch = ColorMatch(start: nat, end: nat, hue: Num, saturation: Num, lightness: Num)

  /** The parts of `renderOptions.after` the model keeps: the text after
      the declaration and the three colours of its style. */
  datatype Swatch = Swatch(contentText: string, backgroundColor: string, borderColor: string, color: string)

  /** What an enabled payload adds to the range. */
  datatype Detail = Detail(hoverMessage: string, after: Swatch)

  /** `vscode.DecorationOptions`: a range and, when colours are on, the
      hover text and the swatch. */
  datatype Decoration = Decoration(start: nat, end: nat, detail: Option<Detail>)

  const DarkText := "#000"
  const LightText := "#fff"
  const DarkBorder := "rgba(0,0,0,0.25)"
  const LightBorder := "rgba(255,255,255,0.25)"

  /** The enabled flag as `globalState.get(key, false)` reads it. */
  function Enabled(stored: Option<bool>): (r: bool)
    ensures r <==> stored == Some(true)
  {
    stored.GetOr(false)
  }

  /** `match.lightness > 50`; false for NaN. */
  predicate IsLight(lightness: Num) {
    lightness.Finite? && lightness.value > 50.0
  }

  /** One element of `findColorMatches`' result: the hit's offsets and its
      captures read by `parseFloat`. */
  function ToColorMatch(n: Numbers, h: Hit): ColorMatch {
    ColorMatch(h.start, h.end, n.parseFloat(h.hue), n.parseFloat(h.saturation), n.parseFloat(h.lightness))
  }

  /** `findColorMatches`' result: one `ColorMatch` per hit, in order. */
  function ToColorMatches(n: Numbers, hits: seq<Hit>): (ms: seq<ColorMatch>)
    ensures |ms| == |hits|
    ensures forall k :: 0 <= k < |hits| ==> ms[k] == ToColorMatch(n, hits[k])
    decreases |hits|
  {
    if |hits| == 0 then [] else [ToColorMatch(n, hits[0])] + ToColorMatches(n, hits[1..])
  }

  /** `#${colorConvert.hsl.hex([hue, saturation, lightness])}` */
  function HexColor(n: Numbers, m: ColorMatch): (r: string)
    ensures StartsWith(r, "#") && r[1..] == n.hslHex(m.hue, m.saturation, m.lightness)
  {
    "#" + n.hslHex(m.hue, m.saturation, m.lightness)
  }

  /** The four lines of the hover text. */
  function HoverLines(n: Numbers, m: ColorMatch): seq<string> {
    [ "Hue: " + n.show(m.hue) + "\U{B0}",
      "Saturation: " + n.show(m.saturation) + "%",
      "Lightness: " + n.show(m.lightness) + "%",
      "Hex: " + HexColor(n, m) ]
  }

  /** The hover text: the four lines joined by line feeds. */
  function HoverMessage(n: Numbers, m: ColorMatch): string {
    Join(HoverLines(n, m), '\n')
  }

  /** The payload for one match. */
  function Decorate(n: Numbers, enabled: bool, m: ColorMatch): (r: Decoration)
    ensures r.start == m.start && r.end == m.end
    ensures r.detail.None? <==> !enabled
    ensures enabled ==> r.detail.value.after.contentText == HexColor(n, m)
    ensures enabled ==> r.detail.value.after.backgroundColor == HexColor(n, m)
    ensures enabled ==> (r.detail.value.after.color == DarkText <==> IsLight(m.lightness))
    ensures enabled ==> (r.detail.value.after.color == LightText <==> !IsLight(m.lightness))
    ensures enabled ==> r.detail.value.after.borderColor == (if IsLight(m.lightness) then DarkBorder else LightBorder)
  {
    var hex := HexColor(n, m);
    if !enabled then Decoration(m.start, m.end, None)
    else
      var light := IsLight(m.lightness);
      Decoration(m.start, m.end, Some(Detail(
        HoverMessage(n, m),
        Swatch(hex, hex, if light then DarkBorder else LightBorder, if light then DarkText else LightText))))
  }

  /** `createDecorationOptions`: the flag is read once and every match is
      mapped, in order, to its payload. */
  function DecorationOptions(n: Numbers, stored: Option<bool>, ms: seq<ColorMatch>): (r: seq<Decoration>)
    ensures |r| == |ms|
    ensures forall k :: 0 <= k < |ms| ==> r[k] == Decorate(n, Enabled(stored), ms[k])
    decreases |ms|
  {
    if |ms| == 0 then []
    else [Decorate(n, Enabled(stored), ms[0])] + DecorationOptions(n, stored, ms[1..])
  }

  /** A payload reduced to its range. */
  function Bare(d: Decoration): Decoration {
    d.(detail := None)
  }

  function BareAll(ds: seq<Decoration>): (r: seq<Decoration>)
    ensures |r| == |ds|
    ensures forall k :: 0 <= k < |ds| ==> r[k] == Bare(ds[k])
    decreases |ds|
  {
    if |ds| == 0 then [] else [Bare(ds[0])] + BareAll(ds[1..])
  }

  /** With colours off (or the flag never written) the payloads are the
      enabled ones with everything but the range removed. */
  lemma {:induction false} DisabledIsBare(n: Numbers, stored: Option<bool>, ms: seq<ColorMatch>)
    requires stored != Some(true)
    ensures DecorationOptions(n, stored, ms) == BareAll(DecorationOptions(n, Some(true), ms))
    decreases |ms|
  {
    if |ms| > 0 {
      DisabledIsBare(n, stored, ms[1..]);
    }
  }

  /** The hover text reads back, line by line, as hue, saturation,
      lightness and the hex colour of the swatch, provided none of the
      printed numbers and the hex digits contains a line feed. */
  lemma HoverReadsBack(n: Numbers, m: ColorMatch)
    requires '\n' !in n.show(m.hue) && '\n' !in n.show(m.saturation) && '\n' !in n.show(m.lightness)
    requires '\n' !in n.hslHex(m.hue, m.saturation, m.lightness)
    ensures var lines := Split(Decorate(n, true, m).detail.value.hoverMessage, '\n');
            && |lines| == 4
            && lines[0] == "Hue: " + n.show(m.hue) + "\U{B0}"
            && lines[1] == "Saturation: " + n.show(m.saturation) + "%"
            && lines[2] == "Lightness: " + n.show(m.lightness) + "%"
            && lines[3] == "Hex: " + Decorate(n, true, m).detail.value.after.contentText
  {
    var lines := HoverLines(n, m);
    forall k | 0 <= k < |lines|
      ensures '\n' !in lines[k]
    {
    }
    SplitJoin(lines, '\n');
  }

  /** The text colour flips exactly above 50: a lightness of exactly 50, or
      one that is not a number, gets white text. */
  lemma ThresholdAtFifty(n: Numbers, m: ColorMatch)
    requires m.lightness == Finite(50.0) || m.lightness == NaN
    ensures Decorate(n, true, m).detail.value.after.color == LightText
    ensures Decorate(n, true, m).detail.value.after.borderColor == LightBorder
  {
  }

  /** `updateDecorations`: without an active editor nothing is set;
      otherwise the payloads of every colour declaration in the editor's
      text. */
  function UpdateDecorations(n: Numbers, editorText: Option<string>, stored: Option<bool>): (r: Option<seq<Decoration>>)
    ensures editorText.None? <==> r.None?
  {
    match editorText
    case None => None
    case Some(text) => Some(DecorationOptions(n, stored, ToColorMatches(n, ColorScan(text, 0))))
  }

  /** The payloads set on an editor follow the colour declarations of its
      text: one per declaration, in text order, not overlapping, each range
      inside the text and exactly the span the expression matches there. */
  lemma RenderedRanges(n: Numbers, text: string, stored: Option<bool>)
    ensures var ds := UpdateDecorations(n, Some(text), stored).value;
            && |ds| == |ColorScan(text, 0)|
            && (forall k :: 0 <= k < |ds| ==>
                  ds[k].start < ds[k].end <= |text|
                  && MatchAt(text, ds[k].start).Some? && MatchAt(text, ds[k].start).value.end == ds[k].end)
            && (forall k, l :: 0 <= k < l < |ds| ==> ds[k].end <= ds[l].start)
  {
    MatchAtSticky();
    ScanLeftmost(MatchAt, text, 0);
  }

  /** Every match handed to the payload builder is the text of a well-formed
      colour declaration, and its numbers are that declaration's numbers read
      by `parseFloat`. */
  lemma MatchesAreDeclarations(n: Numbers, text: string, k: nat)
    requires k < |ColorScan(text, 0)|
    ensures var m := ToColorMatches(n, ColorScan(text, 0))[k];
            && m.start < m.end <= |text|
            && exists d :: WellFormed(d) && Spell(d) == text[m.start..m.end]
                           && m.hue == n.parseFloat(d.hue)
                           && m.saturation == n.parseFloat(d.saturation)
                           && m.lightness == n.parseFloat(d.lightness)
  {
    MatchAtSticky();
    var hits := ColorScan(text, 0);
    ScanLeftmost(MatchAt, text, 0);
    var h := hits[k];
    assert MatchAt(text, h.start) == Some(h);
    MatchAtSound(text, h.start);
  }
}
