/** The `shadcn-colors.changeColor` command: read the selected HSL triple,
    offer its hex value in an input box that only accepts `#`-prefixed hex
    colours, and replace the selection with the accepted colour written
    back as HSL. */
module ColorChange {
  import opened Options
  import opened Text
  import opened Pattern
  import opened Annotator

  /** The active editor's selection: whether it is empty and the text it
      covers. */
  datatype Selection = Selection(isEmpty: bool, text: string)

  /** The conversions the command takes from `color-convert`,
      `validate-color` and `Number.prototype.toFixed(1)`, whose results the
      model does not compute. */
  datatype Convert = Convert(hexHsl: string -> (Num, Num, Num), toFixed1: Num -> string, isHexColor: string -> bool)

  /** How the command ends. `Replace` carries the new text of the selection
      and the message shown afterwards. */
  datatype Outcome = NoEditor | NoSelection | NotHsl | Cancelled | Replace(hsl: string, message: string)

  const NoEditorMessage := "No active text editor"
  const NoSelectionMessage := "No text selected"
  const NotHslMessage := "Selected text is not a valid HSL color"
  const MissingHashMessage := "Color should start with #"
  const InvalidHexMessage := "Invalid hex color!"

  /** The error message shown for an outcome, if any. */
  function ErrorMessage(o: Outcome): (r: Option<string>)
    ensures r.Some? <==> o.NoEditor? || o.NoSelection? || o.NotHsl?
    ensures r == Some(NoEditorMessage) <==> o.NoEditor?
    ensures r == Some(NoSelectionMessage) <==> o.NoSelection?
    ensures r == Some(NotHslMessage) <==> o.NotHsl?
  {
    match o
    case NoEditor => Some(NoEditorMessage)
    case NoSelection => Some(NoSelectionMessage)
    case NotHsl => Some(NotHslMessage)
    case _ => None
  }

  /** `validateInput`: `None` accepts the value, `Some(message)` refuses it. */
  function Validate(c: Convert, value: string): (r: Option<string>)
    ensures r.None? <==> StartsWith(value, "#") && c.isHexColor(value)
    ensures r.Some? ==> (r.value == MissingHashMessage <==> !StartsWith(value, "#"))
    ensures r.Some? ==> (r.value == InvalidHexMessage <==> StartsWith(value, "#"))
  {
    if !StartsWith(value, "#") then Some(MissingHashMessage)
    else if c.isHexColor(value) then None
    else Some(InvalidHexMessage)
  }

  /** Position of the first entry the validator accepts, or `|entries|`. */
  function FirstValid(c: Convert, entries: seq<string>): (k: nat)
    ensures k <= |entries|
    ensures k < |entries| ==> Validate(c, entries[k]).None?
    ensures forall j :: 0 <= j < k ==> Validate(c, entries[j]).Some?
    decreases |entries|
  {
    if |entries| == 0 then 0
    else if Validate(c, entries[0]).None? then 0
    else 1 + FirstValid(c, entries[1..])
  }

  /** `showInputBox` with a validator: `entries` are the box's contents each
      time the user presses Enter. A refused entry keeps the box open; the
      first accepted one closes it and is returned; if none is accepted the
      user finally presses Escape and nothing is returned. */
  function InputBox(c: Convert, entries: seq<string>): (r: Option<string>)
    ensures r.Some? ==> Validate(c, r.value).None? && r.value in entries
    ensures r.None? <==> forall k :: 0 <= k < |entries| ==> Validate(c, entries[k]).Some?
    ensures r.Some? ==> exists k :: 0 <= k < |entries| && r.value == entries[k]
                                 && forall j :: 0 <= j < k ==> Validate(c, entries[j]).Some?
  {
    var k := FirstValid(c, entries);
    if k < |entries| then Some(entries[k]) else None
  }

  /** `text.trim().split(" ")` */
  function HslParts(text: string): (parts: seq<string>)
    ensures |parts| >= 1
    ensures forall k :: 0 <= k < |parts| ==> ' ' !in parts[k]
  {
    Split(Trim(text), ' ')
  }

  /** The value the input box starts with: the hex colour of the three
      parts, each `%` dropped from the last two (only the first `%` of
      each). */
  function Suggestion(n: Numbers, parts: seq<string>): (r: string)
    requires |parts| == 3
    ensures StartsWith(r, "#")
    ensures r[1..] == n.hslHex(n.parseFloat(parts[0]), n.parseFloat(RemoveFirst(parts[1], '%')),
                               n.parseFloat(RemoveFirst(parts[2], '%')))
  {
    "#" + n.hslHex(n.parseFloat(parts[0]), n.parseFloat(RemoveFirst(parts[1], '%')),
                   n.parseFloat(RemoveFirst(parts[2], '%')))
  }

  /** The HSL text written in place of the selection. */
  function HslString(c: Convert, hex: string): (r: string)
    ensures var (h, s, l) := c.hexHsl(hex);
            r == Join([c.toFixed1(h), c.toFixed1(s) + "%", c.toFixed1(l) + "%"], ' ')
  {
    var (h, s, l) := c.hexHsl(hex);
    Join3(c.toFixed1(h), c.toFixed1(s) + "%", c.toFixed1(l) + "%", ' ');
    assert c.toFixed1(h) + [' '] + (c.toFixed1(s) + "%") + [' '] + (c.toFixed1(l) + "%")
        == c.toFixed1(h) + " " + c.toFixed1(s) + "% " + c.toFixed1(l) + "%";
    c.toFixed1(h) + " " + c.toFixed1(s) + "% " + c.toFixed1(l) + "%"
  }

  /** The value the input box returns; `answer` gives the user's entries
      from the suggestion the box opened with. */
  function Accepted(n: Numbers, c: Convert, parts: seq<string>, answer: string -> seq<string>): Option<string>
    requires |parts| == 3
  {
    InputBox(c, answer(Suggestion(n, parts)))
  }

  /** `handleColorChange`: the guards are taken in the order of the source,
      and only an accepted hex colour changes the document. */
  function HandleColorChange(n: Numbers, c: Convert, editor: Option<Selection>,
                             answer: string -> seq<string>): (r: Outcome)
    ensures r.NoEditor? <==> editor.None?
    ensures r.NoSelection? <==> editor.Some? && editor.value.isEmpty
    ensures r.NotHsl? <==> editor.Some? && !editor.value.isEmpty && |HslParts(editor.value.text)| != 3
    ensures r.Cancelled? <==>
              && editor.Some? && !editor.value.isEmpty && |HslParts(editor.value.text)| == 3
              && Accepted(n, c, HslParts(editor.value.text), answer).None?
    ensures r.Replace? ==>
              var hex := Accepted(n, c, HslParts(editor.value.text), answer).value;
              && StartsWith(hex, "#") && c.isHexColor(hex)
              && r.hsl == HslString(c, hex)
              && r.message == "Converted " + hex + " to HSL: " + r.hsl
  {
    match editor
    case None => NoEditor
    case Some(selection) =>
      if selection.isEmpty then NoSelection
      else
        var parts := HslParts(selection.text);
        if |parts| != 3 then NotHsl
        else
          match Accepted(n, c, parts, answer)
          case None => Cancelled
          case Some(hex) =>
            if hex == "" then Cancelled
            else
              var hsl := HslString(c, hex);
              Replace(hsl, "Converted " + hex + " to HSL: " + hsl)
  }

  // ---------------------------------------------------------------------
  // Splitting a selection

  lemma JoinFirst(parts: seq<string>, sep: char)
    requires |parts| >= 1 && |parts[0]| > 0
    ensures |Join(parts, sep)| > 0 && Join(parts, sep)[0] == parts[0][0]
    decreases |parts|
  {
  }

  lemma {:induction false} JoinLast(parts: seq<string>, sep: char)
    requires |parts| >= 1 && |parts[|parts| - 1]| > 0
    ensures var j := Join(parts, sep);
            |j| > 0 && j[|j| - 1] == parts[|parts| - 1][|parts[|parts| - 1]| - 1]
    decreases |parts|
  {
    if |parts| > 1 {
      JoinLast(parts[1..], sep);
    }
  }

  lemma Join3(a: string, b: string, c: string, sep: char)
    ensures Join([a, b, c], sep) == a + [sep] + b + [sep] + c
  {
    assert [a, b, c][1..] == [b, c];
    assert [b, c][1..] == [c];
    assert Join([b, c], sep) == b + [sep] + c;
    assert Join([a, b, c], sep) == a + [sep] + (b + [sep] + c);
  }

  /** Parts without spaces, joined by single spaces and not starting or
      ending in whitespace, are split back into the same parts. */
  lemma PartsOfJoin(parts: seq<string>)
    requires |parts| >= 1 && forall k :: 0 <= k < |parts| ==> ' ' !in parts[k]
    requires |parts[0]| > 0 && !IsSpace(parts[0][0])
    requires |parts[|parts| - 1]| > 0 && !IsSpace(parts[|parts| - 1][|parts[|parts| - 1]| - 1])
    ensures HslParts(Join(parts, ' ')) == parts
  {
    JoinFirst(parts, ' ');
    JoinLast(parts, ' ');
    SplitJoin(parts, ' ');
  }

  /** Only two numbers: not an HSL colour. */
  lemma ExampleTwoNumbers(n: Numbers, c: Convert, answer: string -> seq<string>)
    ensures HandleColorChange(n, c, Some(Selection(false, "210 40%")), answer) == NotHsl
  {
    assert Join(["210", "40%"], ' ') == "210 40%";
    PartsOfJoin(["210", "40%"]);
  }

  /** Two spaces between numbers make an empty part: not an HSL colour. */
  lemma ExampleDoubleSpace(n: Numbers, c: Convert, answer: string -> seq<string>)
    ensures HandleColorChange(n, c, Some(Selection(false, "210  40% 98%")), answer) == NotHsl
  {
    assert Join(["210", "", "40%", "98%"], ' ') == "210  40% 98%";
    PartsOfJoin(["210", "", "40%", "98%"]);
  }

  // ---------------------------------------------------------------------
  // Agreement with the decorations and with the next invocation

  lemma NumberHasNoSpace(x: string)
    requires All(x, NumberChar)
    ensures ' ' !in x && '%' !in x && (|x| > 0 ==> !IsSpace(x[0]))
  {
    forall p | 0 <= p < |x|
      ensures x[p] != ' ' && x[p] != '%' && !IsSpace(x[p])
    {
      assert NumberChar.Has(x[p]);
    }
  }

  /** `x%`, with `x` free of `%`, loses exactly its `%`. */
  lemma DropPercent(x: string)
    requires '%' !in x
    ensures RemoveFirst(x + "%", '%') == x
  {
    var s := x + "%";
    forall j | 0 <= j < |x|
      ensures s[j] != '%'
    {
      assert s[j] == x[j];
    }
    assert s[|x|] == '%';
    assert s[..|x|] == x;
  }

  /** Selecting the three numbers of a declaration the scanner found, as
      `hue saturation% lightness%`, opens the input box on exactly the hex
      colour of that declaration's swatch. */
  lemma SuggestionMatchesSwatch(n: Numbers, h: Hit)
    requires |h.hue| > 0 && All(h.hue, NumberChar)
    requires |h.saturation| > 0 && All(h.saturation, NumberChar)
    requires |h.lightness| > 0 && All(h.lightness, NumberChar)
    ensures var parts := HslParts(h.hue + " " + h.saturation + "% " + h.lightness + "%");
            && parts == [h.hue, h.saturation + "%", h.lightness + "%"]
            && Suggestion(n, parts) == HexColor(n, ToColorMatch(n, h))
  {
    var parts := [h.hue, h.saturation + "%", h.lightness + "%"];
    NumberHasNoSpace(h.hue);
    NumberHasNoSpace(h.saturation);
    NumberHasNoSpace(h.lightness);
    assert ' ' !in h.saturation + "%";
    assert ' ' !in h.lightness + "%";
    Join3(h.hue, h.saturation + "%", h.lightness + "%", ' ');
    assert h.hue + [' '] + (h.saturation + "%") + [' '] + (h.lightness + "%")
        == h.hue + " " + h.saturation + "% " + h.lightness + "%";
    PartsOfJoin(parts);
    DropPercent(h.saturation);
    DropPercent(h.lightness);
  }

  /** The text written back is again a selection the command reads as an
      HSL triple, provided `toFixed(1)` writes no whitespace. */
  lemma ReplacementIsHsl(c: Convert, hex: string)
    requires var (h, s, l) := c.hexHsl(hex);
             && |c.toFixed1(h)| > 0
             && (forall p :: 0 <= p < |c.toFixed1(h)| ==> !IsSpace(c.toFixed1(h)[p]))
             && (forall p :: 0 <= p < |c.toFixed1(s)| ==> !IsSpace(c.toFixed1(s)[p]))
             && (forall p :: 0 <= p < |c.toFixed1(l)| ==> !IsSpace(c.toFixed1(l)[p]))
    ensures var (h, s, l) := c.hexHsl(hex);
            HslParts(HslString(c, hex)) == [c.toFixed1(h), c.toFixed1(s) + "%", c.toFixed1(l) + "%"]
  {
    var (h, s, l) := c.hexHsl(hex);
    var a, b, d := c.toFixed1(h), c.toFixed1(s), c.toFixed1(l);
    var parts := [a, b + "%", d + "%"];
    assert IsSpace(' ');
    assert ' ' !in b + "%";
    assert ' ' !in d + "%";
    Join3(a, b + "%", d + "%", ' ');
    assert a + [' '] + (b + "%") + [' '] + (d + "%") == HslString(c, hex);
    PartsOfJoin(parts);
  }

  /** When `toFixed(1)` writes digits and dots, the replaced declaration
      `--name: h s% l%;` is found again by the scanner with the new numbers. */
  lemma ReplacementScans(c: Convert, hex: string, name: string)
    requires |name| > 0 && All(name, NameChar)
    requires var (h, s, l) := c.hexHsl(hex);
             && |c.toFixed1(h)| > 0 && All(c.toFixed1(h), NumberChar)
             && |c.toFixed1(s)| > 0 && All(c.toFixed1(s), NumberChar)
             && |c.toFixed1(l)| > 0 && All(c.toFixed1(l), NumberChar)
    ensures var (h, s, l) := c.hexHsl(hex);
            var text := "--" + name + ": " + HslString(c, hex) + ";";
            && MatchAt(text, 0).Some?
            && MatchAt(text, 0).value == Hit(0, |text|, c.toFixed1(h), c.toFixed1(s), c.toFixed1(l))
  {
    var (h, s, l) := c.hexHsl(hex);
    var text := "--" + name + ": " + HslString(c, hex) + ";";
    var d := Decl(name, " ", c.toFixed1(h), " ", c.toFixed1(s), " ", c.toFixed1(l), true);
    assert All(" ", Space);
    assert Spell(d) == text;
    assert text[0..|Spell(d)|] == Spell(d);
    MatchAtComplete(text, 0, d);
  }

  /** Pressing Enter on the suggestion as offered replaces the selection
      when the suggestion is a valid hex colour. */
  lemma AcceptSuggestion(n: Numbers, c: Convert, sel: Selection)
    requires !sel.isEmpty && |HslParts(sel.text)| == 3
    requires c.isHexColor(Suggestion(n, HslParts(sel.text)))
    ensures var hex := Suggestion(n, HslParts(sel.text));
            HandleColorChange(n, c, Some(sel), s => [s]) == Replace(HslString(c, hex), "Converted " + hex + " to HSL: " + HslString(c, hex))
  {
    var parts := HslParts(sel.text);
    var hex := Suggestion(n, parts);
    assert StartsWith(hex, "#");
    assert FirstValid(c, [hex]) == 0;
    assert Accepted(n, c, parts, s => [s]) == Some(hex);
  }

  /** Escape, or only refused entries, leave the document alone; an entry
      refused for a missing `#` is never what the box returns. */
  lemma RefusedNeverReplaces(n: Numbers, c: Convert, sel: Selection, answer: string -> seq<string>)
    requires !sel.isEmpty && |HslParts(sel.text)| == 3
    requires forall k :: 0 <= k < |answer(Suggestion(n, HslParts(sel.text)))| ==>
               !StartsWith(answer(Suggestion(n, HslParts(sel.text)))[k], "#")
    ensures HandleColorChange(n, c, Some(sel), answer) == Cancelled
  {
  }
}
