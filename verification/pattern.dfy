/** The colour-declaration pattern
    `--[\w-]+:\s*([\d.]+)\s+([\d.]+)%\s+([\d.]+)%;?`, tried at one offset.

    Every quantified sub-pattern of that expression is followed by a
    character class it cannot overlap (`[\w-]` by `:`, `\s` by `[\d.]`,
    `[\d.]` by `\s` or `%`), so the match at a given offset, if there is one,
    is found by taking each run greedily, without backtracking. `MatchAt` is
    that matcher; `Decl` and `Spell` describe the same language as a grammar,
    and `MatchAtSound` / `MatchAtComplete` tie the two together. */
module Pattern {
  import opened Options
  import opened Text

  /** The character classes the expression uses. */
  datatype Class = NameChar | Space | NumberChar {
    predicate Has(c: char) {
      match this
      case NameChar => IsWordChar(c) || c == '-'
      case Space => IsSpace(c)
      case NumberChar => IsDigit(c) || c == '.'
    }
  }

  /** One hit of the expression: the character offsets of `match.index` and
      `match.index + match[0].length`, and the three captured groups, kept
      as text. */
  datatype Hit = Hit(start: nat, end: nat, hue: string, saturation: string, lightness: string)

  /** What the expression captures; `len` counts the characters consumed
      from the input of the state that returns it. */
  datatype Found = Found(len: nat, hue: string, saturation: string, lightness: string)

  function Shift(n: nat, r: Option<Found>): Option<Found> {
    match r
    case None => None
    case Some(f) => Some(f.(len := f.len + n))
  }

  function AddHue(c: char, r: Option<Found>): Option<Found> {
    match r
    case None => None
    case Some(f) => Some(f.(len := f.len + 1, hue := [c] + f.hue))
  }

  function AddSaturation(c: char, r: Option<Found>): Option<Found> {
    match r
    case None => None
    case Some(f) => Some(f.(len := f.len + 1, saturation := [c] + f.saturation))
  }

  function AddLightness(c: char, r: Option<Found>): Option<Found> {
    match r
    case None => None
    case Some(f) => Some(f.(len := f.len + 1, lightness := [c] + f.lightness))
  }

  // The states of the matcher, one per position in the expression. Each
  // takes the rest of the text and says how much of it the expression
  // consumes from there on, and what it captures.

  /** After the final `%`: `;?`. */
  function Semicolon(s: string): (r: Option<Found>)
    ensures r.Some? && r.value.len <= |s|
  {
    Some(Found(if |s| > 0 && s[0] == ';' then 1 else 0, "", "", ""))
  }

  /** Inside the lightness `[\d.]+`, at least one character read. */
  function LightnessTail(s: string): (r: Option<Found>)
    ensures r.Some? ==> r.value.len <= |s|
    decreases |s|
  {
    if |s| == 0 then None
    else if NumberChar.Has(s[0]) then AddLightness(s[0], LightnessTail(s[1..]))
    else if s[0] == '%' then Shift(1, Semicolon(s[1..]))
    else None
  }

  /** Inside the `\s+` before the lightness, at least one space read. */
  function LightnessGap(s: string): (r: Option<Found>)
    ensures r.Some? ==> r.value.len <= |s|
    decreases |s|
  {
    if |s| == 0 then None
    else if Space.Has(s[0]) then Shift(1, LightnessGap(s[1..]))
    else if NumberChar.Has(s[0]) then AddLightness(s[0], LightnessTail(s[1..]))
    else None
  }

  /** Inside the saturation `[\d.]+`, at least one character read; then `%`
      and the first space of `\s+`. */
  function SaturationTail(s: string): (r: Option<Found>)
    ensures r.Some? ==> r.value.len <= |s|
    decreases |s|
  {
    if |s| == 0 then None
    else if NumberChar.Has(s[0]) then AddSaturation(s[0], SaturationTail(s[1..]))
    else if s[0] == '%' && |s| > 1 && Space.Has(s[1]) then Shift(2, LightnessGap(s[2..]))
    else None
  }

  /** Inside the `\s+` before the saturation, at least one space read. */
  function SaturationGap(s: string): (r: Option<Found>)
    ensures r.Some? ==> r.value.len <= |s|
    decreases |s|
  {
    if |s| == 0 then None
    else if Space.Has(s[0]) then Shift(1, SaturationGap(s[1..]))
    else if NumberChar.Has(s[0]) then AddSaturation(s[0], SaturationTail(s[1..]))
    else None
  }

  /** Inside the hue `[\d.]+`, at least one character read. */
  function HueTail(s: string): (r: Option<Found>)
    ensures r.Some? ==> r.value.len <= |s|
    decreases |s|
  {
    if |s| == 0 then None
    else if NumberChar.Has(s[0]) then AddHue(s[0], HueTail(s[1..]))
    else if Space.Has(s[0]) then Shift(1, SaturationGap(s[1..]))
    else None
  }

  /** Inside the `\s*` after the `:`. */
  function HueGap(s: string): (r: Option<Found>)
    ensures r.Some? ==> r.value.len <= |s|
    decreases |s|
  {
    if |s| == 0 then None
    else if Space.Has(s[0]) then Shift(1, HueGap(s[1..]))
    else if NumberChar.Has(s[0]) then AddHue(s[0], HueTail(s[1..]))
    else None
  }

  /** Inside the name `[\w-]+`, at least one character read; then `:`. */
  function NameTail(s: string): (r: Option<Found>)
    ensures r.Some? ==> r.value.len <= |s|
    decreases |s|
  {
    if |s| == 0 then None
    else if NameChar.Has(s[0]) then Shift(1, NameTail(s[1..]))
    else if s[0] == ':' then Shift(1, HueGap(s[1..]))
    else None
  }

  /** The expression at the start of `s`: `--` and the first name character. */
  function Declaration(s: string): (r: Option<Found>)
    ensures r.Some? ==> 3 <= r.value.len <= |s|
  {
    if |s| >= 3 && s[0] == '-' && s[1] == '-' && NameChar.Has(s[2]) then Shift(3, NameTail(s[3..]))
    else None
  }

  /** The expression tried at offset `i` only (what a sticky match would do). */
  function MatchAt(text: string, i: nat): (r: Option<Hit>)
    ensures r.Some? ==> r.value.start == i && i < r.value.end <= |text|
  {
    if i > |text| then None
    else
      match Declaration(text[i..])
      case None => None
      case Some(f) => Some(Hit(i, i + f.len, f.hue, f.saturation, f.lightness))
  }

  // ---------------------------------------------------------------------
  // The language of the expression, as a grammar

  /** A declaration `--name:<gap0>hue<gap1>saturation%<gap2>lightness%` with
      an optional `;`. */
  datatype Decl = Decl(name: string, gap0: string, hue: string, gap1: string, saturation: string,
                       gap2: string, lightness: string, semicolon: bool)

  predicate All(s: string, k: Class) {
    forall p :: 0 <= p < |s| ==> k.Has(s[p])
  }

  /** `[\w-]+`, `\s*`, `[\d.]+`, `\s+`, `[\d.]+`, `\s+`, `[\d.]+`: the hue is
      not range-checked and a number may hold any number of dots. */
  predicate WellFormed(d: Decl) {
    && |d.name| > 0 && All(d.name, NameChar)
    && All(d.gap0, Space)
    && |d.hue| > 0 && All(d.hue, NumberChar)
    && |d.gap1| > 0 && All(d.gap1, Space)
    && |d.saturation| > 0 && All(d.saturation, NumberChar)
    && |d.gap2| > 0 && All(d.gap2, Space)
    && |d.lightness| > 0 && All(d.lightness, NumberChar)
  }

  function Semi(d: Decl): string {
    if d.semicolon then ";" else ""
  }

  /** Everything after the `:` is well formed; the name may still be empty. */
  predicate NumbersWellFormed(d: Decl) {
    && All(d.gap0, Space)
    && |d.hue| > 0 && All(d.hue, NumberChar)
    && |d.gap1| > 0 && All(d.gap1, Space)
    && |d.saturation| > 0 && All(d.saturation, NumberChar)
    && |d.gap2| > 0 && All(d.gap2, Space)
    && |d.lightness| > 0 && All(d.lightness, NumberChar)
  }

  function SpellLightness(d: Decl): string {
    d.gap2 + (d.lightness + ("%" + Semi(d)))
  }

  function SpellSaturation(d: Decl): string {
    d.gap1 + (d.saturation + ("%" + SpellLightness(d)))
  }

  function SpellHue(d: Decl): string {
    d.gap0 + (d.hue + SpellSaturation(d))
  }

  /** The text of a declaration. */
  function Spell(d: Decl): string {
    "--" + (d.name + (":" + SpellHue(d)))
  }

  /** The `;` after a declaration that does not end in one is taken as well. */
  function Extra(d: Decl, rest: string): nat {
    if !d.semicolon && |rest| > 0 && rest[0] == ';' then 1 else 0
  }

  // Completeness, state by state: a state fed the spelling of the rest of a
  // well-formed declaration consumes exactly that spelling (and a following
  // `;`) and captures the declaration's numbers.

  lemma {:induction false} LightnessTailComplete(x: string, d: Decl, rest: string)
    requires All(x, NumberChar)
    ensures LightnessTail(x + ("%" + Semi(d)) + rest) ==
            Some(Found(|x| + 1 + |Semi(d)| + Extra(d, rest), "", "", x))
    decreases |x|
  {
    var s := x + ("%" + Semi(d)) + rest;
    if |x| == 0 {
      assert s == "%" + (Semi(d) + rest);
      assert s[1..] == Semi(d) + rest;
    } else {
      assert s[1..] == x[1..] + ("%" + Semi(d)) + rest;
      LightnessTailComplete(x[1..], d, rest);
      assert [x[0]] + x[1..] == x;
    }
  }

  lemma {:induction false} LightnessGapComplete(x: string, d: Decl, rest: string)
    requires All(x, Space) && |d.lightness| > 0 && All(d.lightness, NumberChar)
    ensures LightnessGap(x + (d.lightness + ("%" + Semi(d))) + rest) ==
            Some(Found(|x| + |d.lightness| + 1 + |Semi(d)| + Extra(d, rest), "", "", d.lightness))
    decreases |x|
  {
    var s := x + (d.lightness + ("%" + Semi(d))) + rest;
    if |x| == 0 {
      assert s == [d.lightness[0]] + (d.lightness[1..] + ("%" + Semi(d)) + rest);
      LightnessTailComplete(d.lightness[1..], d, rest);
      assert [d.lightness[0]] + d.lightness[1..] == d.lightness;
    } else {
      assert s[1..] == x[1..] + (d.lightness + ("%" + Semi(d))) + rest;
      LightnessGapComplete(x[1..], d, rest);
    }
  }

  lemma {:induction false} SaturationTailComplete(x: string, d: Decl, rest: string)
    requires All(x, NumberChar) && WellFormed(d)
    ensures SaturationTail(x + ("%" + SpellLightness(d)) + rest) ==
            Some(Found(|x| + 1 + |SpellLightness(d)| + Extra(d, rest), "", x, d.lightness))
    decreases |x|
  {
    var s := x + ("%" + SpellLightness(d)) + rest;
    if |x| == 0 {
      assert s == "%" + ([d.gap2[0]] + (d.gap2[1..] + (d.lightness + ("%" + Semi(d))) + rest));
      assert s[1] == d.gap2[0];
      assert s[2..] == d.gap2[1..] + (d.lightness + ("%" + Semi(d))) + rest;
      LightnessGapComplete(d.gap2[1..], d, rest);
    } else {
      assert s[1..] == x[1..] + ("%" + SpellLightness(d)) + rest;
      SaturationTailComplete(x[1..], d, rest);
      assert [x[0]] + x[1..] == x;
    }
  }

  lemma {:induction false} SaturationGapComplete(x: string, d: Decl, rest: string)
    requires All(x, Space) && WellFormed(d)
    ensures SaturationGap(x + (d.saturation + ("%" + SpellLightness(d))) + rest) ==
            Some(Found(|x| + |d.saturation| + 1 + |SpellLightness(d)| + Extra(d, rest), "", d.saturation, d.lightness))
    decreases |x|
  {
    var s := x + (d.saturation + ("%" + SpellLightness(d))) + rest;
    if |x| == 0 {
      assert s == [d.saturation[0]] + (d.saturation[1..] + ("%" + SpellLightness(d)) + rest);
      SaturationTailComplete(d.saturation[1..], d, rest);
      assert [d.saturation[0]] + d.saturation[1..] == d.saturation;
    } else {
      assert s[1..] == x[1..] + (d.saturation + ("%" + SpellLightness(d))) + rest;
      SaturationGapComplete(x[1..], d, rest);
    }
  }

  lemma {:induction false} HueTailComplete(x: string, d: Decl, rest: string)
    requires All(x, NumberChar) && WellFormed(d)
    ensures HueTail(x + SpellSaturation(d) + rest) ==
            Some(Found(|x| + |SpellSaturation(d)| + Extra(d, rest), x, d.saturation, d.lightness))
    decreases |x|
  {
    var s := x + SpellSaturation(d) + rest;
    if |x| == 0 {
      assert s == [d.gap1[0]] + (d.gap1[1..] + (d.saturation + ("%" + SpellLightness(d))) + rest);
      SaturationGapComplete(d.gap1[1..], d, rest);
    } else {
      assert s[1..] == x[1..] + SpellSaturation(d) + rest;
      HueTailComplete(x[1..], d, rest);
      assert [x[0]] + x[1..] == x;
    }
  }

  lemma {:induction false} HueGapComplete(x: string, d: Decl, rest: string)
    requires All(x, Space) && WellFormed(d)
    ensures HueGap(x + (d.hue + SpellSaturation(d)) + rest) ==
            Some(Found(|x| + |d.hue| + |SpellSaturation(d)| + Extra(d, rest), d.hue, d.saturation, d.lightness))
    decreases |x|
  {
    var s := x + (d.hue + SpellSaturation(d)) + rest;
    if |x| == 0 {
      assert s == [d.hue[0]] + (d.hue[1..] + SpellSaturation(d) + rest);
      HueTailComplete(d.hue[1..], d, rest);
      assert [d.hue[0]] + d.hue[1..] == d.hue;
    } else {
      assert s[1..] == x[1..] + (d.hue + SpellSaturation(d)) + rest;
      HueGapComplete(x[1..], d, rest);
    }
  }

  lemma {:induction false} NameTailComplete(x: string, d: Decl, rest: string)
    requires All(x, NameChar) && WellFormed(d)
    ensures NameTail(x + (":" + SpellHue(d)) + rest) ==
            Some(Found(|x| + 1 + |SpellHue(d)| + Extra(d, rest), d.hue, d.saturation, d.lightness))
    decreases |x|
  {
    var s := x + (":" + SpellHue(d)) + rest;
    if |x| == 0 {
      assert s == ":" + (d.gap0 + (d.hue + SpellSaturation(d)) + rest);
      assert s[1..] == d.gap0 + (d.hue + SpellSaturation(d)) + rest;
      HueGapComplete(d.gap0, d, rest);
    } else {
      assert s[1..] == x[1..] + (":" + SpellHue(d)) + rest;
      NameTailComplete(x[1..], d, rest);
    }
  }

  /** Completeness and determinism: wherever the text holds a declaration of
      the grammar, `MatchAt` finds a hit there with the same three captures,
      covering the whole declaration and the `;` that follows it if the
      declaration did not include it. */
  lemma MatchAtComplete(text: string, i: nat, d: Decl)
    requires WellFormed(d)
    requires i + |Spell(d)| <= |text| && text[i..i + |Spell(d)|] == Spell(d)
    ensures MatchAt(text, i).Some?
    ensures MatchAt(text, i).value.hue == d.hue
    ensures MatchAt(text, i).value.saturation == d.saturation
    ensures MatchAt(text, i).value.lightness == d.lightness
    ensures MatchAt(text, i).value.end ==
            if !d.semicolon && i + |Spell(d)| < |text| && text[i + |Spell(d)|] == ';'
            then i + |Spell(d)| + 1 else i + |Spell(d)|
  {
    var rest := text[i + |Spell(d)|..];
    var s := text[i..];
    assert s == Spell(d) + rest;
    assert s == "--" + ([d.name[0]] + (d.name[1..] + (":" + SpellHue(d)) + rest));
    assert s[3..] == d.name[1..] + (":" + SpellHue(d)) + rest;
    NameTailComplete(d.name[1..], d, rest);
  }

  // Soundness, state by state: what a state consumes is the spelling of the
  // rest of a declaration whose numbers are the captures, and it stops
  // before a `;` only when the declaration already ends in one.

  /** A class character in front of a run of the class. */
  lemma AllCons(c: char, x: string, k: Class)
    requires k.Has(c) && All(x, k)
    ensures All([c] + x, k)
  {
    var y := [c] + x;
    forall p | 0 <= p < |y|
      ensures k.Has(y[p])
    {
      if p > 0 {
        assert y[p] == x[p - 1];
      }
    }
  }

  /** The first `n` characters of `s` spell `x`. */
  predicate Reads(s: string, n: nat, x: string) {
    n <= |s| && s[..n] == x
  }

  /** A `;` right after the first `n` characters is part of the match
      unless the declaration already ends in one. */
  predicate Greedy(s: string, n: nat, d: Decl) {
    d.semicolon || n >= |s| || s[n] != ';'
  }

  /** One more character read in front. */
  lemma ReadsCons(s: string, n: nat, x: string)
    requires |s| > 0 && Reads(s[1..], n, x)
    ensures Reads(s, n + 1, [s[0]] + x)
  {
    assert s[..n + 1] == [s[0]] + s[1..][..n];
  }

  /** The greedy `;` condition does not depend on what came before. */
  lemma GreedyCons(s: string, n: nat, d: Decl, d': Decl)
    requires |s| > 0 && Greedy(s[1..], n, d') && d.semicolon == d'.semicolon
    ensures Greedy(s, n + 1, d)
  {
  }

  lemma Assoc(c: char, x: string, y: string)
    ensures ([c] + x) + y == [c] + (x + y)
  {
  }

  lemma {:induction false} LightnessTailSound(s: string, f: Found) returns (d: Decl)
    requires LightnessTail(s) == Some(f)
    ensures f.hue == "" && f.saturation == "" && d.lightness == f.lightness
    ensures All(d.lightness, NumberChar)
    ensures Reads(s, f.len, d.lightness + ("%" + Semi(d))) && Greedy(s, f.len, d)
    decreases |s|
  {
    if NumberChar.Has(s[0]) {
      var g := LightnessTail(s[1..]).value;
      var d' := LightnessTailSound(s[1..], g);
      d := d'.(lightness := [s[0]] + d'.lightness);
      assert f.len == g.len + 1;
      AllCons(s[0], d'.lightness, NumberChar);
      ReadsCons(s, g.len, d'.lightness + ("%" + Semi(d')));
      GreedyCons(s, g.len, d, d');
      Assoc(s[0], d'.lightness, "%" + Semi(d'));
    } else {
      d := Decl("", "", "", "", "", "", "", |s| > 1 && s[1] == ';');
      assert s[..f.len] == "%" + Semi(d);
    }
  }

  lemma {:induction false} LightnessGapSound(s: string, f: Found) returns (d: Decl)
    requires LightnessGap(s) == Some(f)
    ensures f.hue == "" && f.saturation == "" && d.lightness == f.lightness
    ensures All(d.gap2, Space) && |d.lightness| > 0 && All(d.lightness, NumberChar)
    ensures Reads(s, f.len, SpellLightness(d)) && Greedy(s, f.len, d)
    decreases |s|
  {
    if Space.Has(s[0]) {
      var g := LightnessGap(s[1..]).value;
      var d' := LightnessGapSound(s[1..], g);
      d := d'.(gap2 := [s[0]] + d'.gap2);
      assert f.len == g.len + 1;
      AllCons(s[0], d'.gap2, Space);
      ReadsCons(s, g.len, SpellLightness(d'));
      GreedyCons(s, g.len, d, d');
      Assoc(s[0], d'.gap2, d'.lightness + ("%" + Semi(d')));
    } else {
      var g := LightnessTail(s[1..]).value;
      var d' := LightnessTailSound(s[1..], g);
      d := d'.(gap2 := "", lightness := [s[0]] + d'.lightness);
      assert f.len == g.len + 1;
      AllCons(s[0], d'.lightness, NumberChar);
      ReadsCons(s, g.len, d'.lightness + ("%" + Semi(d')));
      GreedyCons(s, g.len, d, d');
      Assoc(s[0], d'.lightness, "%" + Semi(d'));
      assert SpellLightness(d) == d.lightness + ("%" + Semi(d));
    }
  }

  lemma {:induction false} SaturationTailSound(s: string, f: Found) returns (d: Decl)
    requires SaturationTail(s) == Some(f)
    ensures f.hue == "" && d.saturation == f.saturation && d.lightness == f.lightness
    ensures All(d.saturation, NumberChar)
    ensures |d.gap2| > 0 && All(d.gap2, Space) && |d.lightness| > 0 && All(d.lightness, NumberChar)
    ensures Reads(s, f.len, d.saturation + ("%" + SpellLightness(d))) && Greedy(s, f.len, d)
    decreases |s|
  {
    if NumberChar.Has(s[0]) {
      var g := SaturationTail(s[1..]).value;
      var d' := SaturationTailSound(s[1..], g);
      d := d'.(saturation := [s[0]] + d'.saturation);
      assert f.len == g.len + 1;
      AllCons(s[0], d'.saturation, NumberChar);
      ReadsCons(s, g.len, d'.saturation + ("%" + SpellLightness(d')));
      GreedyCons(s, g.len, d, d');
      assert SpellLightness(d) == SpellLightness(d');
      Assoc(s[0], d'.saturation, "%" + SpellLightness(d'));
    } else {
      var g := LightnessGap(s[2..]).value;
      var d' := LightnessGapSound(s[2..], g);
      d := d'.(saturation := "", gap2 := [s[1]] + d'.gap2);
      assert f.len == g.len + 2;
      AllCons(s[1], d'.gap2, Space);
      assert s[1..][1..] == s[2..];
      ReadsCons(s[1..], g.len, SpellLightness(d'));
      GreedyCons(s[1..], g.len, d, d');
      ReadsCons(s, g.len + 1, [s[1]] + SpellLightness(d'));
      GreedyCons(s, g.len + 1, d, d);
      Assoc(s[1], d'.gap2, d'.lightness + ("%" + Semi(d')));
      assert SpellLightness(d) == [s[1]] + SpellLightness(d');
    }
  }

  lemma {:induction false} SaturationGapSound(s: string, f: Found) returns (d: Decl)
    requires SaturationGap(s) == Some(f)
    ensures f.hue == "" && d.saturation == f.saturation && d.lightness == f.lightness
    ensures All(d.gap1, Space) && |d.saturation| > 0 && All(d.saturation, NumberChar)
    ensures |d.gap2| > 0 && All(d.gap2, Space) && |d.lightness| > 0 && All(d.lightness, NumberChar)
    ensures Reads(s, f.len, SpellSaturation(d)) && Greedy(s, f.len, d)
    decreases |s|
  {
    if Space.Has(s[0]) {
      var g := SaturationGap(s[1..]).value;
      var d' := SaturationGapSound(s[1..], g);
      d := d'.(gap1 := [s[0]] + d'.gap1);
      assert f.len == g.len + 1;
      AllCons(s[0], d'.gap1, Space);
      ReadsCons(s, g.len, SpellSaturation(d'));
      GreedyCons(s, g.len, d, d');
      assert SpellLightness(d) == SpellLightness(d');
      Assoc(s[0], d'.gap1, d'.saturation + ("%" + SpellLightness(d')));
    } else {
      var g := SaturationTail(s[1..]).value;
      var d' := SaturationTailSound(s[1..], g);
      d := d'.(gap1 := "", saturation := [s[0]] + d'.saturation);
      assert f.len == g.len + 1;
      AllCons(s[0], d'.saturation, NumberChar);
      ReadsCons(s, g.len, d'.saturation + ("%" + SpellLightness(d')));
      GreedyCons(s, g.len, d, d');
      assert SpellLightness(d) == SpellLightness(d');
      Assoc(s[0], d'.saturation, "%" + SpellLightness(d'));
      assert SpellSaturation(d) == d.saturation + ("%" + SpellLightness(d));
    }
  }

  lemma {:induction false} HueTailSound(s: string, f: Found) returns (d: Decl)
    requires HueTail(s) == Some(f)
    ensures d.hue == f.hue && d.saturation == f.saturation && d.lightness == f.lightness
    ensures All(d.hue, NumberChar)
    ensures |d.gap1| > 0 && All(d.gap1, Space) && |d.saturation| > 0 && All(d.saturation, NumberChar)
    ensures |d.gap2| > 0 && All(d.gap2, Space) && |d.lightness| > 0 && All(d.lightness, NumberChar)
    ensures Reads(s, f.len, d.hue + SpellSaturation(d)) && Greedy(s, f.len, d)
    decreases |s|
  {
    if NumberChar.Has(s[0]) {
      var g := HueTail(s[1..]).value;
      var d' := HueTailSound(s[1..], g);
      d := d'.(hue := [s[0]] + d'.hue);
      assert f.len == g.len + 1;
      AllCons(s[0], d'.hue, NumberChar);
      ReadsCons(s, g.len, d'.hue + SpellSaturation(d'));
      GreedyCons(s, g.len, d, d');
      assert SpellSaturation(d) == SpellSaturation(d');
      Assoc(s[0], d'.hue, SpellSaturation(d'));
    } else {
      var g := SaturationGap(s[1..]).value;
      var d' := SaturationGapSound(s[1..], g);
      d := d'.(hue := "", gap1 := [s[0]] + d'.gap1);
      assert f.len == g.len + 1;
      AllCons(s[0], d'.gap1, Space);
      ReadsCons(s, g.len, SpellSaturation(d'));
      GreedyCons(s, g.len, d, d');
      assert SpellLightness(d) == SpellLightness(d');
      Assoc(s[0], d'.gap1, d'.saturation + ("%" + SpellLightness(d')));
      assert d.hue + SpellSaturation(d) == SpellSaturation(d);
    }
  }

  lemma {:induction false} HueGapSound(s: string, f: Found) returns (d: Decl)
    requires HueGap(s) == Some(f)
    ensures d.hue == f.hue && d.saturation == f.saturation && d.lightness == f.lightness
    ensures NumbersWellFormed(d)
    ensures Reads(s, f.len, SpellHue(d)) && Greedy(s, f.len, d)
    decreases |s|
  {
    if Space.Has(s[0]) {
      var g := HueGap(s[1..]).value;
      var d' := HueGapSound(s[1..], g);
      d := d'.(gap0 := [s[0]] + d'.gap0);
      assert f.len == g.len + 1;
      AllCons(s[0], d'.gap0, Space);
      ReadsCons(s, g.len, SpellHue(d'));
      GreedyCons(s, g.len, d, d');
      assert SpellSaturation(d) == SpellSaturation(d');
      Assoc(s[0], d'.gap0, d'.hue + SpellSaturation(d'));
    } else {
      var g := HueTail(s[1..]).value;
      var d' := HueTailSound(s[1..], g);
      d := d'.(gap0 := "", hue := [s[0]] + d'.hue);
      assert f.len == g.len + 1;
      AllCons(s[0], d'.hue, NumberChar);
      ReadsCons(s, g.len, d'.hue + SpellSaturation(d'));
      GreedyCons(s, g.len, d, d');
      assert SpellSaturation(d) == SpellSaturation(d');
      Assoc(s[0], d'.hue, SpellSaturation(d'));
      assert SpellHue(d) == d.hue + SpellSaturation(d);
    }
  }

  lemma {:induction false} NameTailSound(s: string, f: Found) returns (d: Decl)
    requires NameTail(s) == Some(f)
    ensures d.hue == f.hue && d.saturation == f.saturation && d.lightness == f.lightness
    ensures All(d.name, NameChar) && NumbersWellFormed(d)
    ensures Reads(s, f.len, d.name + (":" + SpellHue(d))) && Greedy(s, f.len, d)
    decreases |s|
  {
    if NameChar.Has(s[0]) {
      var g := NameTail(s[1..]).value;
      var d' := NameTailSound(s[1..], g);
      d := d'.(name := [s[0]] + d'.name);
      assert f.len == g.len + 1;
      AllCons(s[0], d'.name, NameChar);
      ReadsCons(s, g.len, d'.name + (":" + SpellHue(d')));
      GreedyCons(s, g.len, d, d');
      assert SpellHue(d) == SpellHue(d');
      Assoc(s[0], d'.name, ":" + SpellHue(d'));
    } else {
      var g := HueGap(s[1..]).value;
      var d' := HueGapSound(s[1..], g);
      d := d'.(name := "");
      assert f.len == g.len + 1;
      ReadsCons(s, g.len, SpellHue(d'));
      GreedyCons(s, g.len, d, d');
      assert SpellHue(d) == SpellHue(d');
    }
  }

  /** Soundness: every hit is the spelling of a well-formed declaration whose
      numbers are the captures, and a `;` right after the hit would have been
      taken into it. */
  lemma MatchAtSound(text: string, i: nat)
    requires MatchAt(text, i).Some?
    ensures var h := MatchAt(text, i).value;
            exists d :: WellFormed(d) && Spell(d) == text[i..h.end]
                        && d.hue == h.hue && d.saturation == h.saturation && d.lightness == h.lightness
                        && (!d.semicolon ==> h.end == |text| || text[h.end] != ';')
  {
    var h := MatchAt(text, i).value;
    var s := text[i..];
    var g := NameTail(s[3..]).value;
    var d' := NameTailSound(s[3..], g);
    var d := d'.(name := [s[2]] + d'.name);
    var x := d'.name + (":" + SpellHue(d'));
    assert h.end == i + g.len + 3;
    AllCons(s[2], d'.name, NameChar);
    assert s[2..][1..] == s[3..];
    ReadsCons(s[2..], g.len, x);
    assert s[1..][1..] == s[2..];
    ReadsCons(s[1..], g.len + 1, [s[2]] + x);
    ReadsCons(s, g.len + 2, [s[1]] + ([s[2]] + x));
    Assoc(s[2], d'.name, ":" + SpellHue(d'));
    assert SpellHue(d) == SpellHue(d');
    assert Spell(d) == [s[0]] + ([s[1]] + ([s[2]] + x));
    assert text[i..h.end] == s[..g.len + 3];
    assert WellFormed(d);
  }
}
