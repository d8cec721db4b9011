/** `findColorMatches`: the colour pattern of `Pattern` run as a global
    regular expression over a document's text. */
module Scanner {
  import opened Options
  import opened Pattern
  import opened GlobalScan

  /** The colour pattern matches only at the offset it is tried at, and
      never the empty string. */
  lemma MatchAtSticky()
    ensures Sticky(MatchAt)
  {
    forall text: string, i: nat
      ensures MatchAt(text, i).Some? ==>
                MatchAt(text, i).value.start == i && i < MatchAt(text, i).value.end <= |text|
    {
    }
  }

  /** The hits of the colour expression in `text`, from offset `from` on. */
  function ColorScan(text: string, from: nat): seq<Hit> {
    MatchAtSticky();
    Scan(MatchAt, text, from)
  }

  /** `findColorMatches`: the `while` loop of `FindAll` over the shared
      global colour expression, whose `lastIndex` is `lastIndex` on entry. */
  method FindColorMatches(text: string, lastIndex: nat) returns (hits: seq<Hit>, lastIndexAfter: nat)
    ensures IsLeftmostScan(MatchAt, text, lastIndex, hits)
    ensures hits == ColorScan(text, lastIndex)
    ensures lastIndexAfter == 0
  {
    MatchAtSticky();
    hits, lastIndexAfter := FindAll(MatchAt, text, lastIndex);
  }

  /** No declaration starts at a character other than `-`. */
  lemma NoMatchWithoutDash(text: string, i: nat)
    requires i < |text| && text[i] != '-'
    ensures MatchAt(text, i).None?
  {
    assert text[i..][0] == text[i];
  }

  /** Text without a `-` holds no declaration; in particular empty text
      yields no hits. */
  lemma NoDashNoHits(text: string)
    requires '-' !in text
    ensures ColorScan(text, 0) == []
  {
    MatchAtSticky();
    forall p | 0 <= p < |text|
      ensures MatchAt(text, p).None?
    {
      NoMatchWithoutDash(text, p);
    }
    ExecNone(MatchAt, text, 0);
  }

  /** One declaration, the `;` included. */
  lemma ExampleOneDeclaration()
    ensures ColorScan("--bg: 210 40% 98%;", 0) == [Hit(0, 18, "210", "40", "98")]
  {
    MatchAtSticky();
    var text := "--bg: 210 40% 98%;";
    var d := Decl("bg", " ", "210", " ", "40", " ", "98", true);
    assert Spell(d) == text;
    MatchAtComplete(text, 0, d);
    assert Exec(MatchAt, text, 0) == Some(Hit(0, 18, "210", "40", "98"));
    assert Scan(MatchAt, text, 18) == [];
  }

  const TwoDeclarations := "--x: 1 2% 3% --y: 4 5% 6%;"

  /** The text is the first declaration, a space and the second one. */
  lemma TwoDeclarationsParts()
    ensures TwoDeclarations[..12] == Spell(Decl("x", " ", "1", " ", "2", " ", "3", false))
    ensures TwoDeclarations[12..] == " " + Spell(Decl("y", " ", "4", " ", "5", " ", "6", true))
  {
  }

  lemma ExampleTwoFirst()
    ensures Sticky(MatchAt)
    ensures Exec(MatchAt, TwoDeclarations, 0) == Some(Hit(0, 12, "1", "2", "3"))
  {
    MatchAtSticky();
    TwoDeclarationsParts();
    var d := Decl("x", " ", "1", " ", "2", " ", "3", false);
    assert TwoDeclarations[12] == TwoDeclarations[12..][0] == ' ';
    MatchAtComplete(TwoDeclarations, 0, d);
    assert MatchAt(TwoDeclarations, 0).Some?;
  }

  lemma ExampleTwoSecond()
    ensures Sticky(MatchAt)
    ensures Exec(MatchAt, TwoDeclarations, 12) == Some(Hit(13, 26, "4", "5", "6"))
  {
    MatchAtSticky();
    TwoDeclarationsParts();
    var d := Decl("y", " ", "4", " ", "5", " ", "6", true);
    assert TwoDeclarations[13..] == TwoDeclarations[12..][1..];
    MatchAtComplete(TwoDeclarations, 13, d);
    NoMatchWithoutDash(TwoDeclarations, 12);
    assert Exec(MatchAt, TwoDeclarations, 13) == MatchAt(TwoDeclarations, 13);
  }

  /** Two declarations on one line, found left to right; the first has no
      `;` of its own, and the search resumes after it. */
  lemma ExampleTwoDeclarations()
    ensures ColorScan(TwoDeclarations, 0) == [Hit(0, 12, "1", "2", "3"), Hit(13, 26, "4", "5", "6")]
  {
    ExampleTwoFirst();
    ExampleTwoSecond();
    ScanUnfold(MatchAt, TwoDeclarations, 0, Hit(0, 12, "1", "2", "3"));
    ScanUnfold(MatchAt, TwoDeclarations, 12, Hit(13, 26, "4", "5", "6"));
    assert Scan(MatchAt, TwoDeclarations, 26) == [];
  }

  /** The number class accepts any run of digits and dots, so `1.2.3` and a
      lone `.` are captured as they are. */
  lemma ExampleLooseNumbers()
    ensures ColorScan("--a:1.2.3 .%\t..%", 0) == [Hit(0, 16, "1.2.3", ".", "..")]
  {
    MatchAtSticky();
    var text := "--a:1.2.3 .%\t..%";
    var d := Decl("a", "", "1.2.3", " ", ".", "\t", "..", false);
    assert Spell(d) == text;
    MatchAtComplete(text, 0, d);
    assert Exec(MatchAt, text, 0) == Some(Hit(0, 16, "1.2.3", ".", ".."));
    assert Scan(MatchAt, text, 16) == [];
  }

  /** "not a color" holds no declaration. */
  lemma ExampleNoColor()
    ensures ColorScan("not a color", 0) == []
  {
    NoDashNoHits("not a color");
  }
}
