// What the option list parser makes of lists as people write them.

module GetOptLaws {
  import opened GetOptLst

  // ---- Lists as they are written by hand ----

  predicate Blanks(b: string) {
    forall k :: 0 <= k < |b| ==> b[k] in {' ', '\t', '\n'}
  }

  // w stands for this text: characters without a meaning of their own as they are, any others behind a backslash.
  predicate Spells(w: string, text: string) {
    if text == "" then w == ""
    else
      || (|w| >= 2 && w[0] == '\\' && w[1] == text[0] && Spells(w[2..], text[1..]))
      || (|w| >= 1 && w[0] == text[0] && w[0] !in {'\\', ',', ' ', '\t', '\n'} && Spells(w[1..], text[1..]))
  }

  // One element: blanks before it, how it is spelled, its text, and what separates it from the next one
  datatype Field = Field(lead: string, spelled: string, text: string, sep: string)

  // Separated by a comma, perhaps behind blanks
  predicate CommaEnds(f: Field) {
    f.sep != "" && f.sep[|f.sep| - 1] == ',' && Blanks(f.sep[..|f.sep| - 1])
  }

  // Separated by blanks alone, which takes an element on either side
  predicate BlanksEnd(f: Field, next: Field) {
    f.sep != "" && Blanks(f.sep) && f.text != "" && next.text != ""
  }

  predicate WellLaid(fs: seq<Field>) {
    && (forall k :: 0 <= k < |fs| ==> Blanks(fs[k].lead) && Spells(fs[k].spelled, fs[k].text))
    && (forall k :: 0 <= k < |fs| - 1 ==> CommaEnds(fs[k]) || BlanksEnd(fs[k], fs[k + 1]))
    && (fs != [] ==> Blanks(fs[|fs| - 1].sep))
  }

  function Laid(fs: seq<Field>): string {
    if fs == [] then "" else fs[0].lead + (fs[0].spelled + (fs[0].sep + Laid(fs[1..])))
  }

  function Texts(fs: seq<Field>): seq<string> {
    if fs == [] then [] else [fs[0].text] + Texts(fs[1..])
  }

  lemma {:induction false} SkipLead(b: string, s: string)
    requires Blanks(b)
    ensures SkipWhite(b + s) == SkipWhite(s)
    decreases |b|
  {
    if b == "" {
      assert b + s == s;
    } else {
      SkipLead(b[1..], s);
      assert (b + s)[0] == b[0] && (b + s)[1..] == b[1..] + s;
    }
  }

  lemma SpelledStarts(w: string, text: string)
    requires Spells(w, text)
    ensures w == "" <==> text == ""
    ensures w != "" ==> w[0] != ',' && !White(w[0])
  {
  }

  lemma {:induction false} ReadSpelled(w: string, text: string, rest: string)
    requires Spells(w, text)
    ensures ReadElement(w + rest) == ReadElement(rest).(text := text + ReadElement(rest).text)
    decreases |text|
  {
    hide ReadElement, Spells;
    SpelledFirst(w, text);
    if text == "" {
      assert w + rest == rest && text + ReadElement(rest).text == ReadElement(rest).text;
    } else {
      var n := if w[0] == '\\' then 2 else 1;
      ReadSpelled(w[n..], text[1..], rest);
      assert (w + rest)[n..] == w[n..] + rest;
      ReadFirst(w + rest, text[0]);
      assert [text[0]] + (text[1..] + ReadElement(rest).text) == text + ReadElement(rest).text;
    }
  }

  lemma SpelledFirst(w: string, text: string)
    requires Spells(w, text)
    ensures text == "" ==> w == ""
    ensures text != "" ==>
              && |w| >= 1 && StandsFor(w, text[0])
              && var n := if w[0] == '\\' then 2 else 1; n <= |w| && Spells(w[n..], text[1..])
  {
  }

  // The list starts with this character, perhaps behind a backslash.
  predicate StandsFor(s: string, c: char)
    requires s != ""
  {
    if s[0] == '\\' then |s| > 1 && s[1] == c else s[0] == c && c != ',' && !White(c)
  }

  lemma ReadFirst(s: string, c: char)
    requires s != "" && StandsFor(s, c)
    ensures var rest := ReadElement(s[if s[0] == '\\' then 2 else 1..]);
            ReadElement(s) == rest.(text := [c] + rest.text)
  {
  }

  // What ends an element
  lemma ReadSeparator(f: Field, rest: string, next: Field)
    requires (rest == "" && Blanks(f.sep))
             || CommaEnds(f)
             || (BlanksEnd(f, next) && SkipWhite(rest) != "" && SkipWhite(rest)[0] != ',')
    ensures ReadElement(f.sep + rest) ==
            if CommaEnds(f) then Element("", rest, false)
            else if rest == "" && Blanks(f.sep) then Element("", "", true)
            else Element("", SkipWhite(rest), false)
  {
    hide SkipWhite;
    var y := f.sep + rest;
    if CommaEnds(f) {
      var b := f.sep[..|f.sep| - 1];
      assert y == b + ([','] + rest);
      if b != "" {
        assert y[1..] == b[1..] + ([','] + rest);
        SkipLead(b[1..], [','] + rest);
        SkipDone([','] + rest);
        assert ([','] + rest)[1..] == rest;
      } else {
        assert y[1..] == rest;
      }
    } else if f.sep != "" {
      assert y[1..] == f.sep[1..] + rest;
      SkipLead(f.sep[1..], rest);
      SkipDone(rest);
    }
  }

  lemma SkipDone(s: string)
    ensures s == "" || !White(s[0]) ==> SkipWhite(s) == s
  {
  }

  // Parse sees no leading blanks.
  lemma ParseSkips(s: string, t: string)
    requires SkipWhite(s) == SkipWhite(t)
    ensures Parse(s) == Parse(t)
  {
    hide SkipWhite, ReadElement;
  }

  lemma WellLaidTail(fs: seq<Field>)
    requires WellLaid(fs) && |fs| > 1
    ensures WellLaid(fs[1..])
  {
    hide Spells, Blanks, CommaEnds, BlanksEnd;
  }

  lemma LaidStarts(fs: seq<Field>)
    requires WellLaid(fs) && fs != [] && fs[0].text != ""
    ensures SkipWhite(Laid(fs)) != "" && SkipWhite(Laid(fs))[0] != ','
  {
    hide Spells, Blanks;
    var f := fs[0];
    SkipLead(f.lead, f.spelled + (f.sep + Laid(fs[1..])));
    SpelledStarts(f.spelled, f.text);
    SkipDone(f.spelled + (f.sep + Laid(fs[1..])));
  }

  lemma FieldsTexts(fs: seq<Field>)
    requires fs != []
    ensures Texts(fs) == [fs[0].text] + Texts(fs[1..])
    ensures |fs| == 1 ==> Texts(fs) == [fs[0].text] && Laid(fs[1..]) == ""
  {
  }

  // One field: what Parse makes of it, and what is left
  lemma ParseField(f: Field, rest: string, next: Field)
    requires Blanks(f.lead) && Spells(f.spelled, f.text)
    requires (rest == "" && Blanks(f.sep))
             || CommaEnds(f)
             || (BlanksEnd(f, next) && SkipWhite(rest) != "" && SkipWhite(rest)[0] != ',')
    ensures Parse(f.lead + (f.spelled + (f.sep + rest))) ==
            if !CommaEnds(f) && rest == "" then [f.text] else [f.text] + Parse(rest)
  {
    hide Spells, Blanks, SkipWhite, ReadElement, CommaEnds;
    var y := f.sep + rest;
    var x := f.spelled + y;
    SkipLead(f.lead, x);
    ReadSeparator(f, rest, next);
    SpelledStarts(f.spelled, f.text);
    if f.spelled != "" {
      assert x[0] == f.spelled[0];
      SkipDone(x);
      ReadSpelled(f.spelled, f.text, y);
      assert f.text + "" == f.text;
      SkipAgain(rest);
      ParseSkips(SkipWhite(rest), rest);
    } else {
      assert x == y;
      EmptyField(f, rest);
    }
  }

  lemma SkipAgain(s: string)
    ensures SkipWhite(SkipWhite(s)) == SkipWhite(s)
  {
    SkipDone(SkipWhite(s));
  }

  lemma EmptyField(f: Field, rest: string)
    ensures CommaEnds(f) ==> SkipWhite(f.sep + rest) == [','] + rest
    ensures Blanks(f.sep) && rest == "" ==> SkipWhite(f.sep + rest) == ""
  {
    hide SkipWhite;
    if CommaEnds(f) {
      var b := f.sep[..|f.sep| - 1];
      assert f.sep + rest == b + ([','] + rest);
      SkipLead(b, [','] + rest);
      SkipDone([','] + rest);
    }
    if Blanks(f.sep) && rest == "" {
      SkipLead(f.sep, rest);
      SkipDone(rest);
    }
  }

  // A list laid out by hand, with blanks around its elements, separated by commas or by blanks alone, and with backslashes
  // only where they are needed, parses to its elements.
  lemma {:induction false} ParseLaid(fs: seq<Field>)
    requires fs != [] && WellLaid(fs)
    ensures Parse(Laid(fs)) == Texts(fs)
    decreases |fs|
  {
    hide Spells, Blanks, CommaEnds, SkipWhite, Texts;
    FieldsTexts(fs);
    var f, rest := fs[0], Laid(fs[1..]);
    if |fs| > 1 {
      WellLaidTail(fs);
      ParseLaid(fs[1..]);
      if fs[1].text != "" {
        LaidStarts(fs[1..]);
      }
      ParseField(f, rest, fs[1]);
    } else {
      ParseField(f, rest, f);
      LastNoComma(f);
    }
  }

  lemma LastNoComma(f: Field)
    requires Blanks(f.sep)
    ensures !CommaEnds(f)
  {
  }
}
