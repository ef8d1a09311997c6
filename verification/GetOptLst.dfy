// The two-pass option list parser (csa/lib/basic.c, getoptlst).

module GetOptLst {
  import opened Basics

  const NUL: char := '\0'

  predicate White(c: char) {
    c == ' ' || c == '\t' || c == '\n'
  }

  // ---- What a list means ----

  function SkipWhite(s: string): (r: string)
    ensures |r| <= |s|
    ensures r != "" ==> !White(r[0])
    ensures NUL !in s ==> NUL !in r
  {
    if s != "" && White(s[0]) then SkipWhite(s[1..]) else s
  }

  // The rest of an element: its characters, what follows it, and whether the list ends with it.
  datatype Element = Element(text: string, rest: string, last: bool)

  function ReadElement(s: string): (e: Element)
    ensures s != "" ==> |e.rest| < |s|
    ensures NUL !in s ==> NUL !in e.text && NUL !in e.rest
    decreases |s|
  {
    if s == "" then Element("", "", true)
    else if s[0] == '\\' && |s| > 1 then
      var e := ReadElement(s[2..]);
      Element([s[1]] + e.text, e.rest, e.last)
    else if White(s[0]) then
      var t := SkipWhite(s[1..]);
      if t == "" then Element("", "", true)
      else if t[0] == ',' then Element("", t[1..], false)
      else Element("", t, false)
    else if s[0] == ',' then Element("", s[1..], false)
    else
      var e := ReadElement(s[1..]);
      Element([s[0]] + e.text, e.rest, e.last)
  }

  // The elements of a list, separated by white space or commas.
  function Parse(s: string): (r: seq<string>)
    ensures r != []
    decreases |s|
  {
    var t := SkipWhite(s);
    if t == "" then [""]
    else if t[0] == ',' then [""] + Parse(t[1..])
    else
      var e := ReadElement(t);
      if e.last then [e.text] else [e.text] + Parse(e.rest)
  }

  // Bytes needed for the elements with their terminators
  function Total(list: seq<string>): nat {
    if list == [] then 0 else |list[0]| + 1 + Total(list[1..])
  }

  // The elements one after another, each with its terminator
  function Image(list: seq<string>): (r: string)
    ensures |r| == Total(list)
  {
    if list == [] then "" else list[0] + [NUL] + Image(list[1..])
  }

  // Where the elements start, the first one at `base`
  function Offsets(list: seq<string>, base: nat): (r: seq<int>)
    ensures |r| == |list|
  {
    if list == [] then [] else [base] + Offsets(list[1..], base + |list[0]| + 1)
  }

  // ---- The two passes ----

  // The character s1 points at; a C string ends with NUL
  function At(s: string, i: nat): char {
    if i < |s| then s[i] else NUL
  }

  lemma SkipStep(s: string, i: nat)
    requires i <= |s|
    ensures White(At(s, i)) ==> i < |s| && SkipWhite(s[i..]) == SkipWhite(s[i + 1..])
    ensures !White(At(s, i)) ==> SkipWhite(s[i..]) == s[i..]
  {
    if i < |s| {
      assert s[i..][1..] == s[i + 1..];
    }
  }

  // while (((c = *(s1++)) is white)): s1 ends up behind the first character that is not white, which is c.
  method SkipLeading(s: string, start: nat) returns (s1: nat, c: char)
    requires start <= |s|
    ensures start < s1 <= |s| + 1 && c == At(s, s1 - 1)
    ensures SkipWhite(s[start..]) == s[s1 - 1..]
  {
    hide SkipWhite;
    c := At(s, start);
    s1 := start + 1;
    while White(c)
      invariant start < s1 <= |s| + 1 && c == At(s, s1 - 1)
      invariant SkipWhite(s[start..]) == SkipWhite(s[s1 - 1..])
      decreases |s| + 1 - s1
    {
      SkipStep(s, s1 - 1);
      c := At(s, s1);
      s1 := s1 + 1;
    }
    SkipStep(s, s1 - 1);
  }

  // The blanks after an element and at most one comma; c is the character that ended them.
  method SkipBlanks(s: string, start: nat) returns (s1: nat, c: char)
    requires start <= |s|
    ensures start <= s1 <= |s|
    ensures var t := SkipWhite(s[start..]);
            c == At(t, 0) && s[s1..] == if t != "" && t[0] == ',' then t[1..] else t
  {
    hide SkipWhite;
    s1 := start;
    c := At(s, s1);
    while White(c)
      invariant start <= s1 <= |s| && c == At(s, s1)
      invariant SkipWhite(s[start..]) == SkipWhite(s[s1..])
      decreases |s| - s1
    {
      SkipStep(s, s1);
      s1 := s1 + 1;
      c := At(s, s1);
    }
    SkipStep(s, s1);
    if c == ',' {
      assert s[s1..][1..] == s[s1 + 1..];
      s1 := s1 + 1;
    }
  }

  // How the inner loop leaves s1 and c once the element e is done
  ghost predicate ElementDone(s: string, e: Element, s1: nat, c: char) {
    && (c == NUL <==> e.last)
    && (!e.last ==> s1 <= |s| && s[s1..] == e.rest)
  }

  // What the inner loop still has to do for an element whose characters up to s1 - 1 are dealt with
  function Pending(s: string, s1: nat): Element
    requires 0 < s1 <= |s| + 1
  {
    ReadElement(s[s1 - 1..])
  }

  // One round of the inner loop, by the character it looks at.
  lemma PendingStep(s: string, s1: nat, c: char)
    requires 0 < s1 <= |s| + 1 && c == At(s, s1 - 1) && NUL !in s
    ensures c == '\\' && At(s, s1) != NUL ==>
              s1 + 2 <= |s| + 1 && Pending(s, s1) == (var e := Pending(s, s1 + 2); Element([s[s1]] + e.text, e.rest, e.last))
    ensures c == NUL ==> Pending(s, s1) == Element("", "", true)
    ensures White(c) ==>
              var t := SkipWhite(s[s1..]);
              Pending(s, s1) == if t == "" then Element("", "", true)
                                else Element("", if t[0] == ',' then t[1..] else t, false)
    ensures c == ',' ==> Pending(s, s1) == Element("", s[s1..], false)
    ensures c != NUL && !White(c) && c != ',' && !(c == '\\' && At(s, s1) != NUL) ==>
              s1 + 1 <= |s| + 1 && Pending(s, s1) == (var e := Pending(s, s1 + 1); Element([c] + e.text, e.rest, e.last))
  {
    var u := s[s1 - 1..];
    if s1 <= |s| {
      assert u[0] == c && u[1..] == s[s1..];
      assert |u| > 1 ==> u[1] == s[s1] && u[2..] == s[s1 + 1..];
    }
  }

  // The inner loop of pass one: the bytes of one element with its terminator.
  method CountElement(s: string, start: nat) returns (s1: nat, c: char, n: nat)
    requires 0 < start <= |s| + 1 && NUL !in s
    ensures start <= s1 && n == |Pending(s, start).text| + 1
    ensures ElementDone(s, Pending(s, start), s1, c)
  {
    hide ReadElement, SkipWhite;
    s1, c, n := start, At(s, start - 1), 0;
    while true
      invariant start <= s1 <= |s| + 1 && c == At(s, s1 - 1)
      invariant Pending(s, start).rest == Pending(s, s1).rest && Pending(s, start).last == Pending(s, s1).last
      invariant n + |Pending(s, s1).text| == |Pending(s, start).text|
      decreases |s| + 1 - s1
    {
      PendingStep(s, s1, c);
      n := n + 1;
      if c == '\\' && At(s, s1) != NUL {
        s1 := s1 + 1;
      } else if c == NUL {
        return;
      } else if White(c) {
        s1, c := SkipBlanks(s, s1);
        return;
      } else if c == ',' {
        return;
      }
      c, s1 := At(s, s1), s1 + 1;
    }
  }

  // Pass one: count the elements and the bytes they need.
  method CountPass(s: string) returns (optargc: nat, ccount: nat)
    requires NUL !in s
    ensures optargc == |Parse(s)| && ccount == Total(Parse(s))
  {
    hide ReadElement, SkipWhite;
    optargc, ccount := 0, 0;
    var s1: nat := 0;
    while true
      invariant s1 <= |s|
      invariant optargc + |Parse(s[s1..])| == |Parse(s)|
      invariant ccount + Total(Parse(s[s1..])) == Total(Parse(s))
      decreases |s| - s1
    {
      optargc := optargc + 1;
      var c, n;
      s1, c := SkipLeading(s, s1);
      if c == NUL {
        ccount := ccount + 1;
        break;
      }
      if c == ',' {
        ccount := ccount + 1;
        assert s[s1 - 1..][1..] == s[s1..];
        continue;
      }
      s1, c, n := CountElement(s, s1);
      ccount := ccount + n;
      if c == NUL {
        break;
      }
    }
  }

  // The inner loop of pass two: store one element and its terminator from s2 on. Behind the element that ends the
  // list s2 need not move any more.
  method FillElement(s: string, start: nat, buf: array<char>, from: nat) returns (s1: nat, c: char, s2: nat)
    requires 0 < start <= |s| + 1 && NUL !in s
    requires from + |Pending(s, start).text| < buf.Length
    modifies buf
    ensures start <= s1 && ElementDone(s, Pending(s, start), s1, c)
    ensures var n := from + |Pending(s, start).text|;
            && buf[..from] == old(buf[..from]) && buf[from..n + 1] == Pending(s, start).text + [NUL]
            && (c != NUL ==> s2 == n + 1)
  {
    hide ReadElement, SkipWhite, Pending;
    s1, c, s2 := start, At(s, start - 1), from;
    ghost var text := Pending(s, start).text;
    while true
      invariant start <= s1 <= |s| + 1 && c == At(s, s1 - 1)
      invariant Pending(s, start).rest == Pending(s, s1).rest && Pending(s, start).last == Pending(s, s1).last
      invariant from <= s2 <= from + |text| && Pending(s, s1).text == text[s2 - from..]
      invariant buf[..from] == old(buf[..from]) && buf[from..s2] == text[..s2 - from]
      decreases |s| + 1 - s1
    {
      PendingStep(s, s1, c);
      if c == '\\' && At(s, s1) != NUL {
        StoreChar(buf, from, s2, s[s1], text);
        s2 := s2 + 1;
        s1 := s1 + 1;
      } else if c == NUL {
        StoreNul(buf, from, s2, text);
        return;
      } else if White(c) {
        StoreNul(buf, from, s2, text);
        s2 := s2 + 1;
        s1, c := SkipBlanks(s, s1);
        return;
      } else if c == ',' {
        StoreNul(buf, from, s2, text);
        s2 := s2 + 1;
        return;
      } else {
        StoreChar(buf, from, s2, c, text);
        s2 := s2 + 1;
      }
      c := At(s, s1);
      s1 := s1 + 1;
    }
  }

  // *s2 = c for the next character of the element
  method StoreChar(buf: array<char>, from: nat, s2: nat, c: char, ghost text: string)
    requires from <= s2 < from + |text| < buf.Length && text[s2 - from] == c
    requires buf[from..s2] == text[..s2 - from]
    modifies buf
    ensures buf[..from] == old(buf[..from]) && buf[from..s2 + 1] == text[..s2 + 1 - from]
  {
    buf[s2] := c;
    assert buf[from..s2 + 1] == buf[from..s2] + [c];
    assert text[..s2 + 1 - from] == text[..s2 - from] + [c];
  }

  // *s2 = NUL behind the element
  method StoreNul(buf: array<char>, from: nat, s2: nat, ghost text: string)
    requires s2 == from + |text| < buf.Length && buf[from..s2] == text[..s2 - from]
    modifies buf
    ensures buf[..from] == old(buf[..from]) && buf[from..s2 + 1] == text + [NUL]
  {
    buf[s2] := NUL;
    assert buf[from..s2 + 1] == buf[from..s2] + [NUL];
  }

  // One round of the outer loop of pass two: store the next element and where it starts.
  method FillNext(s: string, start: nat, argv: array<int>, k: nat, buf: array<char>, from: nat)
    returns (s1: nat, c: char, s2: nat)
    requires NUL !in s && start <= |s| && k < argv.Length
    requires from + |Parse(s[start..])[0]| < buf.Length
    modifies argv, buf
    ensures argv[..k] == old(argv[..k]) && argv[k] == from
    ensures var e := Parse(s[start..])[0];
            && buf[..from] == old(buf[..from]) && buf[from..from + |e| + 1] == e + [NUL]
            && (c != NUL ==> s2 == from + |e| + 1)
    ensures c == NUL <==> |Parse(s[start..])| == 1
    ensures c != NUL ==> start < s1 <= |s| && Parse(s[s1..]) == Parse(s[start..])[1..]
  {
    hide ReadElement, SkipWhite;
    s1, c := SkipLeading(s, start);
    argv[k] := from;
    s2 := from;
    if c == NUL {
      buf[s2] := NUL;
    } else if c == ',' {
      buf[s2] := NUL;
      s2 := s2 + 1;
      assert s[s1 - 1..][1..] == s[s1..];
    } else {
      s1, c, s2 := FillElement(s, s1, buf, s2);
    }
  }

  lemma {:induction false} Append(done: seq<string>, e: string, base: nat)
    ensures Total(done + [e]) == Total(done) + |e| + 1
    ensures Image(done + [e]) == Image(done) + (e + [NUL])
    ensures Offsets(done + [e], base) == Offsets(done, base) + [base + Total(done)]
    decreases done
  {
    if done != [] {
      assert (done + [e])[0] == done[0] && (done + [e])[1..] == done[1..] + [e];
      Append(done[1..], e, base + |done[0]| + 1);
    } else {
      assert done + [e] == [e];
    }
  }

  lemma {:induction false} TotalConcat(a: seq<string>, b: seq<string>)
    ensures Total(a + b) == Total(a) + Total(b)
  {
    if a == [] {
      assert a + b == b;
    } else {
      assert (a + b)[0] == a[0] && (a + b)[1..] == a[1..] + b;
      TotalConcat(a[1..], b);
    }
  }

  // Room is left for the next element.
  lemma RoomForNext(done: seq<string>, rest: seq<string>)
    requires rest != []
    ensures Total(done + rest) >= Total(done) + |rest[0]| + 1
    ensures |rest| == 1 ==> done + rest == done + [rest[0]]
    ensures done + rest == (done + [rest[0]]) + rest[1..]
  {
    TotalConcat(done, rest);
  }

  // Pass two: store every element in the space pass one reserved; argv ends with a null pointer, -1.
  method FillPass(s: string, argv: array<int>, buf: array<char>) returns (optargc: nat)
    requires NUL !in s && argv.Length == |Parse(s)| + 1 && buf.Length == Total(Parse(s))
    modifies argv, buf
    ensures optargc == |Parse(s)|
    ensures argv[..] == Offsets(Parse(s), 0) + [-1]
    ensures buf[..] == Image(Parse(s))
  {
    hide Parse, Total, Image, Offsets;
    optargc := 0;
    var s1: nat, s2: nat := 0, 0;
    ghost var done: seq<string> := [];
    NothingStored();
    while true
      invariant s1 <= |s| && Parse(s) == done + Parse(s[s1..])
      invariant optargc == |done| && s2 == Total(done) <= buf.Length
      invariant argv[..optargc] == Offsets(done, 0) && buf[..s2] == Image(done)
      decreases |s| - s1
    {
      ghost var rest := Parse(s[s1..]);
      ghost var e := rest[0];
      RoomForNext(done, rest);
      Append(done, e, 0);
      var c, next;
      s1, c, next := FillNext(s, s1, argv, optargc, buf, s2);
      assert argv[..optargc + 1] == argv[..optargc] + [s2];
      assert buf[..s2 + |e| + 1] == buf[..s2] + buf[s2..s2 + |e| + 1];
      done := done + [e];
      optargc := optargc + 1;
      if c == NUL {
        break;
      }
      s2 := next;
    }
    argv[optargc] := -1;
    assert buf[..] == buf[..Total(done)];
  }

  lemma NothingStored()
    ensures Total([]) == 0 && Image([]) == "" && Offsets([], 0) == []
  {
  }

  // getoptlst: the element count, the argument vector and the characters it points into; None for a null pointer
  method GetOptLst(optarg: Option<string>) returns (optargc: nat, argv: array?<int>, buf: array?<char>)
    requires optarg.Some? ==> NUL !in optarg.value
    ensures optarg.None? ==> optargc == 0 && argv == null && buf == null
    ensures optarg.Some? ==>
              && optargc == |Parse(optarg.value)|
              && argv != null && argv[..] == Offsets(Parse(optarg.value), 0) + [-1]
              && buf != null && buf[..] == Image(Parse(optarg.value))
  {
    match optarg
    case None => return 0, null, null;
    case Some(s) =>
      var ccount;
      optargc, ccount := CountPass(s);
      var pointers, chars := new int[optargc + 1], new char[ccount];
      optargc := FillPass(s, pointers, chars);
      return optargc, pointers, chars;
  }

  // ---- What a caller sees ----

  // The C string that starts at offset i
  function StringAt(buf: string, i: nat): string
    decreases |buf| - i
  {
    if i >= |buf| || buf[i] == NUL then "" else [buf[i]] + StringAt(buf, i + 1)
  }

  lemma {:induction false} StringBeforeNul(buf: string, i: nat, text: string)
    requires i + |text| < |buf| && buf[i..i + |text|] == text && buf[i + |text|] == NUL && NUL !in text
    ensures StringAt(buf, i) == text
    decreases |text|
  {
    if text != "" {
      assert buf[i] == text[0] && buf[i + 1..i + |text|] == text[1..];
      StringBeforeNul(buf, i + 1, text[1..]);
    }
  }

  // Following the k-th pointer gives the k-th element.
  lemma {:induction false} PointsAtElement(list: seq<string>, k: nat, before: string)
    requires k < |list| && forall i :: 0 <= i < |list| ==> NUL !in list[i]
    ensures 0 <= Offsets(list, |before|)[k]
    ensures StringAt(before + Image(list), Offsets(list, |before|)[k]) == list[k]
    decreases k
  {
    var e := list[0];
    if k == 0 {
      var buf := before + Image(list);
      assert buf[|before|..|before| + |e|] == e;
      StringBeforeNul(buf, |before|, e);
    } else {
      var next := before + (e + [NUL]);
      PointsAtElement(list[1..], k - 1, next);
      ImageStep(list, before);
      OffsetsStep(list, |before|, k);
    }
  }

  lemma ImageStep(list: seq<string>, before: string)
    requires list != []
    ensures before + Image(list) == (before + (list[0] + [NUL])) + Image(list[1..])
  {
  }

  lemma OffsetsStep(list: seq<string>, base: nat, k: nat)
    requires 0 < k < |list|
    ensures Offsets(list, base)[k] == Offsets(list[1..], base + |list[0]| + 1)[k - 1]
  {
  }

  lemma {:induction false} ParseHasNoNul(s: string)
    requires NUL !in s
    ensures forall i :: 0 <= i < |Parse(s)| ==> NUL !in Parse(s)[i]
    decreases |s|
  {
    hide ReadElement;
    var t := SkipWhite(s);
    if t != "" && t[0] == ',' {
      ParseHasNoNul(t[1..]);
    } else if t != "" && !ReadElement(t).last {
      ParseHasNoNul(ReadElement(t).rest);
    }
  }

  // ---- Quoting ----

  // Every character behind a backslash
  function Quote(text: string): string {
    if text == "" then "" else ['\\', text[0]] + Quote(text[1..])
  }

  function Join(list: seq<string>): string
    requires list != []
  {
    if |list| == 1 then Quote(list[0]) else Quote(list[0]) + "," + Join(list[1..])
  }

  // An element read from a quoted text followed by a comma or by nothing.
  lemma {:induction false} ReadQuoted(text: string, rest: string)
    requires rest == "" || rest[0] == ','
    ensures ReadElement(Quote(text) + rest) == Element(text, if rest == "" then "" else rest[1..], rest == "")
    decreases text
  {
    if text == "" {
      assert Quote(text) + rest == rest;
    } else {
      var q := Quote(text) + rest;
      assert q[0] == '\\' && q[1] == text[0] && q[2..] == Quote(text[1..]) + rest;
      ReadQuoted(text[1..], rest);
      assert [text[0]] + text[1..] == text;
    }
  }

  // Quoting any non-empty list of strings and joining it with commas parses back to that list, whatever the strings
  // contain: blanks, commas, backslashes at the end, or nothing at all.
  lemma {:induction false} ParseJoin(list: seq<string>)
    requires list != []
    ensures Parse(Join(list)) == list
    decreases list
  {
    var e := list[0];
    var rest := if |list| == 1 then "" else "," + Join(list[1..]);
    var s := Join(list);
    assert s == Quote(e) + rest;
    ReadQuoted(e, rest);
    if |list| > 1 {
      assert rest[1..] == Join(list[1..]);
      ParseJoin(list[1..]);
      assert list == [e] + list[1..];
      if e == "" {
        assert s == rest;
      }
    } else {
      assert list == [e];
    }
  }
}
