/** What printing and reading property lists promise each other. */
module PropertyListLaws {
  import opened Common
  import opened PropertyList

  // ----- reading back what was printed

  /** A present-but-empty element prints like an absent one. */
  function Kept(e: Element): Element {
    if e == Some("") then None else e
  }

  /** What a printed list still tells of each element. */
  function Plain(v: seq<Element>): (w: seq<Element>)
    ensures |w| == |v|
    ensures forall i :: 0 <= i < |v| ==> w[i] == Kept(v[i])
  {
    if v == [] then [] else [Kept(v[0])] + Plain(v[1..])
  }

  /** The list that a printed list reads back as. */
  function Canon(v: seq<Element>): seq<Element> {
    if Plain(v) == [None] then [] else Plain(v)
  }

  /** Reading from a position on is reading what follows it. */
  lemma {:induction false} TokenShift(s: string, p: nat, r: nat)
    requires p <= r <= |s|
    ensures Token(s[p..], r - p) == (Token(s, r).0, Token(s, r).1 - p)
    decreases |s| - r
  {
    if r < |s| {
      assert s[p..][r - p] == s[r];
      if s[r] == '\\' && r + 1 < |s| {
        assert s[p..][r + 1 - p] == s[r + 1];
        TokenShift(s, p, r + 2);
      } else if s[r] != '\\' && s[r] != ',' {
        TokenShift(s, p, r + 1);
      }
    }
  }

  lemma {:induction false} ParseShift(s: string, p: nat, r: nat)
    requires p <= r <= |s|
    ensures ParseFrom(s[p..], r - p) == ParseFrom(s, r)
    decreases |s| - r
  {
    TokenShift(s, p, r);
    if Token(s, r).1 < |s| {
      ParseShift(s, p, Token(s, r).1 + 1);
    }
  }

  lemma EscapeCons(text: string)
    requires text != ""
    ensures Escape(text) == (if Special(text[0]) then ['\\', text[0]] else [text[0]]) + Escape(text[1..])
  {
  }

  /** One printed character is read back, whatever follows it. */
  lemma TokenStep(c: char, rest: string)
    ensures var s := (if Special(c) then ['\\', c] else [c]) + rest;
            Token(s, 0) == ([c] + Token(rest, 0).0, |s| - |rest| + Token(rest, 0).1)
  {
    var s := (if Special(c) then ['\\', c] else [c]) + rest;
    var k := |s| - |rest|;
    assert s[0] == (if Special(c) then '\\' else c) && s[k - 1] == c && s[k..] == rest;
    TokenShift(s, k, k);
  }

  /** Reading an escaped text that runs up to a comma or the end gives the text. */
  lemma {:induction false} TokenOfEscaped(text: string, rest: string)
    requires rest == "" || rest[0] == ','
    ensures Token(Escape(text) + rest, 0) == (text, |Escape(text)|)
  {
    if text == "" {
      assert Escape(text) + rest == rest;
    } else {
      var head := if Special(text[0]) then ['\\', text[0]] else [text[0]];
      EscapeCons(text);
      assert Escape(text) + rest == head + (Escape(text[1..]) + rest);
      TokenStep(text[0], Escape(text[1..]) + rest);
      TokenOfEscaped(text[1..], rest);
      assert text == [text[0]] + text[1..];
    }
  }

  /** What follows the first element in print. */
  function AfterFirst(v: seq<Element>): string
    requires v != []
  {
    if |v| == 1 then "" else "," + Format(v[1..])
  }

  /** The characters of an element; an absent one has none. */
  function Text(e: Element): string {
    if e.Some? then e.value else ""
  }

  lemma FormatFirst(v: seq<Element>)
    requires v != []
    ensures Format(v) == Escape(Text(v[0])) + AfterFirst(v)
  {
  }

  lemma PlainCons(v: seq<Element>)
    requires v != []
    ensures Plain(v) == if |v| == 1 then [Kept(v[0])] else [Kept(v[0])] + Plain(v[1..])
  {
    if |v| == 1 {
      assert Plain(v[1..]) == [];
    }
  }

  lemma ParseLast(s: string)
    requires Token(s, 0).1 == |s|
    ensures ParseFrom(s, 0) == [Scalar(Token(s, 0).0)]
  {
  }

  lemma ParseCons(s: string, n: nat)
    requires n < |s| && Token(s, 0).1 == n
    ensures ParseFrom(s, 0) == [Scalar(Token(s, 0).0)] + ParseFrom(s, n + 1)
  {
  }

  lemma ParseNext(s: string, n: nat, tail: string)
    requires n < |s| && Token(s, 0).1 == n && s[n + 1..] == tail
    ensures ParseFrom(s, 0) == [Scalar(Token(s, 0).0)] + ParseFrom(tail, 0)
  {
    ParseCons(s, n);
    ParseShift(s, n + 1, n + 1);
  }

  lemma {:induction false} ParseOfFormatted(v: seq<Element>)
    requires v != []
    ensures ParseFrom(Format(v), 0) == Plain(v)
  {
    var text := Text(v[0]);
    var s := Escape(text) + AfterFirst(v);
    FormatFirst(v);
    TokenOfEscaped(text, AfterFirst(v));
    PlainCons(v);
    if |v| == 1 {
      ParseLast(s);
    } else {
      assert s[|Escape(text)| + 1..] == Format(v[1..]);
      ParseNext(s, |Escape(text)|, Format(v[1..]));
      ParseOfFormatted(v[1..]);
    }
  }

  lemma EscapeEmpty(text: string)
    ensures Escape(text) == "" <==> text == ""
  {
  }

  /** Parsing the whole print normalises the list. */
  lemma PrintParses(v: seq<Element>)
    ensures Parse(Format(v)) == Canon(v)
  {
    if v == [] {
      assert Plain(v) == [];
    } else {
      if |v| == 1 {
        EscapeEmpty(Text(v[0]));
        assert Plain(v) == [Plain(v)[0]];
      }
      ParseOfFormatted(v);
    }
  }

  lemma FormatOfPlain(v: seq<Element>)
    ensures Format(Plain(v)) == Format(v)
  {
    if |v| > 1 {
      assert Plain(v)[1..] == Plain(v[1..]);
      FormatOfPlain(v[1..]);
    }
  }

  /** Two lists print alike exactly when they have the same normal form. */
  lemma FormatCollisions(v: seq<Element>, w: seq<Element>)
    ensures Format(v) == Format(w) <==> Canon(v) == Canon(w)
  {
    PrintParses(v);
    PrintParses(w);
    FormatOfPlain(v);
    FormatOfPlain(w);
  }

  /** With nonempty elements the only collision is the absent singleton with the empty list. */
  lemma OnlyCollision(v: seq<Element>, w: seq<Element>)
    requires forall i :: 0 <= i < |v| ==> v[i] != Some("")
    requires forall i :: 0 <= i < |w| ==> w[i] != Some("")
    ensures Format(v) == Format(w) <==> v == w || (v == [None] && w == []) || (v == [] && w == [None])
  {
    FormatCollisions(v, w);
    assert Plain(v) == v && Plain(w) == w;
  }

  /** Printing keeps lists within C strings. */
  lemma {:induction false} EscapeNulFree(text: string)
    ensures NulFree(Escape(text)) <==> NulFree(text)
    decreases |text|
  {
    if text != "" {
      var head := if Special(text[0]) then ['\\', text[0]] else [text[0]];
      EscapeNulFree(text[1..]);
      assert text == [text[0]] + text[1..];
      assert Escape(text) == head + Escape(text[1..]);
    }
  }

  lemma {:induction false} FormatNulFree(v: seq<Element>)
    ensures NulFree(Format(v)) <==> ListNulFree(v)
    decreases |v|
  {
    if v != [] {
      EscapeNulFree(if v[0].Some? then v[0].value else "");
      if |v| > 1 {
        FormatNulFree(v[1..]);
        assert ListNulFree(v) <==> ListNulFree([v[0]]) && ListNulFree(v[1..]) by {
          assert v == [v[0]] + v[1..];
          assert forall i :: 0 < i < |v| ==> v[i] == v[1..][i - 1];
        }
      }
    }
  }

  // ----- through the C string

  /** `text` up to its first NUL: what is left of it once it is handed over as a C string. */
  ghost function Cut(text: string): (s: string)
    ensures NulFree(s) && |s| <= |text| && s == text[..|s|] && (|s| < |text| ==> text[|s|] == NUL)
  {
    CString(text + [NUL])
  }

  /** What `DoParseList` makes of a printed list. */
  ghost function ReadBack(text: string): seq<Element> {
    Parse(Cut(text))
  }

  /** The list up to its first NUL. */
  ghost function CutList(v: seq<Element>): (w: seq<Element>)
    ensures ListNulFree(w)
    decreases |v|
  {
    if v == [] then []
    else if v[0].Some? && !NulFree(v[0].value) then [Some(Cut(v[0].value))]
    else [v[0]] + CutList(v[1..])
  }

  lemma CutIs(text: string, n: nat)
    requires n <= |text| && NulFree(text[..n]) && (n < |text| ==> text[n] == NUL)
    ensures Cut(text) == text[..n]
  {
    assert forall k :: 0 <= k < n ==> text[k] == text[..n][k];
    assert forall k :: 0 <= k < |Cut(text)| ==> text[k] == Cut(text)[k];
  }

  lemma CutConcat(a: string, b: string)
    ensures Cut(a + b) == if NulFree(a) then a + Cut(b) else Cut(a)
  {
    if NulFree(a) {
      var n := |a| + |Cut(b)|;
      assert (a + b)[..n] == a + Cut(b);
      CutIs(a + b, n);
    } else {
      var n := |Cut(a)|;
      assert a[..|a|] == a;
      assert (a + b)[..n] == a[..n];
      CutIs(a + b, n);
    }
  }

  /** Escaping neither makes nor hides a NUL, so it does not matter whether one cuts before or after it. */
  lemma {:induction false} CutEscape(text: string)
    ensures Cut(Escape(text)) == Escape(Cut(text))
    decreases |text|
  {
    if text != "" {
      var head := if Special(text[0]) then ['\\', text[0]] else [text[0]];
      assert text == [text[0]] + text[1..];
      CutConcat([text[0]], text[1..]);
      CutConcat(head, Escape(text[1..]));
      CutEscape(text[1..]);
      if text[0] == NUL {
        CutIs([NUL], 0);
      } else {
        assert ([text[0]] + Cut(text[1..]))[1..] == Cut(text[1..]);
      }
    }
  }

  lemma CutPrinted(e: Element)
    ensures Cut(Printed(e)) == Printed(if e.Some? then Some(Cut(e.value)) else e)
    ensures NulFree(Printed(e)) <==> (e.Some? ==> NulFree(e.value))
  {
    if e.Some? {
      CutEscape(e.value);
      EscapeNulFree(e.value);
    } else {
      CutIs("", 0);
    }
  }

  lemma FormatCons(e: Element, v: seq<Element>)
    requires v != []
    ensures Format([e] + v) == Printed(e) + ("," + Format(v))
  {
    assert ([e] + v)[1..] == v;
  }

  lemma CutTail(e: Element, rest: string)
    ensures Cut(Printed(e) + ("," + rest)) ==
            if e.Some? && !NulFree(e.value) then Printed(Some(Cut(e.value))) else Printed(e) + ("," + Cut(rest))
  {
    CutPrinted(e);
    CutConcat(Printed(e), "," + rest);
    CutConcat(",", rest);
  }

  /** A list printed into a C string is the print of the cut list. */
  lemma {:induction false} CutFormat(v: seq<Element>)
    ensures Cut(Format(v)) == Format(CutList(v))
    decreases |v|
  {
    if v == [] {
      CutIs("", 0);
    } else if |v| == 1 {
      CutPrinted(v[0]);
      assert CutList(v[1..]) == [];
    } else {
      CutFormat(v[1..]);
      CutTail(v[0], Format(v[1..]));
      FormatCons(v[0], v[1..]);
      FormatCons(v[0], CutList(v[1..]));
      assert v == [v[0]] + v[1..];
    }
  }

  lemma {:induction false} CutListWhole(v: seq<Element>)
    ensures ListNulFree(v) <==> CutList(v) == v
    decreases |v|
  {
    if v != [] {
      assert v == [v[0]] + v[1..];
      if v[0].Some? && !NulFree(v[0].value) {
        assert CutList(v)[0] != v[0];
      } else {
        CutListWhole(v[1..]);
        assert ListNulFree(v) <==> ListNulFree(v[1..]) by {
          assert forall i :: 0 < i < |v| ==> v[i] == v[1..][i - 1];
        }
      }
    }
  }

  /** Printing a list and reading it back gives the normal form of the list up to its first NUL. */
  lemma FormatThenParse(v: seq<Element>)
    ensures ReadBack(Format(v)) == Canon(CutList(v))
    ensures ListNulFree(v) ==> ReadBack(Format(v)) == Canon(v)
  {
    CutFormat(v);
    CutListWhole(v);
    PrintParses(CutList(v));
  }

  lemma CanonNulFree(v: seq<Element>)
    requires ListNulFree(v)
    ensures ListNulFree(Canon(v))
  {
  }

  /** The round trip returns the list itself exactly when it holds no NUL, no present element is empty, and
      it is not the one-element list of an absent element. */
  lemma RoundTripExactly(v: seq<Element>)
    ensures ReadBack(Format(v)) == v <==>
              ListNulFree(v) && (forall i :: 0 <= i < |v| ==> v[i] != Some("")) && v != [None]
  {
    FormatThenParse(v);
    CanonNulFree(CutList(v));
  }

  /** The two routines one after the other. */
  method Reread(v: seq<Element>) returns (w: seq<Element>)
    ensures w == ReadBack(Format(v))
  {
    var text := FormatValue(v);
    w := DoParseList(text + [NUL], Cut(text));
  }

  // ----- printing back what was read

  /** Reading never produces a present empty element, nor a NUL out of a C string. */
  lemma {:induction false} ParsedElements(s: string, p: nat)
    requires p <= |s|
    ensures forall i :: 0 <= i < |ParseFrom(s, p)| ==> ParseFrom(s, p)[i] != Some("")
    ensures NulFree(s) ==> ListNulFree(ParseFrom(s, p))
    decreases |s| - p
  {
    var n := Token(s, p).1;
    TokenNulFree(s, p);
    if n < |s| {
      ParsedElements(s, n + 1);
    }
  }

  lemma {:induction false} TokenNulFree(s: string, r: nat)
    requires r <= |s|
    ensures NulFree(s) ==> NulFree(Token(s, r).0)
    decreases |s| - r
  {
    if r < |s| && s[r] != ',' {
      if s[r] != '\\' {
        TokenNulFree(s, r + 1);
      } else if r + 1 < |s| {
        TokenNulFree(s, r + 2);
      }
    }
  }

  /** Only a lone backslash reads as one absent element. */
  lemma LoneBackslash(s: string)
    ensures Parse(s) == [None] <==> s == "\\"
  {
    if s != "" && s[0] == ',' {
      assert |ParseFrom(s, 0)| >= 2;
    }
    if s == "\\" {
      assert Token(s, 0) == ("", 1);
    } else if s != "" && s[0] == '\\' {
      assert |s| > 1;
    }
  }

  /** Any C string, read and printed and read again, gives the same list, unless it is a lone backslash. */
  lemma ReadPrintRead(buf: string)
    requires NUL in buf
    ensures var s := CString(buf); ReadBack(Format(Parse(s))) == Parse(s) <==> s != "\\"
  {
    var s := CString(buf);
    if s != "" {
      ParsedElements(s, 0);
    }
    RoundTripExactly(Parse(s));
    LoneBackslash(s);
  }

  // ----- how many elements a string has

  /** Length of the run of backslashes that ends just before position `i`. */
  function RunBefore(s: string, i: nat): nat
    requires i <= |s|
  {
    if i == 0 || s[i - 1] != '\\' then 0 else 1 + RunBefore(s, i - 1)
  }

  predicate Separator(s: string, i: nat)
    requires i < |s|
  {
    s[i] == ',' && RunBefore(s, i) % 2 == 0
  }

  /** The number of unescaped commas from position `i` on. */
  function Separators(s: string, i: nat): nat
    requires i <= |s|
    decreases |s| - i
  {
    if i == |s| then 0 else (if Separator(s, i) then 1 else 0) + Separators(s, i + 1)
  }

  lemma {:induction false} TokenEndsAtSeparator(s: string, r: nat)
    requires r <= |s| && RunBefore(s, r) % 2 == 0
    ensures var n := Token(s, r).1;
            && Separators(s, r) == Separators(s, n)
            && (n < |s| ==> Separator(s, n) && RunBefore(s, n + 1) == 0)
    decreases |s| - r
  {
    if r < |s| && s[r] != ',' {
      if s[r] != '\\' {
        TokenEndsAtSeparator(s, r + 1);
      } else if r + 1 < |s| {
        assert RunBefore(s, r + 1) == RunBefore(s, r) + 1;
        assert !Separator(s, r) && !Separator(s, r + 1);
        TokenEndsAtSeparator(s, r + 2);
      }
    }
  }

  lemma {:induction false} ParsedLength(s: string, p: nat)
    requires p <= |s| && RunBefore(s, p) % 2 == 0
    ensures |ParseFrom(s, p)| == 1 + Separators(s, p)
    decreases |s| - p
  {
    TokenEndsAtSeparator(s, p);
    var n := Token(s, p).1;
    if n < |s| {
      ParsedLength(s, n + 1);
    }
  }

  /** A nonempty string has one more element than it has unescaped commas. */
  lemma ElementCount(s: string)
    ensures |Parse(s)| == if s == "" then 0 else 1 + Separators(s, 0)
  {
    if s != "" {
      ParsedLength(s, 0);
    }
  }
}
