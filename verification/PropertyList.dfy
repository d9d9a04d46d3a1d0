/** The escaping list codec of the system-property accessors: `FormatValue` prints a list of
    optional strings, `DoParseList` reads one back from a NUL-terminated string. */
module PropertyList {
  import opened Common

  const NUL: char := '\0'

  type Element = Option<string>

  ghost predicate NulFree(s: string) {
    NUL !in s
  }

  ghost predicate ListNulFree(v: seq<Element>) {
    forall i :: 0 <= i < |v| && v[i].Some? ==> NulFree(v[i].value)
  }

  // ----- printing

  predicate Special(c: char) {
    c == '\\' || c == ','
  }

  /** `s` with a backslash before every comma and backslash. */
  function Escape(s: string): string {
    if s == "" then ""
    else (if Special(s[0]) then ['\\', s[0]] else [s[0]]) + Escape(s[1..])
  }

  function Printed(e: Element): string {
    if e.Some? then Escape(e.value) else ""
  }

  /** The elements' printed forms, separated by commas. */
  function Format(v: seq<Element>): string {
    if v == [] then ""
    else if |v| == 1 then Printed(v[0])
    else Printed(v[0]) + "," + Format(v[1..])
  }

  // ----- reading

  /** The text of the element of `s` that starts at `r`, unescaped, and where it ends: at the first
      comma that is not escaped, or at the end. A lone backslash at the end is dropped. */
  function Token(s: string, r: nat): (t: (string, nat))
    requires r <= |s|
    ensures r <= t.1 <= |s| && (t.1 < |s| ==> s[t.1] == ',')
    decreases |s| - r
  {
    if r == |s| || s[r] == ',' then ("", r)
    else if s[r] == '\\' then
      if r + 1 == |s| then ("", r + 1)
      else var (rest, n) := Token(s, r + 2); ([s[r + 1]] + rest, n)
    else var (rest, n) := Token(s, r + 1); ([s[r]] + rest, n)
  }

  /** Scalar `DoParse`: the empty string reads as absent. */
  function Scalar(s: string): Element {
    if s == "" then None else Some(s)
  }

  /** The elements of `s` from position `p` on. */
  function ParseFrom(s: string, p: nat): (r: seq<Element>)
    requires p <= |s|
    decreases |s| - p
  {
    var (text, n) := Token(s, p);
    if n == |s| then [Scalar(text)] else [Scalar(text)] + ParseFrom(s, n + 1)
  }

  function Parse(s: string): seq<Element> {
    if s == "" then [] else ParseFrom(s, 0)
  }

  // ----- the imperative forms

  /** The buffer holds the C string `s`: everything before its first NUL. */
  ghost predicate Holds(buf: string, s: string) {
    |s| < |buf| && s == buf[..|s|] && buf[|s|] == NUL && NulFree(s)
  }

  ghost function CString(buf: string): (s: string)
    requires NUL in buf
    ensures Holds(buf, s)
  {
    if buf[0] == NUL then "" else [buf[0]] + CString(buf[1..])
  }

  lemma {:induction false} EscapeSnoc(s: string, c: char)
    ensures Escape(s + [c]) == Escape(s) + (if Special(c) then ['\\', c] else [c])
  {
    if s == "" {
      assert s + [c] == [c] && [c][1..] == "";
    } else {
      assert (s + [c])[1..] == s[1..] + [c];
      EscapeSnoc(s[1..], c);
    }
  }

  lemma {:induction false} FormatSnoc(v: seq<Element>, e: Element)
    ensures Format(v + [e]) == Format(v) + (if v == [] then "" else ",") + Printed(e)
  {
    if v == [] {
      assert v + [e] == [e];
    } else {
      assert (v + [e])[1..] == v[1..] + [e];
      FormatSnoc(v[1..], e);
    }
  }

  method FormatValue(v: seq<Element>) returns (ret: string)
    ensures ret == Format(v)
  {
    if v == [] {
      return "";
    }
    ret := "";
    var first := true;
    for i := 0 to |v|
      invariant first <==> i == 0
      invariant ret == Format(v[..i])
    {
      assert v[..i + 1] == v[..i] + [v[i]];
      FormatSnoc(v[..i], v[i]);
      if !first {
        ret := ret + ",";
      } else {
        first := false;
      }
      ret := AppendElement(ret, v[i]);
    }
    assert v[..|v|] == v;
  }

  /** The body of the printing loop: appends one element, escaped. */
  method AppendElement(ret: string, element: Element) returns (r: string)
    ensures r == ret + Printed(element)
  {
    r := ret;
    if element.Some? {
      var text := element.value;
      for j := 0 to |text|
        invariant r == ret + Escape(text[..j])
      {
        var c := text[j];
        assert text[..j + 1] == text[..j] + [c];
        EscapeSnoc(text[..j], c);
        if c == '\\' || c == ',' {
          r := r + "\\";
        }
        r := r + [c];
      }
      assert text[..|text|] == text;
    }
  }

  /** The inner loop of `DoParseList`: reads the element that starts at `p`, up to `r`. */
  method ReadToken(buf: string, p: nat, ghost s: string) returns (value: string, r: nat)
    requires Holds(buf, s) && p <= |s|
    ensures (value, r) == Token(s, p)
  {
    r := p;
    value := "";
    while buf[r] != ','
      invariant p <= r <= |s|
      invariant value + Token(s, r).0 == Token(s, p).0 && Token(s, r).1 == Token(s, p).1
      decreases |s| - r
    {
      ghost var before := value;
      if buf[r] == '\\' {
        r := r + 1;
      }
      if buf[r] == NUL {
        assert value + "" == value;
        return;
      }
      value := value + [buf[r]];
      r := r + 1;
      assert value + Token(s, r).0 == before + ([s[r - 1]] + Token(s, r).0);
    }
    assert value + "" == value;
  }

  /** One element read and the rest to come. */
  lemma ParseOn(s: string, p: nat, ret: seq<Element>)
    requires p <= |s|
    ensures var (value, r) := Token(s, p);
            ret + ParseFrom(s, p) ==
            if r == |s| then ret + [Scalar(value)] else (ret + [Scalar(value)]) + ParseFrom(s, r + 1)
  {
    var (value, r) := Token(s, p);
    if r != |s| {
      assert ret + ([Scalar(value)] + ParseFrom(s, r + 1)) == (ret + [Scalar(value)]) + ParseFrom(s, r + 1);
    }
  }

  /** Walks `buf` up to its first NUL and never past it. */
  method DoParseList(buf: string, ghost s: string) returns (ret: seq<Element>)
    requires Holds(buf, s)
    ensures ret == Parse(s)
  {
    ret := [];
    if buf[0] == NUL {
      return;
    }
    var p := 0;
    ghost var whole := ParseFrom(s, 0);
    assert ret + whole == whole;
    while true
      invariant 0 <= p <= |s|
      invariant whole == ret + ParseFrom(s, p)
      decreases |s| - p
    {
      ParseOn(s, p, ret);
      var value, r := ReadToken(buf, p, s);
      ret := ret + [if value == "" then None else Some(value)];
      if buf[r] == NUL {
        return;
      }
      p := r + 1;
    }
  }
}
