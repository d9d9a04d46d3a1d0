/** What the printer writes and the parser reads, character by character. */
module PropertyListSpelling {
  import opened Common
  import opened PropertyList
  import opened PropertyListLaws

  // ----- what is printed

  predicate Mark(c: char) {
    c == ',' || c == '\\'
  }

  /** How many commas and backslashes a text holds. */
  function Marks(s: string): nat {
    if s == "" then 0 else (if Mark(s[0]) then 1 else 0) + Marks(s[1..])
  }

  lemma {:induction false} MarksUpTo(s: string, i: nat)
    requires 0 < i <= |s|
    ensures Marks(s[..i]) == Marks(s[..1]) + Marks(s[1..][..i - 1])
  {
    assert s[..i][1..] == s[1..][..i - 1] && s[..1][1..] == "";
  }

  /** Where character `i` of a text is printed. */
  function At(s: string, i: nat): nat
    requires i <= |s|
  {
    i + Marks(s[..i])
  }

  lemma PrintsAfter(s: string, i: nat, head: string, rest: string)
    requires 0 < i < |s| && At(s, i) == |head| + At(s[1..], i - 1) && PrintsAt(s[1..], rest, i - 1)
    ensures PrintsAt(s, head + rest, i)
  {
  }

  lemma {:induction false} EscapeSpelled(s: string, i: nat)
    requires i <= |s|
    ensures |Escape(s)| == |s| + Marks(s) && At(s, i) <= |Escape(s)|
    ensures i < |s| ==> PrintsAt(s, Escape(s), i)
    decreases |s|
  {
    if s != "" {
      var head := if Special(s[0]) then ['\\', s[0]] else [s[0]];
      EscapeCons(s);
      assert s[..0] == "";
      if i == 0 {
        EscapeSpelled(s[1..], 0);
        assert s[1..][..0] == "";
      } else {
        EscapeSpelled(s[1..], i - 1);
        MarksUpTo(s, i);
        assert s[..1][1..] == "";
        assert At(s, i) == |head| + At(s[1..], i - 1);
        if i < |s| {
          PrintsAfter(s, i, head, Escape(s[1..]));
        }
      }
    }
  }

  /** Character `i` of the text stands in its print, after a backslash if it is a comma or a backslash. */
  predicate PrintsAt(text: string, out: string, i: nat)
    requires i < |text|
  {
    var at := At(text, i);
    if Mark(text[i]) then at + 1 < |out| && out[at] == '\\' && out[at + 1] == text[i]
    else at < |out| && out[at] == text[i]
  }

  /** The print of one element: nothing for an absent one; otherwise its characters in order, a backslash
      before each comma and backslash, and nothing else. */
  lemma PrintedSpelled(e: Element)
    ensures e.None? ==> Printed(e) == ""
    ensures e.Some? ==> |Printed(e)| == |e.value| + Marks(e.value)
    ensures e.Some? ==> forall i :: 0 <= i < |e.value| ==> PrintsAt(e.value, Printed(e), i)
  {
    if e.Some? {
      EscapeSpelled(e.value, 0);
      forall i | 0 <= i < |e.value| ensures PrintsAt(e.value, Printed(e), i) {
        EscapeSpelled(e.value, i);
      }
    }
  }

  /** A text without commas and backslashes prints as itself. */
  lemma {:induction false} PlainText(s: string)
    requires ',' !in s && '\\' !in s
    ensures Printed(Some(s)) == s
  {
    if s != "" {
      assert s == [s[0]] + s[1..];
      PlainText(s[1..]);
    }
  }

  /** Where text `i` stands when texts are written one after the other with one comma between two. */
  function Offset(xs: seq<string>, i: nat): nat
    requires i <= |xs|
  {
    if i == 0 then 0 else Offset(xs, i - 1) + |xs[i - 1]| + 1
  }

  lemma {:induction false} OffsetTail(xs: seq<string>, i: nat)
    requires 0 < i <= |xs|
    ensures Offset(xs, i) == |xs[0]| + 1 + Offset(xs[1..], i - 1)
    decreases i
  {
    if i > 1 {
      OffsetTail(xs, i - 1);
    }
  }

  /** `x` stands at `from`, before a comma or at the end. */
  predicate LaidOut(out: string, from: nat, x: string, last: bool) {
    && from + |x| <= |out| && out[from..from + |x|] == x
    && if last then from + |x| == |out| else from + |x| < |out| && out[from + |x|] == ','
  }

  lemma LaidAfter(head: string, rest: string, from: nat, x: string, last: bool)
    requires LaidOut(rest, from, x, last)
    ensures LaidOut(head + rest, |head| + from, x, last)
  {
    var n := |head| + from;
    assert (head + rest)[n..n + |x|] == rest[from..from + |x|];
  }

  lemma FirstLaid(x: string, rest: string)
    ensures LaidOut(x + "," + rest, 0, x, false) && LaidOut(x, 0, x, true)
  {
  }

  /** All the texts stand where they should, and nothing else. */
  ghost predicate AllLaid(out: string, xs: seq<string>) {
    forall i :: 0 <= i < |xs| ==> LaidOut(out, Offset(xs, i), xs[i], i == |xs| - 1)
  }

  lemma LaidCons(x: string, rest: string, xs: seq<string>, i: nat)
    requires i < |xs| && LaidOut(rest, Offset(xs, i), xs[i], i == |xs| - 1)
    ensures LaidOut((x + ",") + rest, Offset([x] + xs, i + 1), xs[i], i == |xs| - 1)
  {
    OffsetTail([x] + xs, i + 1);
    assert ([x] + xs)[1..] == xs;
    LaidAfter(x + ",", rest, Offset(xs, i), xs[i], i == |xs| - 1);
  }

  lemma AllLaidCons(x: string, rest: string, xs: seq<string>)
    requires xs != [] && AllLaid(rest, xs)
    ensures AllLaid((x + ",") + rest, [x] + xs)
  {
    var ys := [x] + xs;
    FirstLaid(x, rest);
    forall i | 0 <= i < |xs| ensures LaidOut((x + ",") + rest, Offset(ys, i + 1), xs[i], i == |xs| - 1) {
      LaidCons(x, rest, xs, i);
    }
    forall i | 0 < i < |ys| ensures LaidOut((x + ",") + rest, Offset(ys, i), ys[i], i == |ys| - 1) {
      assert ys[i] == xs[i - 1] && Offset(ys, i) == Offset(ys, (i - 1) + 1);
    }
  }

  /** The prints of the elements. */
  function Prints(v: seq<Element>): (r: seq<string>)
    ensures |r| == |v| && forall i :: 0 <= i < |v| ==> r[i] == Printed(v[i])
  {
    if v == [] then [] else [Printed(v[0])] + Prints(v[1..])
  }

  /** A list prints as its elements in order with a comma after each but the last. */
  lemma {:induction false} FormatSpelled(v: seq<Element>)
    ensures v == [] ==> Format(v) == ""
    ensures AllLaid(Format(v), Prints(v))
    decreases |v|
  {
    if |v| == 1 {
      FirstLaid(Printed(v[0]), "");
    } else if |v| > 1 {
      FormatSpelled(v[1..]);
      AllLaidCons(Printed(v[0]), Format(v[1..]), Prints(v[1..]));
    }
  }

  // ----- what is read

  /** A backslash that is not itself escaped. */
  predicate Escaper(s: string, i: nat)
    requires i < |s|
  {
    s[i] == '\\' && RunBefore(s, i) % 2 == 0
  }

  /** The characters from `p` to `n` without the escaping backslashes. */
  function Unescaped(s: string, p: nat, n: nat): string
    requires p <= n <= |s|
    decreases n - p
  {
    if p == n then "" else (if Escaper(s, p) then "" else [s[p]]) + Unescaped(s, p + 1, n)
  }

  /** A token runs up to the next separator and reads as its characters without the escaping backslashes. */
  lemma {:induction false} TokenSpelled(s: string, r: nat)
    requires r <= |s| && RunBefore(s, r) % 2 == 0
    ensures var (text, n) := Token(s, r);
            && text == Unescaped(s, r, n)
            && (forall i :: r <= i < n ==> !Separator(s, i))
            && (n < |s| ==> Separator(s, n))
    decreases |s| - r
  {
    if r < |s| && s[r] != ',' {
      assert !Separator(s, r);
      if s[r] != '\\' {
        TokenSpelled(s, r + 1);
      } else if r + 1 < |s| {
        assert RunBefore(s, r + 1) == RunBefore(s, r) + 1;
        assert !Separator(s, r + 1) && !Escaper(s, r + 1);
        TokenSpelled(s, r + 2);
        UnescapedPair(s, r, Token(s, r + 2).1);
      } else {
        assert Unescaped(s, r + 1, r + 1) == "";
      }
    }
  }

  lemma UnescapedPair(s: string, r: nat, n: nat)
    requires r + 2 <= n <= |s| && Escaper(s, r) && !Escaper(s, r + 1)
    ensures Unescaped(s, r, n) == [s[r + 1]] + Unescaped(s, r + 2, n)
  {
    assert Unescaped(s, r + 1, n) == [s[r + 1]] + Unescaped(s, r + 2, n);
  }

  function TextRead(s: string, p: nat, n: nat): Element
    requires p <= n <= |s|
  {
    if Unescaped(s, p, n) == "" then None else Some(Unescaped(s, p, n))
  }

  /** The element is what stands between two separators, or the ends of the string. */
  ghost predicate ElementAt(s: string, from: nat, to: nat, x: Element) {
    && from <= to <= |s| && (to < |s| ==> Separator(s, to))
    && (forall i :: from <= i < to ==> !Separator(s, i))
    && x == TextRead(s, from, to)
  }

  /** The elements read from position `p` on, and where each ends. */
  ghost predicate Spelled(s: string, p: nat, v: seq<Element>, ends: seq<nat>)
    decreases |v|
  {
    && |ends| == |v| > 0 && ElementAt(s, p, ends[0], v[0])
    && if |v| == 1 then ends[0] == |s| else ends[0] < |s| && Spelled(s, ends[0] + 1, v[1..], ends[1..])
  }

  lemma SpelledOn(s: string, p: nat, n: nat, x: Element, v: seq<Element>, ends: seq<nat>)
    requires n < |s| && ElementAt(s, p, n, x) && Spelled(s, n + 1, v, ends)
    ensures Spelled(s, p, [x] + v, [n] + ends)
  {
    assert ([x] + v)[1..] == v && ([n] + ends)[1..] == ends;
  }

  lemma {:induction false} ParseFromSpelled(s: string, p: nat) returns (ends: seq<nat>)
    requires p <= |s| && RunBefore(s, p) % 2 == 0
    ensures Spelled(s, p, ParseFrom(s, p), ends)
    decreases |s| - p
  {
    var (text, n) := Token(s, p);
    TokenSpelled(s, p);
    if n == |s| {
      ends := [n];
    } else {
      ends := ParseFromSpelled(s, n + 1);
      SpelledOn(s, p, n, Scalar(text), ParseFrom(s, n + 1), ends);
      ends := [n] + ends;
    }
  }

  /** A nonempty string reads as the texts between its unescaped commas, in order and without the escaping
      backslashes, an empty text as an absent element. */
  lemma ParseSpelled(s: string) returns (ends: seq<nat>)
    ensures s == "" ==> Parse(s) == []
    ensures s != "" ==> Spelled(s, 0, Parse(s), ends)
  {
    if s == "" {
      ends := [];
    } else {
      ends := ParseFromSpelled(s, 0);
    }
  }
}
