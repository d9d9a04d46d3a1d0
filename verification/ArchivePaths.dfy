/** Where the installer unpacks an archive entry: `stripFirst`, then `sanitize`, over a
    component-stack model of Go's lexical path cleaning. */
module ArchivePaths {
  import opened Common

  // ----- paths as strings and as components

  function Split(s: string): (r: seq<string>)
    ensures |r| >= 1 && forall i :: 0 <= i < |r| ==> '/' !in r[i]
  {
    if s == "" then [""]
    else if s[0] == '/' then [""] + Split(s[1..])
    else var r := Split(s[1..]); [[s[0]] + r[0]] + r[1..]
  }

  function Join(cs: seq<string>): string {
    if cs == [] then ""
    else if |cs| == 1 then cs[0]
    else cs[0] + "/" + Join(cs[1..])
  }

  /** A component that names something in a directory. */
  predicate Plain(c: string) {
    c != "" && c != "." && c != ".." && '/' !in c
  }

  predicate AllPlain(cs: seq<string>) {
    forall i :: 0 <= i < |cs| ==> Plain(cs[i])
  }

  /** The absolute path with these components. */
  function Abs(cs: seq<string>): string {
    "/" + Join(cs)
  }

  lemma {:induction false} SplitConcat(a: string, b: string)
    ensures Split(a + "/" + b) == Split(a) + Split(b)
    decreases |a|
  {
    if a == "" {
      assert (a + "/" + b)[1..] == b;
    } else {
      assert (a + "/" + b)[1..] == a[1..] + "/" + b;
      SplitConcat(a[1..], b);
    }
  }

  lemma {:induction false} SplitWord(c: string)
    requires '/' !in c
    ensures Split(c) == [c]
    decreases |c|
  {
    if c != "" {
      SplitWord(c[1..]);
      assert [c[0]] + c[1..] == c;
    }
  }

  lemma {:induction false} SplitJoin(cs: seq<string>)
    requires cs != [] && forall i :: 0 <= i < |cs| ==> '/' !in cs[i]
    ensures Split(Join(cs)) == cs
    decreases |cs|
  {
    SplitWord(cs[0]);
    if |cs| > 1 {
      SplitConcat(cs[0], Join(cs[1..]));
      SplitJoin(cs[1..]);
    }
  }

  lemma {:induction false} JoinSplit(s: string)
    ensures Join(Split(s)) == s
    decreases |s|
  {
    if s != "" {
      JoinSplit(s[1..]);
      var r := Split(s[1..]);
      if s[0] != '/' && |r| > 1 {
        assert ([[s[0]] + r[0]] + r[1..])[1..] == r[1..];
      }
    }
  }

  // ----- filepath.Clean and filepath.Join

  predicate IsAbs(s: string) {
    s != "" && s[0] == '/'
  }

  function Push(stack: seq<string>, c: string, rooted: bool): seq<string> {
    if c == "" || c == "." then stack
    else if c != ".." then stack + [c]
    else if stack != [] && stack[|stack| - 1] != ".." then stack[..|stack| - 1]
    else if rooted then stack
    else stack + [".."]
  }

  function PushAll(stack: seq<string>, cs: seq<string>, rooted: bool): seq<string>
    decreases |cs|
  {
    if cs == [] then stack else PushAll(Push(stack, cs[0], rooted), cs[1..], rooted)
  }

  function Stack(s: string): seq<string> {
    PushAll([], Split(s), IsAbs(s))
  }

  function Clean(s: string): string {
    if IsAbs(s) then Abs(Stack(s))
    else if Stack(s) == [] then "."
    else Join(Stack(s))
  }

  // filepath.Join of two nonempty elements
  function PathJoin(a: string, b: string): string {
    Clean(a + "/" + b)
  }

  predicate HasPrefix(s: string, p: string) {
    |p| <= |s| && s[..|p|] == p
  }

  function Sanitize(dest: string, name: string): Option<string> {
    var clean := Clean(name);
    if HasPrefix(clean, "..") || IsAbs(clean) then None else Some(PathJoin(dest, clean))
  }

  // ----- what is accepted

  /** Some ".."s at the front, plain components after them; none at the front if rooted. */
  ghost predicate StackShape(stack: seq<string>, rooted: bool, ups: int) {
    && 0 <= ups <= |stack| && (rooted ==> ups == 0)
    && (forall i :: 0 <= i < ups ==> stack[i] == "..")
    && (forall i :: ups <= i < |stack| ==> Plain(stack[i]))
  }

  /** Depth below the start after walking `cs`, counted without looking at names. */
  function Depth(cs: seq<string>): int
    decreases |cs|
  {
    if cs == [] then 0
    else
      var c := cs[|cs| - 1];
      Depth(cs[..|cs| - 1]) + (if c == "" || c == "." then 0 else if c == ".." then -1 else 1)
  }

  /** Some prefix of the walk is above where it started. */
  ghost predicate Escapes(cs: seq<string>) {
    exists n :: 0 <= n <= |cs| && Depth(cs[..n]) < 0
  }

  lemma {:induction false} PushAllSnoc(stack: seq<string>, cs: seq<string>, c: string, rooted: bool)
    ensures PushAll(stack, cs + [c], rooted) == Push(PushAll(stack, cs, rooted), c, rooted)
    decreases |cs|
  {
    if cs == [] {
      assert cs + [c] == [c];
    } else {
      assert (cs + [c])[1..] == cs[1..] + [c];
      PushAllSnoc(Push(stack, cs[0], rooted), cs[1..], c, rooted);
    }
  }

  /** The lowest point of the walk. */
  function Lowest(cs: seq<string>): int
    decreases |cs|
  {
    if cs == [] then 0 else Min(Lowest(cs[..|cs| - 1]), Depth(cs))
  }

  lemma {:induction false} LowestEscapes(cs: seq<string>)
    ensures Lowest(cs) <= 0 && Lowest(cs) <= Depth(cs)
    ensures Lowest(cs) < 0 <==> Escapes(cs)
    decreases |cs|
  {
    if cs == [] {
      assert cs[..0] == [];
    } else {
      var front := cs[..|cs| - 1];
      LowestEscapes(front);
      assert cs[..|cs|] == cs;
      assert forall n :: 0 <= n <= |front| ==> front[..n] == cs[..n];
    }
  }

  /** An unrooted stack holds one ".." for each level the walk went above its start. */
  lemma {:induction false} StackCounts(cs: seq<string>)
    requires forall i :: 0 <= i < |cs| ==> '/' !in cs[i]
    ensures var stack := PushAll([], cs, false);
            StackShape(stack, false, -Lowest(cs)) && Depth(cs) == |stack| + 2 * Lowest(cs)
    decreases |cs|
  {
    LowestEscapes(cs);
    if cs != [] {
      var front, c := cs[..|cs| - 1], cs[|cs| - 1];
      assert cs == front + [c];
      StackCounts(front);
      LowestEscapes(front);
      PushAllSnoc([], front, c, false);
    }
  }

  lemma {:induction false} RootedShape(stack: seq<string>, cs: seq<string>)
    requires AllPlain(stack) && forall i :: 0 <= i < |cs| ==> '/' !in cs[i]
    ensures AllPlain(PushAll(stack, cs, true))
    decreases |cs|
  {
    if cs != [] {
      RootedShape(Push(stack, cs[0], true), cs[1..]);
    }
  }

  lemma JoinFirst(cs: seq<string>)
    requires cs != [] && cs[0] != "" && cs[0] != "."
    ensures HasPrefix(Join(cs), "..") <==> HasPrefix(cs[0], "..")
    ensures IsAbs(Join(cs)) <==> IsAbs(cs[0])
  {
    var s := Join(cs);
    assert s[..|cs[0]|] == cs[0];
    if |cs[0]| >= 2 {
      assert s[..2] == cs[0][..2];
    } else {
      assert cs[0] == [s[0]] && s[0] != '.';
      assert |s| >= 2 ==> s[..2][0] == s[0];
    }
  }

  /** A name is refused exactly when it is absolute, or walks above its start, or is, once cleaned,
      inside something whose name begins with two dots. */
  lemma RefusedExactly(dest: string, name: string)
    ensures Sanitize(dest, name).None? <==>
              || IsAbs(name)
              || Escapes(Split(name))
              || (Stack(name) != [] && HasPrefix(Stack(name)[0], ".."))
  {
    var stack := Stack(name);
    if !IsAbs(name) {
      StackCounts(Split(name));
      LowestEscapes(Split(name));
      if stack != [] {
        JoinFirst(stack);
        assert Escapes(Split(name)) ==> stack[0] == "..";
        assert '/' !in stack[0];
      }
    }
  }

  // ----- where accepted names go

  lemma {:induction false} PushAllConcat(stack: seq<string>, a: seq<string>, b: seq<string>, rooted: bool)
    ensures PushAll(stack, a + b, rooted) == PushAll(PushAll(stack, a, rooted), b, rooted)
    decreases |a|
  {
    if a == [] {
      assert a + b == b;
    } else {
      assert (a + b)[1..] == a[1..] + b;
      PushAllConcat(Push(stack, a[0], rooted), a[1..], b, rooted);
    }
  }

  lemma {:induction false} PushPlain(stack: seq<string>, cs: seq<string>, rooted: bool)
    requires AllPlain(cs)
    ensures PushAll(stack, cs, rooted) == stack + cs
    decreases |cs|
  {
    if cs != [] {
      PushPlain(stack + [cs[0]], cs[1..], rooted);
      assert stack + [cs[0]] + cs[1..] == stack + cs;
    }
  }

  /** The rules of cleaning: empty and "." components go, a name and the ".." after it go, and so does a ".." at
      the root, wherever they stand. */
  lemma CleanRules(a: seq<string>, b: seq<string>, c: string, rooted: bool)
    ensures PushAll([], a + [""] + b, rooted) == PushAll([], a + b, rooted)
    ensures PushAll([], a + ["."] + b, rooted) == PushAll([], a + b, rooted)
    ensures Plain(c) ==> PushAll([], a + [c, ".."] + b, rooted) == PushAll([], a + b, rooted)
    ensures PushAll([], [".."] + b, true) == PushAll([], b, true)
  {
    var stack := PushAll([], a, rooted);
    assert PushAll(stack, [""], rooted) == stack;
    assert PushAll(stack, ["."], rooted) == stack;
    NothingBetween(a, [""], b, rooted);
    NothingBetween(a, ["."], b, rooted);
    if Plain(c) {
      PushBack(stack, c, rooted);
      NothingBetween(a, [c, ".."], b, rooted);
    }
    assert Push([], "..", true) == [];
    assert ([".."] + b)[0] == ".." && ([".."] + b)[1..] == b;
  }

  lemma NothingBetween(a: seq<string>, cs: seq<string>, b: seq<string>, rooted: bool)
    requires PushAll(PushAll([], a, rooted), cs, rooted) == PushAll([], a, rooted)
    ensures PushAll([], a + cs + b, rooted) == PushAll([], a + b, rooted)
  {
    PushAllConcat([], a + cs, b, rooted);
    PushAllConcat([], a, cs, rooted);
    PushAllConcat([], a, b, rooted);
  }

  lemma PushBack(stack: seq<string>, c: string, rooted: bool)
    requires Plain(c)
    ensures PushAll(stack, [c, ".."], rooted) == stack
  {
    assert Push(stack, c, rooted) == stack + [c];
    assert (stack + [c])[..|stack|] == stack;
    assert Push(stack + [c], "..", rooted) == stack;
    assert PushAll(stack + [c], [".."], rooted) == PushAll(stack, [], rooted);
    assert [c, ".."][1..] == [".."];
  }

  /** What the rules leave alone: names, and in a relative path ".."s before them. */
  lemma {:induction false} CleanNormal(ups: seq<string>, cs: seq<string>)
    requires AllPlain(cs) && forall i :: 0 <= i < |ups| ==> ups[i] == ".."
    ensures PushAll([], cs, true) == cs
    ensures PushAll([], ups + cs, false) == ups + cs
  {
    PushPlain([], cs, true);
    assert [] + cs == cs && [] + ups == ups;
    PushUps([], ups);
    PushAllConcat([], ups, cs, false);
    PushPlain(ups, cs, false);
  }

  lemma {:induction false} PushUps(stack: seq<string>, ups: seq<string>)
    requires forall i :: 0 <= i < |stack| ==> stack[i] == ".."
    requires forall i :: 0 <= i < |ups| ==> ups[i] == ".."
    ensures PushAll(stack, ups, false) == stack + ups
    decreases |ups|
  {
    if ups != [] {
      PushUps(stack + [".."], ups[1..]);
      assert stack + [".."] + ups[1..] == stack + ups;
    }
  }

  lemma SplitAbs(cs: seq<string>)
    requires AllPlain(cs)
    ensures Split(Abs(cs)) == [""] + (if cs == [] then [""] else cs)
  {
    assert Abs(cs)[1..] == Join(cs);
    if cs != [] {
      SplitJoin(cs);
    }
  }

  lemma PushTop(dest: seq<string>)
    requires AllPlain(dest)
    ensures PushAll([], Split(Abs(dest)), true) == dest
  {
    SplitAbs(dest);
    var rest := if dest == [] then [""] else dest;
    PushAllConcat([], [""], rest, true);
    PushEmpty([]);
    if dest != [] {
      PushPlain([], dest, true);
      assert [] + dest == dest;
    }
  }

  lemma PushEmpty(stack: seq<string>)
    ensures PushAll(stack, [""], true) == stack
  {
  }

  lemma PushRest(dest: seq<string>, q: seq<string>)
    requires AllPlain(q)
    ensures PushAll(dest, Split(if q == [] then "." else Join(q)), true) == dest + q
  {
    SplitWord(".");
    if q != [] {
      SplitJoin(q);
    }
    PushPlain(dest, q, true);
    assert PushAll(dest, ["."], true) == dest;
  }

  lemma JoinedPath(dest: seq<string>, q: seq<string>)
    requires AllPlain(dest) && AllPlain(q)
    ensures PathJoin(Abs(dest), if q == [] then "." else Join(q)) == Abs(dest + q)
  {
    var clean := if q == [] then "." else Join(q);
    SplitConcat(Abs(dest), clean);
    PushAllConcat([], Split(Abs(dest)), Split(clean), true);
    PushTop(dest);
    PushRest(dest, q);
  }

  /** An accepted name lands at `dest` followed by plain components, which do not depend on `dest`:
      inside `dest`, with nothing left to resolve. */
  lemma AcceptedIsContained(dest: seq<string>, name: string)
    requires AllPlain(dest) && Sanitize(Abs(dest), name).Some?
    ensures AllPlain(Stack(name)) && Sanitize(Abs(dest), name) == Some(Abs(dest + Stack(name)))
  {
    RefusedExactly(Abs(dest), name);
    StackCounts(Split(name));
    LowestEscapes(Split(name));
    JoinedPath(dest, Stack(name));
  }

  // ----- stripFirst

  function StripDots(name: string): string {
    if HasPrefix(name, "./") then StripDots(name[2..]) else name
  }

  function IndexOfSlash(s: string, i: nat): (r: Option<nat>)
    requires i <= |s|
    ensures r.Some? ==> i <= r.value < |s| && s[r.value] == '/'
    decreases |s| - i
  {
    if i == |s| then None else if s[i] == '/' then Some(i) else IndexOfSlash(s, i + 1)
  }

  method StripFirst(name: string) returns (rest: string, ok: bool)
    ensures (if ok then Some(rest) else None) == Stripped(name)
  {
    var n := name;
    while |n| >= 2 && n[..2] == "./"
      invariant StripDots(n) == StripDots(name)
      decreases |n|
    {
      n := n[2..];
    }
    var i := IndexOfSlash(n, 0);
    if i.Some? {
      return n[i.value + 1..], true;
    }
    return "", false;
  }

  function Stripped(name: string): Option<string> {
    var n := StripDots(name);
    var i := IndexOfSlash(n, 0);
    if i.Some? then Some(n[i.value + 1..]) else None
  }

  /** The number of leading "." components that are followed by something. */
  function LeadingDots(cs: seq<string>): (n: nat)
    ensures n < |cs| || cs == []
  {
    if |cs| >= 2 && cs[0] == "." then 1 + LeadingDots(cs[1..]) else 0
  }

  lemma {:induction false} SlashSplits(s: string, i: nat)
    requires i <= |s| && '/' !in s[..i]
    ensures var r := IndexOfSlash(s, i);
            if r.None? then '/' !in s else '/' !in s[..r.value]
    decreases |s| - i
  {
    if i < |s| && s[i] != '/' {
      assert s[..i + 1] == s[..i] + [s[i]];
      SlashSplits(s, i + 1);
    } else if i == |s| {
      assert s[..i] == s;
    }
  }

  lemma {:induction false} DotsSplit(name: string)
    ensures Split(StripDots(name)) == Split(name)[LeadingDots(Split(name))..]
    decreases |name|
  {
    if HasPrefix(name, "./") {
      var rest := name[2..];
      assert name == "." + "/" + rest;
      SplitConcat(".", rest);
      SplitWord(".");
      DotsSplit(rest);
      assert Split(name) == ["."] + Split(rest);
    } else if |Split(name)| >= 2 && Split(name)[0] == "." {
      DotPrefix(name);
    }
  }

  lemma DotPrefix(name: string)
    requires |Split(name)| >= 2 && Split(name)[0] == "."
    ensures HasPrefix(name, "./")
  {
    JoinSplit(name);
    assert name == "." + "/" + Join(Split(name)[1..]);
  }

  /** The first component ends at the first slash. */
  lemma SplitFirst(s: string)
    ensures var r := IndexOfSlash(s, 0);
            Split(s) == if r.None? then [s] else [s[..r.value]] + Split(s[r.value + 1..])
  {
    var r := IndexOfSlash(s, 0);
    assert s[..0] == "";
    SlashSplits(s, 0);
    if r.None? {
      SplitWord(s);
    } else {
      var first, rest := s[..r.value], s[r.value + 1..];
      assert s == first + "/" + rest;
      SplitConcat(first, rest);
      SplitWord(first);
    }
  }

  lemma DropOne(cs: seq<string>, n: nat, first: string, rest: seq<string>)
    requires n <= |cs| && cs[n..] == [first] + rest
    ensures |cs| == n + 1 + |rest| && cs[n + 1..] == rest
  {
    assert cs[n + 1..] == cs[n..][1..];
  }

  /** `stripFirst` drops the leading "." components and then one more, and fails when none is left. */
  lemma StripFirstComponents(name: string)
    ensures var cs := Split(name);
            var n := LeadingDots(cs);
            if |cs| == n + 1 then Stripped(name) == None
            else Stripped(name).Some? && Split(Stripped(name).value) == cs[n + 1..]
  {
    var s, cs := StripDots(name), Split(name);
    DotsSplit(name);
    SplitFirst(s);
    var r := IndexOfSlash(s, 0);
    if r.None? {
      DropOne(cs, LeadingDots(cs), s, []);
    } else {
      DropOne(cs, LeadingDots(cs), s[..r.value], Split(s[r.value + 1..]));
    }
  }
}
