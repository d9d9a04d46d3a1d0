/** `hasmntopt`: a substring search that must agree with looking through the options one by one. */
module MountOptions {
  import opened Common

  /** `opt` occurs in `s` at `p`. */
  predicate Occurs(s: string, opt: string, p: nat) {
    p + |opt| <= |s| && s[p..p + |opt|] == opt
  }

  /** `strstr` from `from` on: the first occurrence, or None. */
  method StrStr(s: string, opt: string, from: nat) returns (r: Option<nat>)
    requires from <= |s|
    ensures r.Some? ==> from <= r.value && Occurs(s, opt, r.value)
    ensures forall q :: from <= q < (if r.Some? then r.value else |s| + 1) ==> !Occurs(s, opt, q)
  {
    var p := from;
    while p <= |s|
      invariant from <= p <= |s| + 1
      invariant forall q :: from <= q < p ==> !Occurs(s, opt, q)
    {
      if Occurs(s, opt, p) {
        return Some(p);
      }
      p := p + 1;
    }
    return None;
  }

  /** The first comma at `from` or later. */
  function StrChr(s: string, from: nat): (r: Option<nat>)
    requires from <= |s|
    ensures r.Some? ==> from <= r.value < |s| && s[r.value] == ','
    ensures forall q :: from <= q < (if r.Some? then r.value else |s|) ==> s[q] != ','
    decreases |s| - from
  {
    if from == |s| then None else if s[from] == ',' then Some(from) else StrChr(s, from + 1)
  }

  // ----- options one by one

  /** An option starts at the front and after every comma. */
  predicate Starts(s: string, p: nat) {
    p <= |s| && (p == 0 || s[p - 1] == ',')
  }

  /** The option that starts at `p`. */
  function Token(s: string, p: nat): string
    requires p <= |s|
  {
    var end := StrChr(s, p);
    s[p..if end.Some? then end.value else |s|]
  }

  /** The option is `opt`, or gives it a value. */
  predicate Matches(token: string, opt: string) {
    token == opt || (|opt| < |token| && token[..|opt|] == opt && token[|opt|] == '=')
  }

  /** `opt` occurs at `p`, up to an "=", a comma or the end. */
  predicate Fits(s: string, opt: string, p: nat) {
    Occurs(s, opt, p) && (p + |opt| == |s| || s[p + |opt|] == ',' || s[p + |opt|] == '=')
  }

  /** That is so exactly when the option that starts there matches, unless `opt` is more than one option. */
  lemma BoundaryIsMatch(s: string, opt: string, p: nat)
    requires p <= |s| && ',' !in opt
    ensures Matches(Token(s, p), opt) <==> Fits(s, opt, p)
  {
    var end := StrChr(s, p);
    var token, e := Token(s, p), p + |opt|;
    if Occurs(s, opt, p) {
      assert forall q :: p <= q < e ==> s[q] == opt[q - p];
      assert end.Some? ==> e <= end.value;
      assert token[..|opt|] == opt;
      if |opt| < |token| {
        assert token[|opt|] == s[e];
      }
    }
    if Matches(token, opt) {
      assert token[..|opt|] == opt;
      assert s[p..e] == token[..|opt|];
    }
  }

  /** At no option that starts before `to` does `opt` fit. */
  ghost predicate NoneBefore(s: string, opt: string, to: nat) {
    forall q: nat :: q < to && Starts(s, q) ==> !Fits(s, opt, q)
  }

  /** `r` is the first place where an option starts and `opt` fits, if there is one. */
  ghost predicate FirstFit(s: string, opt: string, r: Option<nat>) {
    && (r.Some? ==> Starts(s, r.value) && Fits(s, opt, r.value))
    && NoneBefore(s, opt, if r.Some? then r.value else |s| + 1)
  }

  /** After an occurrence that is not a match, nothing matches up to the next comma. */
  lemma NoneInToken(s: string, opt: string, at: nat, comma: Option<nat>)
    requires at <= |s| && comma == StrChr(s, at) && NoneBefore(s, opt, at)
    requires Starts(s, at) ==> !Fits(s, opt, at)
    ensures NoneBefore(s, opt, if comma.Some? then comma.value + 1 else |s| + 1)
  {
    var to := if comma.Some? then comma.value + 1 else |s| + 1;
    forall q: nat | at < q < to ensures !Starts(s, q) {
      assert q <= |s| ==> s[q - 1] != ',';
    }
  }

  /** `hasmntopt`. */
  method HasMntOpt(s: string, opt: string) returns (r: Option<nat>)
    ensures FirstFit(s, opt, r)
  {
    var rest := 0;
    var p := StrStr(s, opt, rest);
    while p.Some?
      invariant Starts(s, rest) && (p.Some? ==> rest <= p.value && Occurs(s, opt, p.value))
      invariant forall q :: rest <= q < (if p.Some? then p.value else |s| + 1) ==> !Occurs(s, opt, q)
      invariant NoneBefore(s, opt, rest)
      decreases |s| - rest
    {
      var at, end := p.value, p.value + |opt|;
      if (at == 0 || s[at - 1] == ',') && (end == |s| || s[end] == ',' || s[end] == '=') {
        return Some(at);
      }
      var comma := StrChr(s, at);
      NoneInToken(s, opt, at, comma);
      if comma.None? {
        return None;
      }
      rest := comma.value + 1;
      p := StrStr(s, opt, rest);
    }
    return None;
  }

  /** So for a single option it is the first one that is `opt` or gives it a value. */
  lemma FirstFitIsFirstMatch(s: string, opt: string, r: Option<nat>)
    requires ',' !in opt && FirstFit(s, opt, r)
    ensures r.Some? ==> Starts(s, r.value) && Matches(Token(s, r.value), opt)
    ensures forall q: nat :: q < (if r.Some? then r.value else |s| + 1) && Starts(s, q) ==> !Matches(Token(s, q), opt)
  {
    forall q: nat | q <= |s| ensures Matches(Token(s, q), opt) <==> Fits(s, opt, q) {
      BoundaryIsMatch(s, opt, q);
    }
  }

  /** In terms of the string's parts: an option stands at the answer, and none stands before it, where an option
      that stands somewhere is a text after the front or a comma and before an "=", a comma or the end. */
  lemma FirstFitSpelled(s: string, opt: string, r: Option<nat>)
    requires FirstFit(s, opt, r)
    ensures r.Some? ==> exists pre, post :: s == pre + opt + post && |pre| == r.value && Stands(pre, post)
    ensures forall pre, post {:trigger Stands(pre, post)} :: s == pre + opt + post && Stands(pre, post) ==>
              r.Some? && r.value <= |pre|
  {
    if r.Some? {
      var pre, post := s[..r.value], s[r.value + |opt|..];
      assert s == pre + opt + post && Stands(pre, post);
    }
    forall pre, post | s == pre + opt + post && Stands(pre, post) ensures r.Some? && r.value <= |pre| {
      assert s[|pre|..|pre| + |opt|] == opt;
      assert Starts(s, |pre|) && Fits(s, opt, |pre|);
    }
  }

  predicate Stands(pre: string, post: string) {
    (pre == "" || pre[|pre| - 1] == ',') && (post == "" || post[0] == ',' || post[0] == '=')
  }
}
