/** The futex semaphore wait: a weak-CAS decrement of a packed 32-bit word, and the wait loop
    around it. The word holds the process-shared flag in bit 0 and the signed value above it. */
module SemClockwait {
  import opened Common

  type Bit = x: nat | x < 2

  const VALUE_MAX := 0x3fff_ffff          // SEM_VALUE_MAX, the poster's bound

  /** `(int)sval >> 1`: reinterpret as signed, then shift arithmetically. */
  function ToValue(w: uint32): int {
    if w < 0x8000_0000 then w / 2 else (w - 0x1_0000_0000) / 2
  }

  function SharedBit(w: uint32): Bit {
    w % 2
  }

  /** `((old - (1u << 1)) & ~1u) | shared`, with 32-bit wrap-around. */
  function Decremented(w: uint32, shared: Bit): uint32 {
    var d := (w - 2) % 0x1_0000_0000;
    d - d % 2 + shared
  }

  function Posted(w: uint32): uint32 {
    (w + 2) % 0x1_0000_0000
  }

  /** The value field of the word, as the poster keeps it. */
  ghost predicate Sane(w: uint32) {
    0 <= ToValue(w) <= VALUE_MAX
  }

  lemma DecrementedValue(w: uint32)
    requires Sane(w) && ToValue(w) > 0
    ensures ToValue(Decremented(w, SharedBit(w))) == ToValue(w) - 1
    ensures SharedBit(Decremented(w, SharedBit(w))) == SharedBit(w)
  {
    assert w >= 2 && w < 0x8000_0000;
    assert (w - 2) % 2 == w % 2;
  }

  lemma PostedValue(w: uint32)
    requires Sane(w) && ToValue(w) < VALUE_MAX
    ensures ToValue(Posted(w)) == ToValue(w) + 1 && SharedBit(Posted(w)) == SharedBit(w)
  {
  }

  // ----- ndk_sem_dec, run by one thread against an interfering environment

  /** What other threads do to the value before one compare-exchange, and whether that
      compare-exchange fails spuriously. */
  datatype Interference = Interference(delta: int, spurious: bool)

  function After(v: int, env: seq<Interference>): int
    decreases |env|
  {
    if env == [] then v else After(v, env[..|env| - 1]) + env[|env| - 1].delta
  }

  ghost predicate Feasible(v: int, env: seq<Interference>) {
    forall k :: 0 <= k <= |env| ==> 0 <= After(v, env[..k]) <= VALUE_MAX
  }

  class AtomicUint {
    var word: uint32

    constructor (w: uint32)
      ensures word == w
    {
      word := w;
    }

    method Interfere(delta: int)
      requires Sane(word) && 0 <= ToValue(word) + delta <= VALUE_MAX
      modifies this
      ensures ToValue(word) == ToValue(old(word)) + delta && SharedBit(word) == SharedBit(old(word))
    {
      word := 2 * (ToValue(word) + delta) + word % 2;
    }

    method CompareExchangeWeak(expected: uint32, desired: uint32, spurious: bool) returns (ok: bool, seen: uint32)
      modifies this
      ensures ok <==> old(word) == expected && !spurious
      ensures word == if ok then desired else old(word)
      ensures seen == old(word)
    {
      seen := word;
      ok := word == expected && !spurious;
      if ok {
        word := desired;
      }
    }

    /** There is one instant in the call, after some prefix of the environment's actions, at which the
        value was `r`; if it was positive the word is one lower from then on, otherwise untouched. */
    method NdkSemDec(env: seq<Interference>) returns (r: int, ghost k: nat)
      requires Sane(word) && Feasible(ToValue(word), env)
      modifies this
      ensures k <= |env| && r == After(ToValue(old(word)), env[..k])
      ensures ToValue(word) == if r > 0 then r - 1 else r
      ensures SharedBit(word) == SharedBit(old(word))
    {
      var current := word;
      var shared: Bit := current % 2;
      var i := 0;
      while true
        invariant i <= |env| && current == word && Sane(word)
        invariant ToValue(word) == After(ToValue(old(word)), env[..i])
        invariant shared == SharedBit(word) == SharedBit(old(word))
        decreases |env| - i
      {
        if ToValue(current) <= 0 {
          return ToValue(current), i;
        }
        var desired := Decremented(current, shared);
        DecrementedValue(current);
        var spurious := false;
        if i < |env| {
          assert env[..i + 1][..i] == env[..i];
          assert 0 <= After(ToValue(old(word)), env[..i + 1]) <= VALUE_MAX;
          Interfere(env[i].delta);
          spurious := env[i].spurious;
          i := i + 1;
        }
        var ok, seen := CompareExchangeWeak(current, desired, spurious);
        if ok {
          return ToValue(current), i;
        }
        current := seen;
      }
    }
  }
}
