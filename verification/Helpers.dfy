/** helpers.c: the bits of a byte in reverse order. */
module Helpers {
  import opened Bytes

  /** The lowest `n` bits of `v`, lowest first. */
  function BitsOf(v: nat, n: nat): (b: seq<bool>)
    ensures |b| == n
    decreases n
  {
    if n == 0 then [] else [v % 2 == 1] + BitsOf(v / 2, n - 1)
  }

  function ValueOf(b: seq<bool>): nat { if b == [] then 0 else (if b[0] then 1 else 0) + 2 * ValueOf(b[1..]) }

  function Reversed(b: seq<bool>): (r: seq<bool>)
    ensures |r| == |b| && forall i :: 0 <= i < |b| ==> r[i] == b[|b| - 1 - i]
  {
    if b == [] then [] else Reversed(b[1..]) + [b[0]]
  }

  function Power2(n: nat): nat { if n == 0 then 1 else 2 * Power2(n - 1) }

  lemma {:induction false} ValueBound(b: seq<bool>)
    ensures ValueOf(b) < Power2(|b|)
  {
    if b != [] { ValueBound(b[1..]); }
  }

  lemma Power2Of8()
    ensures Power2(8) == 256
  {
  }

  /** hlp_swapBits: the eight bits of a byte in reverse order. */
  function SwapBits(v: Byte): Byte {
    ValueBound(Reversed(BitsOf(v, 8)));
    Power2Of8();
    ValueOf(Reversed(BitsOf(v, 8)))
  }

  lemma {:induction false} ReversedAppend(b: seq<bool>, x: bool)
    ensures Reversed(b + [x]) == [x] + Reversed(b)
  {
    if b != [] {
      assert (b + [x])[1..] == b[1..] + [x];
      ReversedAppend(b[1..], x);
    }
  }

  /** `v` without its lowest `n` bits. */
  function Shifted(v: nat, n: nat): nat { if n == 0 then v else Shifted(v / 2, n - 1) }

  lemma {:induction false} ShiftedStep(v: nat, n: nat)
    ensures Shifted(v, n + 1) == Shifted(v, n) / 2
    ensures BitsOf(v, n + 1) == BitsOf(v, n) + [Shifted(v, n) % 2 == 1]
    decreases n
  {
    if n > 0 { ShiftedStep(v / 2, n - 1); }
  }

  lemma ReverseStep(v: nat, n: nat)
    ensures ValueOf(Reversed(BitsOf(v, n + 1))) == 2 * ValueOf(Reversed(BitsOf(v, n))) + Shifted(v, n) % 2
    ensures ValueOf(Reversed(BitsOf(v, n))) < Power2(n)
    ensures Shifted(v, n + 1) == Shifted(v, n) / 2
  {
    var x := Shifted(v, n) % 2 == 1;
    ShiftedStep(v, n);
    ReversedAppend(BitsOf(v, n), x);
    assert ([x] + Reversed(BitsOf(v, n)))[1..] == Reversed(BitsOf(v, n));
    ValueBound(Reversed(BitsOf(v, n)));
  }

  /** hlp_swapBits */
  method ReverseBits(v: Byte) returns (r: Byte)
    ensures r == SwapBits(v)
  {
    var acc: nat, rest: nat := 0, v;
    for pos := 0 to 8
      invariant acc == ValueOf(Reversed(BitsOf(v, pos))) && rest == Shifted(v, pos)
    {
      ReverseStep(v, pos);
      acc := 2 * acc + rest % 2;
      rest := rest / 2;
    }
    assert acc == SwapBits(v);
    r := acc;
  }

  lemma {:induction false} BitsOfValue(b: seq<bool>)
    ensures BitsOf(ValueOf(b), |b|) == b
  {
    if b != [] { BitsOfValue(b[1..]); }
  }

  lemma {:induction false} ValueOfBits(v: nat, n: nat)
    requires v < Power2(n)
    ensures ValueOf(BitsOf(v, n)) == v
    decreases n
  {
    if n != 0 {
      ValueOfBits(v / 2, n - 1);
      assert BitsOf(v, n)[1..] == BitsOf(v / 2, n - 1);
    }
  }

  lemma ReversedTwice(b: seq<bool>)
    ensures Reversed(Reversed(b)) == b
  {
    hide Reversed;
  }

  lemma SwapBitsInvolution(v: Byte)
    ensures SwapBits(SwapBits(v)) == v
  {
    hide BitsOf, ValueOf, Reversed, Power2;
    var b := BitsOf(v, 8);
    BitsOfValue(Reversed(b));
    ReversedTwice(b);
    Power2Of8();
    ValueOfBits(v, 8);
  }
}
