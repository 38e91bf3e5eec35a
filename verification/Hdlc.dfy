/** HDLC frames as a receiver reads them (frame format type 3, section 6.4 of IEC 62056-46): a relation
    between the bytes on the line and what they carry, stated without reference to the code that builds
    or takes apart frames. */
module Hdlc {
  import opened Bytes
  import Fcs16

  datatype Frame = Frame(segmented: bool, destination: seq<Byte>, source: seq<Byte>, control: Byte, information: seq<Byte>)

  /** An address ends with its only odd byte. */
  predicate IsAddress(a: seq<Byte>) {
    a != [] && a[|a| - 1] % 2 == 1 && forall i :: 0 <= i < |a| - 1 ==> a[i] % 2 == 0
  }

  /** The bytes end with the FCS of the others. */
  ghost predicate Checked(bytes: seq<Byte>) { Fcs16.Register(bytes) == Fcs16.GOOD_FCS }

  /** The index of the control byte. */
  function ControlIndex(x: Frame): nat { 3 + |x.destination| + |x.source| }

  /** The flags, the format field, the addresses, the control byte, the header check and the place of the
      information, but not the frame check. */
  ghost predicate CarriesHeader(f: seq<Byte>, x: Frame) {
    && IsAddress(x.destination) && IsAddress(x.source)
    && var h := ControlIndex(x);
    && |f| >= h + 4
    && f[0] == 0x7E && f[|f| - 1] == 0x7E
    && f[1] / 16 == 0xA && (f[1] / 8 % 2 == 1 <==> x.segmented) && Word(f[1] % 8, f[2]) == |f| - 2
    && f[3..3 + |x.destination|] == x.destination && f[3 + |x.destination|..h] == x.source && f[h] == x.control
    && Checked(f[1..h + 3])
    && (if |f| == h + 4 then x.information == [] else |f| >= h + 6 && x.information == f[h + 3..|f| - 3])
  }

  /** `f` is a frame with contents `x`. */
  ghost predicate Carries(f: seq<Byte>, x: Frame) { CarriesHeader(f, x) && Checked(f[1..|f| - 1]) }

  /** Only the end of an address is odd. */
  lemma AddressEnds(f: seq<Byte>, i: nat, a: seq<Byte>)
    requires IsAddress(a) && i + |a| <= |f| && f[i..i + |a|] == a
    ensures forall k :: i <= k < i + |a| ==> (f[k] % 2 == 1 <==> k == i + |a| - 1)
  {
    forall k | i <= k < i + |a|
      ensures f[k] % 2 == 1 <==> k == i + |a| - 1
    {
      assert f[k] == a[k - i];
    }
  }

  lemma SameAddress(f: seq<Byte>, i: nat, a: seq<Byte>, b: seq<Byte>)
    requires IsAddress(a) && IsAddress(b) && i + |a| <= |f| && i + |b| <= |f|
    requires f[i..i + |a|] == a && f[i..i + |b|] == b
    ensures a == b
  {
    AddressEnds(f, i, a);
    AddressEnds(f, i, b);
    assert f[i + |a| - 1] % 2 == 1 && f[i + |b| - 1] % 2 == 1;
    assert |a| == |b|;
  }

  /** A frame carries one thing only. */
  lemma CarriesOne(f: seq<Byte>, x: Frame, y: Frame)
    requires CarriesHeader(f, x) && CarriesHeader(f, y)
    ensures x == y
  {
    hide Checked, IsAddress;
    SameAddress(f, 3, x.destination, y.destination);
    SameAddress(f, 3 + |x.destination|, x.source, y.source);
  }

  /** What the header check means for the two bytes after the control byte. */
  lemma CheckedPair(data: seq<Byte>, h: Byte, l: Byte)
    ensures Checked(data + [h, l]) <==> Word(h, l) == Fcs16.Fcs(data)
  {
    Fcs16.CheckIsExact(data, h, l);
    Fcs16.FcsIsWord(data, Fcs16.Fcs(data));
    HalvesOf(Fcs16.Fcs(data), h, l);
  }

  lemma HalvesOf(n: nat, h: Byte, l: Byte)
    requires n < 65536
    ensures Word(h, l) == n <==> h == Hi(n) && l == Lo(n)
  {
  }
}
