/** Elements of tag, length and contents as a reader takes them (the basic encoding rules of X.690 with
    lengths of one byte, section 8.1.3.4): a relation between bytes and what they hold, stated without
    reference to the code that prints or parses PDUs. */
module Acse {
  import opened Bytes

  datatype Element = Element(tag: Byte, contents: seq<Byte>)

  /** `b` starts with an element. */
  predicate Starts(b: seq<Byte>, e: Element) {
    |b| >= 2 && b[0] == e.tag && b[1] < 0x80 && |b| >= 2 + b[1] && b[2..2 + b[1]] == e.contents
  }

  /** `b` is the elements one after the other. */
  predicate Holds(b: seq<Byte>, es: seq<Element>)
    decreases |es|
  {
    if es == [] then b == []
    else Starts(b, es[0]) && Holds(b[2 + b[1]..], es[1..])
  }

  /** Bytes hold one list of elements only. */
  lemma {:induction false} HoldsOne(b: seq<Byte>, es: seq<Element>, fs: seq<Element>)
    requires Holds(b, es) && Holds(b, fs)
    ensures es == fs
    decreases |es|
  {
    if es != [] {
      assert fs != [] && es[0] == fs[0];
      HoldsOne(b[2 + b[1]..], es[1..], fs[1..]);
      assert es == [es[0]] + es[1..] && fs == [fs[0]] + fs[1..];
    }
  }

  lemma HoldsElement(tag: Byte, contents: seq<Byte>)
    requires |contents| < 0x80
    ensures Holds([tag, |contents|] + contents, [Element(tag, contents)])
  {
    hide Starts;
    var b, e := [tag, |contents|] + contents, Element(tag, contents);
    ElementStarts(tag, contents);
    assert b[2 + b[1]..] == [] && [e][1..] == [];
  }

  lemma ElementStarts(tag: Byte, contents: seq<Byte>)
    requires |contents| < 0x80
    ensures Starts([tag, |contents|] + contents, Element(tag, contents))
    ensures ([tag, |contents|] + contents)[1] == |contents|
  {
    var b := [tag, |contents|] + contents;
    assert b[2..] == contents;
  }

  lemma StartsAppend(a: seq<Byte>, e: Element, b: seq<Byte>)
    requires Starts(a, e)
    ensures Starts(a + b, e) && (a + b)[1] == a[1] && (a + b)[2 + a[1]..] == a[2 + a[1]..] + b
  {
    assert (a + b)[2..2 + a[1]] == a[2..2 + a[1]];
  }

  lemma HoldsFirst(b: seq<Byte>, es: seq<Element>)
    requires es != [] && Starts(b, es[0])
    ensures Holds(b, es) <==> Holds(b[2 + b[1]..], es[1..])
  {
    hide Starts;
  }

  lemma StartsIf(b: seq<Byte>, es: seq<Element>)
    requires es != [] && Holds(b, es)
    ensures Starts(b, es[0])
  {
    hide Starts;
  }

  lemma JoinedAfterFirst(es: seq<Element>, fs: seq<Element>)
    requires es != []
    ensures (es + fs)[0] == es[0] && (es + fs)[1..] == es[1..] + fs
  {
  }

  lemma NothingBefore(a: seq<Byte>, b: seq<Byte>, fs: seq<Element>)
    requires Holds(a, [])
    ensures a + b == b && [] + fs == fs
  {
  }

  lemma {:induction false} HoldsAppend(a: seq<Byte>, es: seq<Element>, b: seq<Byte>, fs: seq<Element>)
    requires Holds(a, es) && Holds(b, fs)
    ensures Holds(a + b, es + fs)
    decreases |es|
  {
    hide Holds, Starts;
    if es == [] {
      NothingBefore(a, b, fs);
    } else {
      StartsIf(a, es);
      LongEnough(a, es[0]);
      StartsAppend(a, es[0], b);
      HoldsFirst(a, es);
      HoldsAppend(a[2 + a[1]..], es[1..], b, fs);
      JoinedAfterFirst(es, fs);
      HoldsFirst(a + b, es + fs);
    }
  }

  lemma LongEnough(b: seq<Byte>, e: Element)
    requires Starts(b, e)
    ensures |b| >= 2 && |b| >= 2 + b[1]
  {
  }
}
