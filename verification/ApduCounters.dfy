/** The invocation counter of a server that expects ciphering: which deciphered bodies it takes, for every
    byte string and every way of deciphering, and what becomes of a request that is sent again. */
module ApduCounters {
  import opened Bytes
  import opened ApduTypes
  import opened ApduParsing
  import opened ApduProgress

  const WRAP := 0x1_0000_0000

  /** A deciphered body: what the ciphering says of it, and the title under which it came. */
  datatype Body = Body(security: Byte, suite: Byte, counter: nat, title: seq<Byte>)

  // ---------- what a server asks of a body ----------

  predicate SecurityFits(s: Settings, d: Body) { s.expectedPolicy == 0xFF || d.security == 16 * s.expectedPolicy }

  predicate SuiteFits(s: Settings, d: Body) { s.expectedSuite == 0xFF || d.suite == s.expectedSuite }

  /** With `k` expected, the counter must be at least the next one in 32 bits. */
  predicate CounterFits(k: Option<nat>, d: Body) { k.Some? ==> d.counter >= (k.value + 1) % WRAP }

  predicate TitleFits(s: Settings, d: Body) {
    s.expectedClientTitle == None || s.expectedClientTitle == Some([0, 0, 0, 0, 0, 0, 0, 0]) || s.expectedClientTitle == Some(d.title)
  }

  /** Security, suite and counter fit: the body is counted. */
  predicate Counts(s: Settings, k: Option<nat>, d: Body) { SecurityFits(s, d) && SuiteFits(s, d) && CounterFits(k, d) }

  /** The code for the first thing that does not fit. */
  function Misfit(s: Settings, k: Option<nat>, d: Body): Code {
    if !SecurityFits(s, d) then InvalidDecipheringError
    else if !SuiteFits(s, d) then InvalidSecuritySuite
    else if !CounterFits(k, d) then InvocationCounterTooSmall
    else InvalidDecipheringError
  }

  /** What is expected once a body was counted. */
  function Moved(k: Option<nat>, d: Body): Option<nat> { if k.Some? then Some((d.counter + 1) % WRAP) else None }

  function BodyOf(s: Settings, x: Deciphered): Body
    requires x.Plain?
  {
    Body(x.security, x.suite, x.counter, s.sourceSystemTitle)
  }

  lemma ZerosAre()
    ensures Zeros(8) == [0, 0, 0, 0, 0, 0, 0, 0]
  {
  }

  /** The parser goes on behind a deciphered body if and only if security, suite, counter and title fit;
      the counter moves on if and only if the first three do. */
  lemma BodyChecked(s: Settings, b: seq<Byte>, l: Locals, decipher: Decipher)
    requires b != [] && decipher(s.sourceSystemTitle, b).Plain?
    ensures var x := decipher(s.sourceSystemTitle, b);
            var d, k, l1 := BodyOf(s, x), s.expectedCounter, l.(command := b[0]);
            CipheredBody(s, b, l, decipher)
            == if !Counts(s, k, d) then Return(Misfit(s, k, d), s, l1)
               else if !TitleFits(s, d) then Return(InvalidDecipheringError, s.(expectedCounter := Moved(k, d)), l1)
               else InitiateBody(s.(expectedCounter := Moved(k, d), security := d.security, suite := d.suite), x.text, l1)
  {
    hide InitiateBody;
    ZerosAre();
  }

  // ---------- the bodies that a parse comes to ----------

  /** The user information behind its tag holds a ciphered body, and is looked at. */
  predicate IsCipheredInformation(x: seq<Byte>, l: Locals) {
    (l.result == ACCEPTED || l.diagnostic == DIAGNOSTIC_NONE) && |x| >= 4 && x[0] <= |x| - 1 && x[1] == 4 && IsCipheringCommand(x[3])
  }

  function BodyAt(s: Settings, x: seq<Byte>, l: Locals, decipher: Decipher): seq<Body> {
    if IsCipheredInformation(x, l) && decipher(s.sourceSystemTitle, x[3..]).Plain? then [BodyOf(s, decipher(s.sourceSystemTitle, x[3..]))] else []
  }

  /** What the user information field does to the counter, by the body it holds. */
  predicate Checks(p: Progress, s: Settings, ds: seq<Body>) {
    && Expects(s, p.s)
    && if ds == [] || !Counts(s, s.expectedCounter, ds[0]) then
         p.s.expectedCounter == s.expectedCounter && (ds != [] ==> p.Return? && p.code == Misfit(s, s.expectedCounter, ds[0]))
       else
         p.s.expectedCounter == Moved(s.expectedCounter, ds[0]) && (!TitleFits(s, ds[0]) ==> p.Return? && p.code == InvalidDecipheringError)
  }

  lemma CipheredChecks(s: Settings, x: seq<Byte>, l: Locals, decipher: Decipher)
    requires |x| >= 4 && decipher(s.sourceSystemTitle, x[3..]).Plain?
    ensures var p := CipheredBody(s, x[3..], l, decipher);
            Checks(p, s, [BodyOf(s, decipher(s.sourceSystemTitle, x[3..]))]) && p.l.result == l.result && (p.Return? ==> p.code != Ok)
  {
    hide CipheredBody, InitiateBody, SecurityFits, SuiteFits, CounterFits, TitleFits;
    BodyChecked(s, x[3..], l, decipher);
    var t := decipher(s.sourceSystemTitle, x[3..]);
    var d := BodyOf(s, t);
    InitiateKept(s.(expectedCounter := Moved(s.expectedCounter, d), security := d.security, suite := d.suite), t.text, l.(command := x[3..][0]));
  }

  lemma InformationChecks(s: Settings, x: seq<Byte>, l: Locals, decipher: Decipher)
    ensures var p := UserInformationField(s, x, l, decipher);
            Checks(p, s, BodyAt(s, x, l, decipher)) && (p.Return? && p.code == Ok ==> p.l.result != ACCEPTED) && (p.Next? ==> p.l.result == l.result)
    ensures IsCipheredInformation(x, l) && BodyAt(s, x, l, decipher) == [] ==>
              var p := UserInformationField(s, x, l, decipher); p.Return? && p.code != Ok
  {
    hide CipheredBody, InitiateBody, Counts, Misfit, TitleFits, Moved, BodyOf;
    MisfitCodes(s, s.expectedCounter);
    if |x| >= 4 {
      InitiateKept(s, x[3..], l);
      if decipher(s.sourceSystemTitle, x[3..]).Plain? { CipheredChecks(s, x, l, decipher); } else { NotDeciphered(s, x[3..], l, decipher); }
    }
  }

  lemma NotDeciphered(s: Settings, b: seq<Byte>, l: Locals, decipher: Decipher)
    requires b != [] && decipher(s.sourceSystemTitle, b).Refused?
    ensures CipheredBody(s, b, l, decipher) == Return(decipher(s.sourceSystemTitle, b).code, s, l.(command := b[0]))
    ensures decipher(s.sourceSystemTitle, b).code != Ok
  {
  }

  lemma MisfitCodes(s: Settings, k: Option<nat>)
    ensures forall d :: Misfit(s, k, d) in {InvocationCounterTooSmall, InvalidDecipheringError, InvalidSecuritySuite}
  {
  }

  function BodiesAt(s: Settings, b: seq<Byte>, l: Locals, decipher: Decipher): seq<Body>
    requires b != []
  {
    if b[0] == 0xBE then BodyAt(s, b[1..], l, decipher) else []
  }

  lemma TameChecks(p: Progress, s: Settings, l: Locals)
    requires Tame(p, s, l)
    ensures Checks(p, s, []) && (p.Return? && p.code == Ok ==> p.l.result != ACCEPTED) && (p.Next? && s.server ==> p.l.result == l.result)
  {
  }

  lemma FieldChecks(s: Settings, b: seq<Byte>, l: Locals, decipher: Decipher)
    requires b != [] && |s.sourceSystemTitle| == 8
    ensures var p := Field(s, b, l, decipher);
            Checks(p, s, BodiesAt(s, b, l, decipher)) && (p.Return? && p.code == Ok ==> p.l.result != ACCEPTED)
            && (p.Next? && s.server ==> p.l.result == l.result)
  {
    hide UserInformationField, Field, BodyAt, Checks, Tame;
    if b[0] == 0xBE {
      InformationField(s, b, l, decipher);
      InformationChecks(s, b[1..], l, decipher);
    } else {
      FieldTame(s, b, l, decipher);
      TameChecks(Field(s, b, l, decipher), s, l);
    }
  }

  /** The deciphered bodies that the fields of a PDU come to, in order. */
  function Bodies(s: Settings, b: seq<Byte>, l: Locals, decipher: Decipher): seq<Body>
    requires |s.sourceSystemTitle| == 8
    decreases |b|
  {
    if b == [] then []
    else
      BodiesAt(s, b, l, decipher)
      + match Field(s, b, l, decipher)
        case Return(_, _, _) => []
        case Next(s1, rest, l1) => Bodies(s1, rest, l1, decipher)
  }

  /** What is expected after the bodies in order, each of them counted. */
  function Expected(k: Option<nat>, ds: seq<Body>): Option<nat> { if ds == [] then k else Moved(k, ds[|ds| - 1]) }

  /** Every body was counted, and its title fits. */
  predicate AllFit(s: Settings, k: Option<nat>, ds: seq<Body>) {
    forall i :: 0 <= i < |ds| ==> Counts(s, Expected(k, ds[..i]), ds[i]) && TitleFits(s, ds[i])
  }

  /** The bodies that were counted: all but a last one that did not fit. */
  function Counted(s: Settings, k: Option<nat>, ds: seq<Body>): seq<Body> {
    if ds != [] && !Counts(s, Expected(k, ds[..|ds| - 1]), ds[|ds| - 1]) then ds[..|ds| - 1] else ds
  }

  /** What the bodies that a parse came to have to do with how it ended. */
  predicate Explains(s: Settings, ds: seq<Body>, code: Code, left: bool, t: Settings) {
    var k, n := s.expectedCounter, |ds| - 1;
    && Expects(s, t) && t.expectedCounter == Expected(k, Counted(s, k, ds))
    && (ds != [] ==> AllFit(s, k, ds[..n]))
    && (ds != [] && !Counts(s, Expected(k, ds[..n]), ds[n]) ==> left && code == Misfit(s, Expected(k, ds[..n]), ds[n]))
    && (ds != [] && !TitleFits(s, ds[n]) && Counts(s, Expected(k, ds[..n]), ds[n]) ==> left && code == InvalidDecipheringError)
  }

  lemma ExpectedMoves(k: Option<nat>, d: Body, ds: seq<Body>)
    ensures Expected(k, [d] + ds) == Expected(Moved(k, d), ds)
  {
    if ds != [] { assert ([d] + ds)[|ds|] == ds[|ds| - 1]; }
  }

  lemma SameFits(s: Settings, t: Settings, k: Option<nat>)
    requires Expects(s, t)
    ensures forall d :: Counts(s, k, d) == Counts(t, k, d) && TitleFits(s, d) == TitleFits(t, d) && Misfit(s, k, d) == Misfit(t, k, d)
  {
  }

  lemma FirstFits(s: Settings, k: Option<nat>, d: Body, ds: seq<Body>)
    requires Counts(s, k, d) && TitleFits(s, d) && AllFit(s, Moved(k, d), ds)
    ensures AllFit(s, k, [d] + ds)
  {
    hide Counts, TitleFits, Moved, Expected;
    forall i | 0 <= i < |ds| + 1
      ensures Counts(s, Expected(k, ([d] + ds)[..i]), ([d] + ds)[i]) && TitleFits(s, ([d] + ds)[i])
    {
      if i == 0 {
        assert Expected(k, []) == k by { NoneExpected(k); }
        assert ([d] + ds)[..0] == [];
      } else {
        assert ([d] + ds)[..i] == [d] + ds[..i - 1];
        ExpectedMoves(k, d, ds[..i - 1]);
      }
    }
  }

  lemma NoneExpected(k: Option<nat>)
    ensures Expected(k, []) == k
  {
  }

  /** A body that fits in front of others. */
  lemma Prepended(s: Settings, t: Settings, d: Body, ds: seq<Body>, code: Code, left: bool, u: Settings)
    requires Counts(s, s.expectedCounter, d) && TitleFits(s, d)
    requires Expects(s, t) && t.expectedCounter == Moved(s.expectedCounter, d) && Explains(t, ds, code, left, u)
    ensures Explains(s, [d] + ds, code, left, u)
  {
    hide Counts, TitleFits, Moved, Expected, Misfit, AllFit;
    var k, k1 := s.expectedCounter, t.expectedCounter;
    if ds == [] {
      assert [d] + ds == [d] && [d][..0] == [];
      NoneExpected(k);
      NoneExpected(k1);
      ExpectedMoves(k, d, []);
      EmptyFits(s, k);
    } else {
      var n := |ds| - 1;
      assert ([d] + ds)[..n + 1] == [d] + ds[..n] && ([d] + ds)[n + 1] == ds[n];
      ExpectedMoves(k, d, ds[..n]);
      ExpectedMoves(k, d, ds);
      SameFits(s, t, Expected(k1, ds[..n]));
      SameAllFit(s, t, k1, ds[..n]);
      FirstFits(s, k, d, ds[..n]);
    }
  }

  lemma EmptyFits(s: Settings, k: Option<nat>)
    ensures AllFit(s, k, [])
  {
  }

  lemma SameAllFit(s: Settings, t: Settings, k: Option<nat>, ds: seq<Body>)
    requires Expects(s, t) && AllFit(t, k, ds)
    ensures AllFit(s, k, ds)
  {
  }

  lemma OneExplains(s: Settings, ds: seq<Body>, p: Progress)
    requires |ds| <= 1 && Checks(p, s, ds)
    ensures p.Return? ==> Explains(s, ds, p.code, true, p.s)
    ensures p.Next? && ds != [] ==> Counts(s, s.expectedCounter, ds[0]) && TitleFits(s, ds[0])
  {
    hide Counts, TitleFits, Misfit;
    EmptyFits(s, s.expectedCounter);
    if ds != [] { assert ds[..0] == []; }
  }

  /** The bodies that the fields of a PDU come to, and how their parse ends. */
  lemma {:induction false} FieldsExplained(s: Settings, b: seq<Byte>, l: Locals, decipher: Decipher)
    requires |s.sourceSystemTitle| == 8
    ensures var p := Fields(s, b, l, decipher);
            Explains(s, Bodies(s, b, l, decipher), if p.Return? then p.code else Ok, p.Return?, p.s)
    decreases |b|
  {
    hide Field, BodiesAt, Explains, Checks;
    if b == [] {
      NothingExplains(s);
    } else {
      var p, ds := Field(s, b, l, decipher), BodiesAt(s, b, l, decipher);
      FieldChecks(s, b, l, decipher);
      AtMostOne(s, b, l, decipher);
      OneExplains(s, ds, p);
      if p.Next? {
        FieldsExplained(p.s, p.rest, p.l, decipher);
        var more, end := Bodies(p.s, p.rest, p.l, decipher), Fields(p.s, p.rest, p.l, decipher);
        if ds == [] {
          assert ds + more == more;
          NoBody(s, p);
          Unmoved(s, p.s, more, if end.Return? then end.code else Ok, end.Return?, end.s);
        } else {
          BodyMoves(s, ds, p);
          assert ds == [ds[0]];
          Prepended(s, p.s, ds[0], more, if end.Return? then end.code else Ok, end.Return?, end.s);
        }
      } else {
        assert ds + [] == ds;
      }
    }
  }

  lemma NothingExplains(s: Settings)
    ensures Explains(s, [], Ok, false, s)
  {
  }

  lemma AtMostOne(s: Settings, b: seq<Byte>, l: Locals, decipher: Decipher)
    requires b != []
    ensures |BodiesAt(s, b, l, decipher)| <= 1
  {
  }

  lemma NoBody(s: Settings, p: Progress)
    requires Checks(p, s, [])
    ensures Expects(s, p.s) && p.s.expectedCounter == s.expectedCounter
  {
  }

  lemma BodyMoves(s: Settings, ds: seq<Body>, p: Progress)
    requires |ds| == 1 && Checks(p, s, ds) && Counts(s, s.expectedCounter, ds[0])
    ensures Expects(s, p.s) && p.s.expectedCounter == Moved(s.expectedCounter, ds[0])
  {
    hide Counts, TitleFits, Misfit, Moved;
  }

  lemma Unmoved(s: Settings, t: Settings, ds: seq<Body>, code: Code, left: bool, u: Settings)
    requires Expects(s, t) && t.expectedCounter == s.expectedCounter && Explains(t, ds, code, left, u)
    ensures Explains(s, ds, code, left, u)
  {
    hide Counts, TitleFits, Misfit, AllFit;
    var k, n := s.expectedCounter, |ds| - 1;
    if ds != [] {
      SameFits(s, t, Expected(k, ds[..n]));
      SameAllFit(s, t, k, ds[..n]);
    }
  }

  // ---------- the PDU ----------

  /** The deciphered bodies that a PDU comes to. */
  function PduBodies(s: Settings, b: seq<Byte>, l: Locals, decipher: Decipher): seq<Body>
    requires |s.sourceSystemTitle| == 8
  {
    if b == [] || b[0] != (if s.server then 0x60 else 0x61) then []
    else match ObjectCount(s, b[1..], l)
      case Return(_, _, _) => []
      case Next(_, rest, _) => if CountValue(b[1..]) > |rest| then [] else Bodies(s, rest, l, decipher)
  }

  /** What the bodies that a PDU came to say of its outcome. */
  predicate Judges(s: Settings, ds: seq<Body>, o: Outcome) {
    var k, n := s.expectedCounter, |ds| - 1;
    && Expects(s, o.s) && o.s.expectedCounter == Expected(k, Counted(s, k, ds))
    && (ds != [] ==> AllFit(s, k, ds[..n]))
    && (ds != [] && !Counts(s, Expected(k, ds[..n]), ds[n]) ==> o.code == Misfit(s, Expected(k, ds[..n]), ds[n]))
    && (ds != [] && Counts(s, Expected(k, ds[..n]), ds[n]) && !TitleFits(s, ds[n]) ==> o.code == InvalidDecipheringError)
  }

  lemma EndJudged(s: Settings, ds: seq<Body>, p: Progress)
    requires Explains(s, ds, if p.Return? then p.code else Ok, p.Return?, p.s)
    ensures Judges(s, ds, AfterFields(p))
  {
    hide Counts, TitleFits, Misfit, AllFit, Expected, Counted, LacksAuthentication, DiagnosticCode;
  }

  lemma PduFieldsExplained(s: Settings, b: seq<Byte>, l: Locals, decipher: Decipher)
    requires |s.sourceSystemTitle| == 8
    ensures var p := PduFields(s, b, l, decipher);
            Explains(s, PduBodies(s, b, l, decipher), if p.Return? then p.code else Ok, p.Return?, p.s)
  {
    hide Fields, Bodies, Explains, Word;
    EmptyExplains(s, PduFields(s, b, l, decipher));
    if b != [] && ObjectCount(s, b[1..], l).Next? {
      FieldsExplained(s, ObjectCount(s, b[1..], l).rest, l, decipher);
    }
  }

  lemma EmptyExplains(s: Settings, p: Progress)
    ensures p.s == s ==> Explains(s, [], if p.Return? then p.code else Ok, p.Return?, p.s)
  {
  }

  /** For every byte string and every deciphering: of the bodies that a PDU comes to all before the last
      fit; if security, suite or counter of the last do not, the PDU is refused with the code for the
      first of them and the counter stays where the others left it; otherwise the counter expected is one
      more than the last body's, also if its title does not fit, which refuses the PDU. */
  lemma PduJudged(s: Settings, b: seq<Byte>, command: Byte, decipher: Decipher)
    requires |s.sourceSystemTitle| == 8
    ensures Judges(s, PduBodies(s, b, START.(command := command), decipher), ParsePdu(s, b, command, decipher))
  {
    hide PduFields, PduBodies, Judges, AfterFields;
    PduFieldsExplained(s, b, START.(command := command), decipher);
    EndJudged(s, PduBodies(s, b, START.(command := command), decipher), PduFields(s, b, START.(command := command), decipher));
  }

  // ---------- who is accepted ----------

  /** Not both without an error and with the result that accepts. */
  predicate Unaccepted(p: Progress) { p.Return? && !(p.code == Ok && p.l.result == ACCEPTED) }

  lemma {:induction false} ReturnsRefuse(s: Settings, b: seq<Byte>, l: Locals, decipher: Decipher)
    requires |s.sourceSystemTitle| == 8
    ensures var p := Fields(s, b, l, decipher); Expects(s, p.s) && (p.Return? ==> Unaccepted(p))
    decreases |b|
  {
    hide Field;
    if b != [] {
      FieldChecks(s, b, l, decipher);
      var p := Field(s, b, l, decipher);
      if p.Next? { ReturnsRefuse(p.s, p.rest, p.l, decipher); }
    }
  }

  /** Who is let past the parser has the security that is expected, if any is. */
  lemma AcceptedUnderPolicy(s: Settings, b: seq<Byte>, command: Byte, decipher: Decipher)
    requires |s.sourceSystemTitle| == 8
    ensures var o := ParsePdu(s, b, command, decipher);
            o.code == Ok && o.l.result == ACCEPTED ==> s.expectedPolicy == 0xFF || o.s.security == 16 * s.expectedPolicy
  {
    hide Fields;
    if b != [] && ObjectCount(s, b[1..], START).Next? {
      ReturnsRefuse(s, ObjectCount(s, b[1..], START).rest, START.(command := command), decipher);
    }
  }

  // ---------- requests in a row ----------

  /** Below the wrap whatever is counted after a body has a larger counter, and only there. */
  lemma LaterIsLarger(k: Option<nat>, d: Body)
    requires k.Some?
    ensures (forall e: Body :: CounterFits(Moved(k, d), e) ==> e.counter > d.counter) <==> d.counter + 2 < WRAP
  {
    if d.counter + 2 >= WRAP {
      var e := d.(counter := (d.counter + 2) % WRAP);
      assert CounterFits(Moved(k, d), e) && e.counter <= d.counter;
    }
  }

  /** The client's own next counter is refused: the counter must move on by two. */
  lemma NextInOrderRefused(k: Option<nat>, d: Body, e: Body)
    requires k.Some? && d.counter + 2 < WRAP && e.counter == d.counter + 1
    ensures !CounterFits(Moved(k, d), e) && CounterFits(Moved(k, d), e.(counter := d.counter + 2))
  {
  }

  /** A request as a server parses it. */
  datatype Request = Request(s: Settings, bytes: seq<Byte>, command: Byte, decipher: Decipher)

  predicate IsRequest(r: Request) { r.s.server && |r.s.sourceSystemTitle| == 8 }

  function Parsed(r: Request): Outcome
    requires IsRequest(r)
  {
    ParsePdu(r.s, r.bytes, r.command, r.decipher)
  }

  function BodiesOf(r: Request): seq<Body>
    requires IsRequest(r)
  {
    PduBodies(r.s, r.bytes, START.(command := r.command), r.decipher)
  }

  function CountedIn(r: Request): seq<Body>
    requires IsRequest(r)
  {
    Counted(r.s, r.s.expectedCounter, BodiesOf(r))
  }

  /** Requests in a row: each is parsed with the counter that the one before left, whatever else changed. */
  predicate Linked(k: Option<nat>, rs: seq<Request>)
    decreases |rs|
  {
    rs == [] || (IsRequest(rs[0]) && rs[0].s.expectedCounter == k && Linked(Parsed(rs[0]).s.expectedCounter, rs[1..]))
  }

  /** Every body counted in the requests, in order. */
  function AllCounted(k: Option<nat>, rs: seq<Request>): seq<Body>
    requires Linked(k, rs)
    decreases |rs|
  {
    if rs == [] then [] else CountedIn(rs[0]) + AllCounted(Parsed(rs[0]).s.expectedCounter, rs[1..])
  }

  /** The counter expected after the requests. */
  function Left(k: Option<nat>, rs: seq<Request>): Option<nat>
    requires Linked(k, rs)
    decreases |rs|
  {
    if rs == [] then k else Left(Parsed(rs[0]).s.expectedCounter, rs[1..])
  }

  /** Each body has a counter that was expected when it came. */
  predicate InOrder(k: Option<nat>, ds: seq<Body>) {
    forall i :: 0 <= i < |ds| ==> CounterFits(Expected(k, ds[..i]), ds[i])
  }

  lemma ExpectedJoins(k: Option<nat>, ds: seq<Body>, es: seq<Body>)
    ensures Expected(k, ds + es) == Expected(Expected(k, ds), es)
  {
  }

  lemma OrderJoins(k: Option<nat>, ds: seq<Body>, es: seq<Body>)
    requires InOrder(k, ds) && InOrder(Expected(k, ds), es)
    ensures InOrder(k, ds + es)
  {
    hide CounterFits, Expected;
    forall i | 0 <= i < |ds| + |es|
      ensures CounterFits(Expected(k, (ds + es)[..i]), (ds + es)[i])
    {
      if i < |ds| {
        assert (ds + es)[..i] == ds[..i];
      } else {
        assert (ds + es)[..i] == ds + es[..i - |ds|];
        ExpectedJoins(k, ds, es[..i - |ds|]);
      }
    }
  }

  lemma JudgedInOrder(s: Settings, ds: seq<Body>, o: Outcome)
    requires Judges(s, ds, o)
    ensures InOrder(s.expectedCounter, Counted(s, s.expectedCounter, ds))
  {
    hide CounterFits, Expected, Misfit, TitleFits;
    var k, n := s.expectedCounter, |ds| - 1;
    if ds != [] {
      forall i | 0 <= i < |ds|
        ensures i < n ==> CounterFits(Expected(k, ds[..i]), ds[i])
      {
        if i < n { assert ds[..n][..i] == ds[..i] && ds[..n][i] == ds[i]; }
      }
      forall i | 0 <= i < n
        ensures CounterFits(Expected(k, ds[..n][..i]), ds[..n][i])
      {
        assert ds[..n][..i] == ds[..i];
      }
    }
  }

  lemma {:induction false} CountedInOrder(k: Option<nat>, rs: seq<Request>)
    requires Linked(k, rs)
    ensures InOrder(k, AllCounted(k, rs)) && Left(k, rs) == Expected(k, AllCounted(k, rs))
    decreases |rs|
  {
    hide InOrder, Expected, Counted, Judges, PduBodies, ParsePdu;
    if rs == [] {
      NothingInOrder(k);
    } else {
      var r, k1 := rs[0], Parsed(rs[0]).s.expectedCounter;
      CountedInOrder(k1, rs[1..]);
      PduJudged(r.s, r.bytes, r.command, r.decipher);
      JudgedInOrder(r.s, BodiesOf(r), Parsed(r));
      JudgedLeaves(r.s, BodiesOf(r), Parsed(r));
      OrderJoins(k, CountedIn(r), AllCounted(k1, rs[1..]));
      ExpectedJoins(k, CountedIn(r), AllCounted(k1, rs[1..]));
    }
  }

  lemma NothingInOrder(k: Option<nat>)
    ensures InOrder(k, []) && Expected(k, []) == k
  {
  }

  lemma JudgedLeaves(s: Settings, ds: seq<Body>, o: Outcome)
    requires Judges(s, ds, o)
    ensures o.s.expectedCounter == Expected(s.expectedCounter, Counted(s, s.expectedCounter, ds))
  {
    hide Expected, Counted, AllFit, Misfit, Counts, TitleFits;
  }

  predicate BelowWrap(ds: seq<Body>) { forall i :: 0 <= i < |ds| ==> ds[i].counter + 2 < WRAP }

  lemma {:induction false} OrderIncreases(k: Option<nat>, ds: seq<Body>, i: nat, j: nat)
    requires k.Some? && InOrder(k, ds) && BelowWrap(ds) && i < j < |ds|
    ensures ds[i].counter + 2 <= ds[j].counter
    decreases j
  {
    hide InOrder, Expected;
    NextIncreases(k, ds, j);
    if i < j - 1 { OrderIncreases(k, ds, i, j - 1); }
  }

  lemma FitsAbove(k: Option<nat>, ds: seq<Body>, j: nat)
    requires k.Some? && 0 < j < |ds| && BelowWrap(ds) && CounterFits(Moved(k, ds[j - 1]), ds[j])
    ensures ds[j - 1].counter + 2 <= ds[j].counter
  {
  }

  lemma NextIncreases(k: Option<nat>, ds: seq<Body>, j: nat)
    requires k.Some? && InOrder(k, ds) && BelowWrap(ds) && 0 < j < |ds|
    ensures ds[j - 1].counter + 2 <= ds[j].counter
  {
    hide CounterFits, BelowWrap, Moved;
    assert CounterFits(Moved(k, ds[j - 1]), ds[j]) by { assert ds[..j][|ds[..j]| - 1] == ds[j - 1]; }
    FitsAbove(k, ds, j);
  }

  /** Below the wrap the counters of all bodies that a server counts, in however many requests in a row,
      increase by two at least; the first is above the counter it expected. */
  lemma CountersIncrease(k: nat, rs: seq<Request>)
    requires Linked(Some(k), rs) && BelowWrap(AllCounted(Some(k), rs))
    ensures var ds := AllCounted(Some(k), rs);
            && (forall i, j :: 0 <= i < j < |ds| ==> ds[i].counter + 2 <= ds[j].counter)
            && (ds != [] && k + 1 < WRAP ==> ds[0].counter >= k + 1)
            && Left(Some(k), rs) == Some(if ds == [] then k else ds[|ds| - 1].counter + 1)
  {
    hide Linked, AllCounted, Left, InOrder, Expected, BelowWrap;
    var ds := AllCounted(Some(k), rs);
    CountedInOrder(Some(k), rs);
    forall i, j | 0 <= i < j < |ds|
      ensures ds[i].counter + 2 <= ds[j].counter
    {
      OrderIncreases(Some(k), ds, i, j);
    }
    FirstAndLast(k, ds);
  }

  lemma FirstAndLast(k: nat, ds: seq<Body>)
    requires InOrder(Some(k), ds) && BelowWrap(ds)
    ensures ds != [] && k + 1 < WRAP ==> ds[0].counter >= k + 1
    ensures Expected(Some(k), ds) == Some(if ds == [] then k else ds[|ds| - 1].counter + 1)
  {
    hide Expected, CounterFits, InOrder, BelowWrap;
    if ds != [] {
      FirstFitsCounter(Some(k), ds);
      FirstAbove(k, ds[0]);
      LastBelow(k, ds);
    } else {
      NothingInOrder(Some(k));
    }
  }

  lemma FirstFitsCounter(k: Option<nat>, ds: seq<Body>)
    requires InOrder(k, ds) && ds != []
    ensures CounterFits(k, ds[0])
  {
    hide CounterFits;
    assert CounterFits(Expected(k, ds[..0]), ds[0]);
  }

  lemma FirstAbove(k: nat, d: Body)
    requires CounterFits(Some(k), d)
    ensures k + 1 < WRAP ==> d.counter >= k + 1
  {
  }

  lemma LastBelow(k: nat, ds: seq<Body>)
    requires ds != [] && BelowWrap(ds)
    ensures Expected(Some(k), ds) == Some(ds[|ds| - 1].counter + 1)
  {
  }

  // ---------- a request sent again ----------

  /** The counter is in the bytes of a body, whatever title it is deciphered with. */
  ghost predicate CounterInBytes(decipher: Decipher) {
    forall v: seq<Byte>, w: seq<Byte>, b: seq<Byte> ::
      decipher(v, b).Plain? && decipher(w, b).Plain? ==> decipher(v, b).counter == decipher(w, b).counter
  }

  /** The user information in the clear. */
  lemma ClearAbreast(s: Settings, t: Settings, x: seq<Byte>, l: Locals, m: Locals, decipher: Decipher)
    requires Servers(s, t) && l.result == ACCEPTED && m.result == ACCEPTED && !IsCipheredInformation(x, l)
    ensures Abreast(UserInformationField(s, x, l, decipher), UserInformationField(t, x, m, decipher))
  {
    hide CipheredBody, InitiateBody, IsCipheringCommand;
    if |x| >= 4 { InitiateAbreast(s, t, x[3..], l, m); }
  }

  /** The first field does not come to a ciphered body, in either parse. */
  lemma PassedAbreast(s: Settings, t: Settings, b: seq<Byte>, l: Locals, m: Locals, decipher: Decipher)
    requires b != [] && |s.sourceSystemTitle| == 8 && |t.sourceSystemTitle| == 8 && Servers(s, t)
    requires l.result == ACCEPTED && m.result == ACCEPTED && !(b[0] == 0xBE && IsCipheredInformation(b[1..], l))
    ensures Abreast(Field(s, b, l, decipher), Field(t, b, m, decipher))
    ensures BodiesAt(s, b, l, decipher) == [] && BodiesAt(t, b, m, decipher) == []
  {
    hide Field, UserInformationField, IsCipheringCommand, Behind;
    if b[0] == 0xBE {
      InformationField(s, b, l, decipher);
      InformationField(t, b, m, decipher);
      ClearAbreast(s, t, b[1..], l, m, decipher);
    } else {
      FieldReadsOn(s, b, l, decipher);
      FieldReadsOn(t, b, m, decipher);
    }
  }

  /** A counter that is too small now. */
  predicate Stale(k: Option<nat>, d: Body) { k.Some? && d.counter < (k.value + 1) % WRAP }

  /** A ciphered body with a counter that is too small ends the parse and moves nothing. */
  lemma StaleBody(s: Settings, t: Settings, b: seq<Byte>, l: Locals, m: Locals, decipher: Decipher)
    requires b != [] && |s.sourceSystemTitle| == 8 && |t.sourceSystemTitle| == 8
    requires l.result == ACCEPTED && m.result == ACCEPTED && b[0] == 0xBE && IsCipheredInformation(b[1..], l)
    requires CounterInBytes(decipher) && BodiesAt(s, b, l, decipher) != [] && Stale(t.expectedCounter, BodiesAt(s, b, l, decipher)[0])
    ensures var p := Field(t, b, m, decipher); Unaccepted(p) && p.s.expectedCounter == t.expectedCounter
  {
    hide Field, IsCipheringCommand, SecurityFits, SuiteFits, TitleFits, UserInformationField;
    InformationField(t, b, m, decipher);
    InformationChecks(t, b[1..], m, decipher);
    MisfitCodes(t, t.expectedCounter);
  }

  /** The first body of a parse that starts with a ciphered one. */
  lemma FirstBodies(s: Settings, b: seq<Byte>, l: Locals, decipher: Decipher)
    requires b != [] && |s.sourceSystemTitle| == 8 && b[0] == 0xBE && IsCipheredInformation(b[1..], l)
    requires Bodies(s, b, l, decipher) != []
    ensures BodiesAt(s, b, l, decipher) != [] && BodiesAt(s, b, l, decipher)[0] == Bodies(s, b, l, decipher)[0]
  {
    hide Field, IsCipheredInformation, UserInformationField, Checks, BodyAt;
    InformationField(s, b, l, decipher);
    InformationChecks(s, b[1..], l, decipher);
  }

  lemma UnacceptedReturns(p: Progress)
    ensures Unaccepted(p) ==> p.Return?
    ensures p.Return? && (p.code == Ok ==> p.l.result != ACCEPTED) ==> Unaccepted(p)
  {
  }

  lemma {:induction false} StaleFields(s: Settings, t: Settings, b: seq<Byte>, l: Locals, m: Locals, decipher: Decipher)
    requires |s.sourceSystemTitle| == 8 && |t.sourceSystemTitle| == 8 && Servers(s, t) && l.result == ACCEPTED && m.result == ACCEPTED
    requires CounterInBytes(decipher) && Bodies(s, b, l, decipher) != [] && Stale(t.expectedCounter, Bodies(s, b, l, decipher)[0])
    ensures var p := Fields(t, b, m, decipher); Unaccepted(p) && p.s.expectedCounter == t.expectedCounter
    decreases |b|
  {
    hide Field, BodiesAt, CounterInBytes, Stale, IsCipheredInformation, Unaccepted, Checks;
    var p, q := Field(s, b, l, decipher), Field(t, b, m, decipher);
    FieldChecks(s, b, l, decipher);
    FieldChecks(t, b, m, decipher);
    if b[0] == 0xBE && IsCipheredInformation(b[1..], l) {
      FirstBodies(s, b, l, decipher);
      StaleBody(s, t, b, l, m, decipher);
      assert q.Return? by { UnacceptedReturns(q); }
    } else {
      PassedAbreast(s, t, b, l, m, decipher);
      assert Bodies(p.s, p.rest, p.l, decipher) == Bodies(s, b, l, decipher);
      NoBody(t, q);
      if q.Next? {
        NoBody(s, p);
        StaleFields(p.s, q.s, p.rest, p.l, q.l, decipher);
      } else {
        UnacceptedReturns(q);
      }
    }
  }

  /** A PDU of which a server once came to a body is refused wherever the counter of that body is too small
      by now, with whatever else changed in between, and moves nothing. */
  lemma StaleRefused(s: Settings, t: Settings, b: seq<Byte>, command: Byte, again: Byte, decipher: Decipher)
    requires |s.sourceSystemTitle| == 8 && |t.sourceSystemTitle| == 8 && Servers(s, t) && CounterInBytes(decipher)
    requires var ds := PduBodies(s, b, START.(command := command), decipher); ds != [] && Stale(t.expectedCounter, ds[0])
    ensures var o := ParsePdu(t, b, again, decipher);
            !(o.code == Ok && o.l.result == ACCEPTED) && o.s.expectedCounter == t.expectedCounter
  {
    hide Fields, Bodies, CounterInBytes, Stale, Word;
    StaleFields(s, t, ObjectCount(s, b[1..], START.(command := command)).rest, START.(command := command), START.(command := again), decipher);
  }

  /** A request of which a body was counted is refused when it comes again, whatever came in between and
      as long as the counters stay below the wrap; it moves nothing. */
  lemma ReplayRefused(k: nat, first: Request, between: seq<Request>, again: Request)
    requires Linked(Some(k), [first] + between) && BelowWrap(AllCounted(Some(k), [first] + between)) && CountedIn(first) != []
    requires IsRequest(again) && again.s.expectedCounter == Left(Some(k), [first] + between)
    requires again.bytes == first.bytes && again.decipher == first.decipher && CounterInBytes(first.decipher)
    requires again.s.useLogicalNames == first.s.useLogicalNames
    ensures var o := Parsed(again);
            !(o.code == Ok && o.l.result == ACCEPTED) && o.s.expectedCounter == again.s.expectedCounter
  {
    hide PduBodies, ParsePdu, CounterInBytes, Linked, AllCounted, Left, BelowWrap, CountedIn, Stale;
    var rs := [first] + between;
    CountersIncrease(k, rs);
    FirstCounted(k, rs);
    var ds := AllCounted(Some(k), rs);
    LastExpects(ds, again.s.expectedCounter);
    StaleRefused(first.s, again.s, first.bytes, first.command, again.command, first.decipher);
  }

  lemma FirstCounted(k: nat, rs: seq<Request>)
    requires Linked(Some(k), rs) && rs != [] && CountedIn(rs[0]) != []
    ensures IsRequest(rs[0]) && BodiesOf(rs[0]) != [] && AllCounted(Some(k), rs) != [] && AllCounted(Some(k), rs)[0] == BodiesOf(rs[0])[0]
  {
    hide PduBodies, ParsePdu, Counts, Expected;
  }

  lemma LastExpects(ds: seq<Body>, k: Option<nat>)
    requires ds != [] && BelowWrap(ds) && k == Some(ds[|ds| - 1].counter + 1)
    requires forall i, j :: 0 <= i < j < |ds| ==> ds[i].counter + 2 <= ds[j].counter
    ensures Stale(k, ds[0])
  {
  }
}
