/** A server that was promised a ciphered context: which fields must have followed before it accepts,
    for every byte string and every way of deciphering. */
module ApduCompleteness {
  import opened Bytes
  import opened ApduTypes
  import opened ApduParsing

  /** What a parsed field means for a ciphered context. */
  datatype Mark = CipheredContext | PlainContext | AcseRequirements | MechanismNamed | AuthenticationValue | Silent

  /** The mark of the field at the front of `b`, by its bytes alone. */
  function MarkOf(logicalNames: bool, b: seq<Byte>): Mark
    requires b != []
  {
    if b[0] == 0xA1 then
      if |b| > 10 && b[10] == (if logicalNames then 3 else 4) then CipheredContext else PlainContext
    else if b[0] == 0x8A || b[0] == 0x88 then
      if |b| > 3 && b[3] == 0x80 then AcseRequirements else Silent
    else if b[0] == 0x8B || b[0] == 0x89 then MechanismNamed
    else if b[0] == 0xAC then AuthenticationValue
    else Silent
  }

  /** The marks of the fields that were parsed, in order. */
  function Marks(s: Settings, b: seq<Byte>, l: Locals, decipher: Decipher): seq<Mark>
    requires |s.sourceSystemTitle| == 8
    decreases |b|
  {
    if b == [] then []
    else
      match Field(s, b, l, decipher)
      case Return(_, _, _) => []
      case Next(s1, rest, l1) => [MarkOf(s.useLogicalNames, b)] + Marks(s1, rest, l1, decipher)
  }

  /** The last context that was named is the ciphered one. */
  predicate InForce(marks: seq<Mark>) {
    marks != [] &&
    var last := marks[|marks| - 1];
    if last == CipheredContext then true else if last == PlainContext then false else InForce(marks[..|marks| - 1])
  }

  /** A ciphered context was named at `i` for the last time, and no field with mark `m` came after it
      while it was in force. */
  ghost predicate UnansweredAt(marks: seq<Mark>, m: Mark, i: nat) {
    i < |marks| && marks[i] == CipheredContext
    && forall j :: i < j < |marks| ==> marks[j] != CipheredContext && (marks[j] == m ==> !InForce(marks[..j]))
  }

  ghost predicate Unanswered(marks: seq<Mark>, m: Mark) { exists i: nat :: UnansweredAt(marks, m, i) }

  /** The same, as the parser finds it out field by field. */
  predicate Lacking(marks: seq<Mark>, m: Mark) {
    marks != [] &&
    var last, before := marks[|marks| - 1], marks[..|marks| - 1];
    if last == CipheredContext then true
    else if last == m && InForce(before) then false
    else Lacking(before, m)
  }

  lemma {:induction false} LackingIsUnanswered(marks: seq<Mark>, m: Mark)
    requires m != CipheredContext
    ensures Lacking(marks, m) <==> Unanswered(marks, m)
    decreases |marks|
  {
    if marks != [] {
      var n := |marks| - 1;
      LackingIsUnanswered(marks[..n], m);
      UnansweredStep(marks, m);
    }
  }

  lemma UnansweredAtStep(marks: seq<Mark>, m: Mark, i: nat)
    requires marks != [] && m != CipheredContext
    ensures var n := |marks| - 1;
            UnansweredAt(marks, m, i)
            <==> if marks[n] == CipheredContext then i == n
                 else !(marks[n] == m && InForce(marks[..n])) && UnansweredAt(marks[..n], m, i)
  {
    hide InForce;
    var n := |marks| - 1;
    var before := marks[..n];
    if UnansweredAt(marks, m, i) && marks[n] != CipheredContext {
      forall j | i < j < n
        ensures before[j] != CipheredContext && (before[j] == m ==> !InForce(before[..j]))
      {
        assert before[j] == marks[j] && before[..j] == marks[..j];
      }
    }
    if UnansweredAt(before, m, i) && !(marks[n] == m && InForce(before)) {
      forall j | i < j < n
        ensures marks[j] != CipheredContext && (marks[j] == m ==> !InForce(marks[..j]))
      {
        assert before[j] == marks[j] && before[..j] == marks[..j];
      }
    }
  }

  lemma UnansweredStep(marks: seq<Mark>, m: Mark)
    requires marks != [] && m != CipheredContext
    ensures var n := |marks| - 1;
            Unanswered(marks, m)
            <==> marks[n] == CipheredContext || (!(marks[n] == m && InForce(marks[..n])) && Unanswered(marks[..n], m))
  {
    hide UnansweredAt, InForce;
    var n := |marks| - 1;
    UnansweredAtStep(marks, m, n);
    if Unanswered(marks, m) {
      var i: nat :| UnansweredAt(marks, m, i);
      UnansweredAtStep(marks, m, i);
    }
    if Unanswered(marks[..n], m) {
      var i: nat :| UnansweredAt(marks[..n], m, i);
      UnansweredAtStep(marks, m, i);
    }
  }

  // ---------- what each field does to the bookkeeping ----------

  /** The bookkeeping agrees with the marks so far. */
  predicate Tracks(l: Locals, marks: seq<Mark>) {
    && l.ciphered == InForce(marks)
    && l.missing == Missing(Lacking(marks, AcseRequirements), Lacking(marks, MechanismNamed), Lacking(marks, AuthenticationValue))
  }

  /** The local variables after a field with mark `m`. */
  function Marked(l: Locals, m: Mark): (bool, Missing) {
    match m
    case CipheredContext => (true, ALL_MISSING)
    case PlainContext => (false, l.missing)
    case AcseRequirements => (l.ciphered, if l.ciphered then l.missing.(acse := false) else l.missing)
    case MechanismNamed => (l.ciphered, if l.ciphered then l.missing.(mechanism := false) else l.missing)
    case AuthenticationValue => (l.ciphered, if l.ciphered then l.missing.(authentication := false) else l.missing)
    case Silent => (l.ciphered, l.missing)
  }

  /** A field that leaves with Ok leaves with a rejection; one that goes on does to the bookkeeping what
      its mark says. */
  predicate Follows(p: Progress, l: Locals, m: Mark) {
    if p.Return? then p.code == Ok ==> p.l.result != ACCEPTED
    else (p.l.ciphered, p.l.missing) == Marked(l, m) && (p.s.server ==> p.l.result == l.result)
  }

  lemma {:induction false} ExpectFollows(s: Settings, l: Locals, b: seq<Byte>, i: nat, expected: seq<Byte>, code: Code)
    requires code != Ok
    ensures match Expect(s, l, b, i, expected, code)
            case Return(c, _, l1) => c != Ok && l1 == l
            case Next(s1, rest, l1) => s1 == s && rest == Skip(b, i + |expected|) && l1 == l && (expected != [] ==> i + |expected| <= |b|)
    decreases |expected|
  {
    if expected != [] && i < |b| && b[i] == expected[0] {
      ExpectFollows(s, l, b, i + 1, expected[1..], code);
    }
  }

  lemma ContextFollows(s: Settings, b: seq<Byte>, l: Locals)
    requires b != [] && b[0] == 0xA1
    ensures Follows(ContextField(s, b[1..], l), l, MarkOf(s.useLogicalNames, b))
  {
    hide Expect;
    var body := b[1..];
    var s1 := if s.server then s.(security := SECURITY_NONE) else s;
    ExpectFollows(s1, l, body, 3, CONTEXT_OID, InvalidParameter);
    if |b| > 10 { assert Skip(body, 9) == b[10..]; }
  }

  lemma TitlesFollow(s: Settings, b: seq<Byte>, l: Locals)
    requires |s.sourceSystemTitle| == 8
    ensures Follows(RespondingTitleField(s, b, l), l, Silent) && Follows(CallingTitleField(s, b, l), l, Silent)
  {
  }

  lemma ResultFollows(s: Settings, b: seq<Byte>, l: Locals)
    ensures Follows(ResultField(s, b, l), l, Silent) && Follows(DiagnosticField(s, b, l), l, Silent)
  {
  }

  lemma InvocationFollows(s: Settings, b: seq<Byte>, l: Locals)
    ensures Follows(CalledInvocationField(s, b, l), l, Silent) && Follows(RespondingInvocationField(s, b, l), l, Silent)
    ensures Follows(CallingApInvocationField(s, b, l), l, Silent) && Follows(CallingInvocationField(s, b, l), l, Silent)
  {
  }

  lemma OthersFollow(s: Settings, b: seq<Byte>, l: Locals)
    ensures Follows(ServerChallengeField(s, b, l), l, Silent) && Follows(UnknownField(s, b, l), l, Silent)
    ensures Follows(ProtocolVersionField(s, b, l), l, Silent)
  {
  }

  lemma AcseFollows(s: Settings, b: seq<Byte>, l: Locals)
    requires b != [] && (b[0] == 0x8A || b[0] == 0x88)
    ensures Follows(AcseRequirementsField(s, b[1..], l), l, MarkOf(s.useLogicalNames, b))
  {
  }

  lemma MechanismFollows(s: Settings, b: seq<Byte>, l: Locals)
    ensures Follows(MechanismField(s, b, l), l, MechanismNamed)
  {
    hide Expect;
    ExpectFollows(s, l, b, 1, MECHANISM_OID, InvalidTag);
  }

  lemma ValueFollows(s: Settings, b: seq<Byte>, l: Locals)
    ensures Follows(AuthenticationValueField(s, b, l), l, AuthenticationValue)
  {
  }

  // The user information keeps all of the bookkeeping.

  predicate Keeps(p: Progress, l: Locals) {
    if p.Return? then p.code != Ok
    else p.l.ciphered == l.ciphered && p.l.missing == l.missing && p.l.result == l.result
  }

  lemma PartsKeep(s: Settings, b: seq<Byte>, l: Locals)
    ensures Keeps(DedicatedKey(s, b, l), l) && Keeps(ResponseAllowed(s, b, l), l) && Keeps(QualityOfService(s, b, l), l)
  {
  }

  lemma BlockKeeps(s: Settings, b: seq<Byte>, l: Locals, response: bool)
    ensures Keeps(ConformanceBlock(s, b, l, response), l)
  {
    hide Negotiated, GrantedPduSize, ConformanceOf;
  }

  lemma ParametersKeep(s: Settings, b: seq<Byte>, l: Locals, response: bool)
    ensures Keeps(Parameters(s, b, l, response), l)
  {
    hide ConformanceBlock;
    if |b| >= 2 {
      BlockKeeps(if s.server then s.(dlmsVersion := b[0]) else s, if |b| > 2 && b[2] == 0x1F then b[3..] else b[2..], l, response);
    }
  }

  lemma InitiateKeeps(s: Settings, b: seq<Byte>, l: Locals)
    ensures Keeps(InitiateBody(s, b, l), l)
  {
    hide DedicatedKey, ResponseAllowed, QualityOfService, Parameters;
    if b != [] {
      QualityKeeps(s, b[1..], l, true);
      PartsKeep(s, b[1..], l);
      var p := DedicatedKey(s, b[1..], l);
      if p.Next? {
        PartsKeep(p.s, p.rest, p.l);
        var q := ResponseAllowed(p.s, p.rest, p.l);
        if q.Next? { QualityKeeps(q.s, q.rest, q.l, false); }
      }
    }
  }

  lemma QualityKeeps(s: Settings, b: seq<Byte>, l: Locals, response: bool)
    ensures var p := QualityOfService(s, b, l);
            Keeps(p, l) && (p.Next? ==> Keeps(Parameters(p.s, p.rest, p.l, response), l))
  {
    hide Parameters;
    PartsKeep(s, b, l);
    var p := QualityOfService(s, b, l);
    if p.Next? { ParametersKeep(p.s, p.rest, p.l, response); }
  }

  lemma InformationFollows(s: Settings, b: seq<Byte>, l: Locals, decipher: Decipher)
    ensures Follows(UserInformationField(s, b, l, decipher), l, Silent)
  {
    hide InitiateBody;
    if |b| >= 4 {
      InitiateKeeps(s, b[3..], l);
      match decipher(s.sourceSystemTitle, b[3..])
      case Refused(code) =>
      case Plain(security, suite, counter, text) =>
        InitiateKeeps(CountedSettings(s, counter).(security := security, suite := suite), text, l.(command := b[3]));
    }
  }

  lemma FieldFollows(s: Settings, b: seq<Byte>, l: Locals, decipher: Decipher)
    requires b != [] && |s.sourceSystemTitle| == 8
    ensures Follows(Field(s, b, l, decipher), l, MarkOf(s.useLogicalNames, b))
  {
    hide Follows, ContextField, ResultField, DiagnosticField, CalledInvocationField, CallingTitleField, RespondingTitleField;
    hide RespondingInvocationField, CallingApInvocationField, CallingInvocationField, ServerChallengeField, UnknownField;
    hide ProtocolVersionField, AcseRequirementsField, MechanismField, AuthenticationValueField, UserInformationField;
    var tag, body := b[0], b[1..];
    if tag == 0xA1 { ContextFollows(s, b, l); }
    else if tag == 0x8A || tag == 0x88 { AcseFollows(s, b, l); }
    else if tag == 0x8B || tag == 0x89 { MechanismFollows(s, body, l); }
    else if tag == 0xAC { ValueFollows(s, body, l); }
    else if tag == 0xBE { InformationFollows(s, body, l, decipher); }
    else {
      TitlesFollow(s, body, l);
      ResultFollows(s, body, l);
      InvocationFollows(s, body, l);
      OthersFollow(s, body, l);
    }
  }

  // ---------- the whole PDU ----------

  lemma TracksStep(l: Locals, marks: seq<Mark>, m: Mark, l1: Locals)
    requires Tracks(l, marks) && (l1.ciphered, l1.missing) == Marked(l, m)
    ensures Tracks(l1, marks + [m])
  {
    assert (marks + [m])[..|marks|] == marks;
  }

  lemma {:induction false} FieldsTrack(s: Settings, b: seq<Byte>, l: Locals, decipher: Decipher, marks: seq<Mark>)
    requires |s.sourceSystemTitle| == 8 && Tracks(l, marks)
    ensures match Fields(s, b, l, decipher)
            case Return(code, _, l1) => code == Ok ==> l1.result != ACCEPTED
            case Next(_, _, l1) => Tracks(l1, marks + Marks(s, b, l, decipher)) && (s.server ==> l1.result == l.result)
    decreases |b|
  {
    hide Field, MarkOf, Tracks, Marked;
    if b == [] {
      assert marks + [] == marks;
    } else {
      FieldFollows(s, b, l, decipher);
      var p := Field(s, b, l, decipher);
      if p.Next? {
        var m := MarkOf(s.useLogicalNames, b);
        TracksStep(l, marks, m, p.l);
        FieldsTrack(p.s, p.rest, p.l, decipher, marks + [m]);
        assert marks + [m] + Marks(p.s, p.rest, p.l, decipher) == marks + Marks(s, b, l, decipher);
      }
    }
  }

  /** The fields that were parsed of a PDU; none if its header is refused. */
  function PduMarks(s: Settings, b: seq<Byte>, l: Locals, decipher: Decipher): seq<Mark>
    requires |s.sourceSystemTitle| == 8
  {
    if b == [] then []
    else match ObjectCount(s, b[1..], l)
      case Return(_, _, _) => []
      case Next(_, rest, _) => Marks(s, rest, l, decipher)
  }

  lemma PduTracks(s: Settings, b: seq<Byte>, command: Byte, decipher: Decipher)
    requires |s.sourceSystemTitle| == 8
    ensures var l := START.(command := command);
            match PduFields(s, b, l, decipher)
            case Return(code, _, l1) => code == Ok ==> l1.result != ACCEPTED
            case Next(_, _, l1) => Tracks(l1, PduMarks(s, b, l, decipher)) && (s.server ==> l1.result == ACCEPTED)
  {
    hide Fields, Field, Marks;
    var l := START.(command := command);
    if b != [] {
      var p := ObjectCount(s, b[1..], l);
      if p.Next? {
        FieldsTrack(s, p.rest, l, decipher, []);
        assert [] + Marks(s, p.rest, l, decipher) == Marks(s, p.rest, l, decipher);
      }
    }
  }

  /** Some field that a ciphered context calls for did not come. */
  ghost predicate Incomplete(marks: seq<Mark>, authentication: Byte) {
    || Unanswered(marks, AcseRequirements) || Unanswered(marks, MechanismNamed)
    || (Unanswered(marks, AuthenticationValue) && authentication != AUTH_NONE)
  }

  lemma LacksIsIncomplete(s: Settings, l: Locals, marks: seq<Mark>)
    requires s.server && l.result == ACCEPTED && Tracks(l, marks)
    ensures LacksAuthentication(s, l) <==> Incomplete(marks, s.authentication)
  {
    LackingIsUnanswered(marks, AcseRequirements);
    LackingIsUnanswered(marks, MechanismNamed);
    LackingIsUnanswered(marks, AuthenticationValue);
  }

  /** A server accepts no PDU that announced a ciphered context and did not carry, after the last such
      announcement, the ACSE requirements, a mechanism name and, unless there is no authentication, an
      authentication value.  A PDU whose fields could all be read is rejected exactly for that. */
  lemma AcceptedMeansComplete(s: Settings, b: seq<Byte>, command: Byte, decipher: Decipher)
    requires |s.sourceSystemTitle| == 8 && s.server
    ensures var l := START.(command := command);
            var marks, p, o := PduMarks(s, b, l, decipher), PduFields(s, b, l, decipher), ParsePdu(s, b, command, decipher);
            && (o.code == Ok && o.l.result == ACCEPTED ==> p.Next? && !Incomplete(marks, o.s.authentication))
            && (p.Next? ==> (o.code == Ok && o.l.result == PERMANENT_REJECTED <==> Incomplete(marks, o.s.authentication)))
  {
    hide PduFields, PduMarks, Incomplete, LacksAuthentication, Tracks;
    var l := START.(command := command);
    PduTracks(s, b, command, decipher);
    var p := PduFields(s, b, l, decipher);
    if p.Next? { LacksIsIncomplete(p.s, p.l, PduMarks(s, b, l, decipher)); }
  }
}
