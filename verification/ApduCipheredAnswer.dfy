/** The AARE of a ciphering server at a client that deciphers what the server ciphered. */
module ApduCipheredAnswer {
  import opened Bytes
  import opened ApduTypes
  import opened ApduParsing
  import opened ApduPrinting
  import opened ApduAgreement
  import opened ApduProgress
  import opened ApduCounters
  import opened ApduCiphered

  /** What the ciphering made of the server's initiate response to a command; nothing if it failed. */
  function SealedResponse(v: Settings, command: Byte, encipher: Encipher): seq<Byte> {
    match encipher(ResponseCommand(command), InitiateResponseBytes(v)) case Ciphered(bytes) => bytes case NotCiphered(_) => []
  }

  predicate UndoesResponse(v: Settings, command: Byte, encipher: Encipher, decipher: Decipher, counter: nat) {
    var bytes := SealedResponse(v, command, encipher);
    0 < |bytes| < 254 && IsCipheringCommand(bytes[0])
    && decipher(Title(v), bytes) == Plain(v.security, v.suite, counter, InitiateResponseBytes(v))
  }

  /** A client and the ciphering server that answers it. */
  predicate Answering(c: Settings, v: Settings) {
    && !c.server && v.server && IsCiphered(v) && c.useLogicalNames == v.useLogicalNames
    && |c.sourceSystemTitle| == 8 && |v.systemTitle| >= 8 && v.maxPduSize < 65536
    && v.authentication <= AUTH_LAST_KNOWN && (v.authentication > AUTH_LOW ==> 0 < |v.stoCChallenge| < 256)
  }

  // ---------- the fields in front of the user information ----------

  /** The client when the names of the server were read: a user number of zero is kept. */
  function MetServer(c: Settings, v: Settings): Settings {
    var s := Versioned(c, v).(sourceSystemTitle := Title(v));
    if v.userId != USER_ID_UNUSED && v.userId % 256 == 0 then s.(userId := 0) else s
  }

  /** And when its challenge was. */
  function Welcomed(c: Settings, v: Settings): Settings { Challenged(MetServer(c, v), v) }

  lemma AnswerNamesRead(c: Settings, v: Settings, more: seq<Byte>, l: Locals, decipher: Decipher)
    requires Answering(c, v)
    ensures NameBytes(v).Pdu? && |Versioned(c, v).sourceSystemTitle| == 8
    ensures Fields(c, NameBytes(v).bytes + more, l, decipher)
         == Fields(Versioned(c, v), more, l.(ciphered := true, missing := ALL_MISSING), decipher)
  {
    hide Field;
    var p, x, l1 := ProtocolVersionBytes(v), ContextBytes(v), l.(ciphered := true, missing := ALL_MISSING);
    assert NameBytes(v).bytes + more == p + (x + more);
    var c1 := Versioned(c, v);
    if v.protocolVersion == 0 {
      assert p + (x + more) == x + more;
    } else {
      ReadsProtocolVersion(c, v.protocolVersion, x + more, l, decipher);
      OneField(c, p, x + more, l, decipher, c1, l);
    }
    ReadsContext(c1, v, more, l, decipher);
    OneField(c1, x, more, l, decipher, c1, l1);
  }

  lemma ServerUserRead(s: Settings, user: Byte, more: seq<Byte>, l: Locals, decipher: Decipher)
    requires |s.sourceSystemTitle| == 8 && l.ciphered
    ensures Field(s, [0xA7, 3, 2, 1, user] + more, l, decipher) == Next(if user == 0 then s.(userId := 0) else s, more, l)
  {
    var b := [0xA7, 3, 2, 1, user] + more;
    assert b[1..] == [3, 2, 1, user] + more;
    assert b[1..][4..] == more;
  }

  lemma TitleAndUserRead(s: Settings, c: Settings, v: Settings, more: seq<Byte>, l: Locals, decipher: Decipher)
    requires Answering(c, v) && s == Versioned(c, v) && l.ciphered
    ensures |MetServer(c, v).sourceSystemTitle| == 8
    ensures Fields(s, RespondingTitleBytes(v) + (RespondingInvocationBytes(v) + more), l, decipher) == Fields(MetServer(c, v), more, l, decipher)
  {
    hide Field;
    var t, u, s1 := RespondingTitleBytes(v), RespondingInvocationBytes(v), s.(sourceSystemTitle := Title(v));
    ReadsRespondingTitle(s, Title(v), u + more, l, decipher);
    OneField(s, t, u + more, l, decipher, s1, l);
    if v.userId == USER_ID_UNUSED {
      assert u + more == more;
    } else {
      ServerUserRead(s1, v.userId % 256, more, l, decipher);
      OneField(s1, u, more, l, decipher, MetServer(c, v), l);
    }
  }

  /** The bookkeeping of a ciphered context goes on as the fields come; a client does not look at it. */
  predicate SameButMissing(l: Locals, l1: Locals) { l1 == l.(missing := l1.missing) }

  lemma ServerChallengeRead(s: Settings, v: Settings, more: seq<Byte>, l: Locals, decipher: Decipher) returns (l1: Locals)
    requires |s.sourceSystemTitle| == 8 && !s.server && l.ciphered && v.authentication <= AUTH_LAST_KNOWN
    requires v.authentication > AUTH_LOW ==> |v.stoCChallenge| < 256
    ensures SameButMissing(l, l1)
    ensures |Challenged(s, v).sourceSystemTitle| == 8
    ensures Fields(s, ServerChallengeBytes(v) + more, l, decipher) == Fields(Challenged(s, v), more, l1, decipher)
  {
    hide Field, ServerChallengeBytes;
    l1 := l;
    if v.authentication > AUTH_LOW {
      var m, tail := [0x89, 7] + MECHANISM_OID + [v.authentication], ChallengeValueBytes(v) + more;
      var l2 := l.(missing := l.missing.(acse := false));
      ChallengeShape(v, more);
      ReadsAcseRequirements(s, 0x88, m + tail, l, decipher);
      OneField(s, [0x88, 2, 7, 0x80], m + tail, l, decipher, s, l2);
      l1 := l2.(missing := l2.missing.(mechanism := false));
      ReadsMechanism(s, 0x89, v.authentication, tail, l2, decipher);
      OneField(s, m, tail, l2, decipher, s.(authentication := v.authentication), l1);
      ChallengeValueStage(s.(authentication := v.authentication), v, more, l1, decipher);
    } else {
      NoChallenge(v);
      assert ServerChallengeBytes(v) + more == more;
    }
  }

  lemma NoChallenge(v: Settings)
    requires v.authentication <= AUTH_LOW
    ensures ServerChallengeBytes(v) == []
  {
  }

  // ---------- the user information ----------

  /** What the deciphered response leads to. */
  function ResponseRead(s: Settings, v: Settings, counter: nat, l: Locals): Progress {
    var d, k := SealedBody(v, counter), s.expectedCounter;
    if !Counts(s, k, d) then Return(Misfit(s, k, d), s, l)
    else if !TitleFits(s, d) then Return(InvalidDecipheringError, s.(expectedCounter := Moved(k, d)), l)
    else Next(AfterResponse(Opened(s, v, counter), v), [], l)
  }

  lemma ResponseBodyRead(s: Settings, v: Settings, l: Locals, command: Byte, encipher: Encipher, decipher: Decipher, counter: nat)
    requires !s.server && s.useLogicalNames == v.useLogicalNames && v.maxPduSize < 65536
    requires s.sourceSystemTitle == Title(v) && UndoesResponse(v, command, encipher, decipher, counter)
    ensures var bytes := SealedResponse(v, command, encipher);
            CipheredBody(s, bytes, l, decipher) == ResponseRead(s, v, counter, l.(command := bytes[0]))
  {
    hide CipheredBody, InitiateBody, Counts, TitleFits, Misfit, Moved, AfterResponse, InitiateResponseBytes, SealedResponse;
    var bytes := SealedResponse(v, command, encipher);
    BodyChecked(s, bytes, l, decipher);
    ReadsResponseBody(Opened(s, v, counter), v, [], l.(command := bytes[0]));
    assert InitiateResponseBytes(v) + [] == InitiateResponseBytes(v);
  }

  lemma ResponseReported(s: Settings, v: Settings, counter: nat, l: Locals)
    ensures Reported(ResponseRead(s, v, counter, l)) == ResponseRead(s, v, counter, l)
    ensures var p := ResponseRead(s, v, counter, l); p.Return? || p.rest == []
  {
    hide Counts, TitleFits, Moved, AfterResponse, Opened, Misfit;
    MisfitCodes(s, s.expectedCounter);
  }

  lemma ReadsResponse(s: Settings, v: Settings, l: Locals, command: Byte, encipher: Encipher, decipher: Decipher, counter: nat)
    requires !s.server && s.useLogicalNames == v.useLogicalNames && v.maxPduSize < 65536 && |s.sourceSystemTitle| == 8
    requires l.ciphered && l.result == ACCEPTED
    requires s.sourceSystemTitle == Title(v) && UndoesResponse(v, command, encipher, decipher, counter)
    ensures var bytes := SealedResponse(v, command, encipher);
            Fields(s, InformationBytes(bytes), l, decipher) == ResponseRead(s, v, counter, l.(command := bytes[0]))
  {
    hide CipheredBody, ResponseRead, Reported, SealedResponse, Field, UserInformation, UserInformationField;
    var bytes := SealedResponse(v, command, encipher);
    var x := [Lo(2 + |bytes|), 0x04, Lo(|bytes|)] + bytes;
    InformationParts(bytes);
    InformationTag(s, x, l, decipher);
    FieldReports(s, x, l, decipher);
    SealedHeader(s, bytes, l, decipher);
    ResponseBodyRead(s, v, l, command, encipher, decipher, counter);
    ResponseReported(s, v, counter, l.(command := bytes[0]));
    OnlyField(s, InformationBytes(bytes), l, decipher);
  }

  // ---------- the AARE ----------

  /** The user information of a ciphered AARE; a rejection has none. */
  function AnswerTail(v: Settings, result: Byte, command: Byte, encipher: Encipher): seq<Byte> {
    if result != ACCEPTED then [] else InformationBytes(SealedResponse(v, command, encipher))
  }

  lemma AnswerParts(v: Settings, result: Byte, diagnostic: Byte, e: seq<Byte>, answer: seq<Byte>, command: Byte, encipher: Encipher)
    requires IsCiphered(v) && NameBytes(v).Pdu? && Aare(v, result, diagnostic, e, command, encipher) == Pdu(answer)
    requires result == ACCEPTED ==> e == []
    ensures answer == Framed(0x61, NameBytes(v).bytes + (ResultBytes(result) + (DiagnosticBytes(diagnostic) + (RespondingTitleBytes(v)
                                   + (RespondingInvocationBytes(v) + (ServerChallengeBytes(v) + AnswerTail(v, result, command, encipher)))))))
  {
    hide NameBytes, ResultBytes, DiagnosticBytes, RespondingTitleBytes, RespondingInvocationBytes, ServerChallengeBytes, InformationBytes, Framed;
    hide InitiateResponseBytes, ResponseCommand;
    SevenRegrouped(NameBytes(v).bytes, ResultBytes(result), DiagnosticBytes(diagnostic), RespondingTitleBytes(v),
                   RespondingInvocationBytes(v), ServerChallengeBytes(v), AnswerTail(v, result, command, encipher));
  }

  lemma SevenRegrouped(a: seq<Byte>, b: seq<Byte>, c: seq<Byte>, d: seq<Byte>, e: seq<Byte>, f: seq<Byte>, g: seq<Byte>)
    ensures a + b + c + d + e + f + g == a + (b + (c + (d + (e + (f + g)))))
  {
  }

  /** The fields of the AARE as the client reads them. */
  lemma AnswerFieldsRead(c: Settings, v: Settings, result: Byte, diagnostic: Byte, l: Locals, tail: seq<Byte>, decipher: Decipher)
    returns (l1: Locals)
    requires Answering(c, v)
    ensures NameBytes(v).Pdu? && |Welcomed(c, v).sourceSystemTitle| == 8
    ensures SameButMissing(l.(ciphered := true, result := result, diagnostic := diagnostic % 0x80), l1)
    ensures Fields(c, NameBytes(v).bytes + (ResultBytes(result) + (DiagnosticBytes(diagnostic) + (RespondingTitleBytes(v)
                      + (RespondingInvocationBytes(v) + (ServerChallengeBytes(v) + tail))))), l, decipher)
         == Fields(Welcomed(c, v), tail, l1, decipher)
  {
    hide Field, Fields, NameBytes, ResultBytes, DiagnosticBytes, RespondingTitleBytes, RespondingInvocationBytes;
    hide ServerChallengeBytes, MetServer, Challenged;
    var x := ServerChallengeBytes(v) + tail;
    var y := RespondingTitleBytes(v) + (RespondingInvocationBytes(v) + x);
    AnswerNamesRead(c, v, ResultBytes(result) + (DiagnosticBytes(diagnostic) + y), l, decipher);
    var l2 := l.(ciphered := true, missing := ALL_MISSING);
    VerdictStage(Versioned(c, v), result, diagnostic, y, l2, decipher);
    var l3 := l2.(result := result, diagnostic := diagnostic % 0x80);
    TitleAndUserRead(Versioned(c, v), c, v, x, l3, decipher);
    MetStaysClient(c, v);
    l1 := ServerChallengeRead(MetServer(c, v), v, tail, l3, decipher);
  }

  lemma MetStaysClient(c: Settings, v: Settings)
    ensures var s := Welcomed(c, v);
            && s.server == c.server && MetServer(c, v).server == c.server && s.useLogicalNames == c.useLogicalNames && s.sourceSystemTitle == Title(v)
            && s.expectedCounter == c.expectedCounter && s.expectedPolicy == c.expectedPolicy && s.expectedSuite == c.expectedSuite
            && s.expectedClientTitle == c.expectedClientTitle && s.security == c.security
  {
  }

  /** The code with which the client ends that was rejected. */
  function RejectionCode(c: Settings, diagnostic: Byte): Code {
    if DiagnosticCode(diagnostic) != Ok then DiagnosticCode(diagnostic)
    else if c.expectedPolicy == 0xFF || c.security == 16 * c.expectedPolicy then Ok
    else InvalidDecipheringError
  }

  /** The code with which the client ends that was accepted. */
  function AcceptanceCode(c: Settings, v: Settings, diagnostic: Byte, counter: nat): Code {
    var d := SealedBody(v, counter);
    if !Counts(c, c.expectedCounter, d) then Misfit(c, c.expectedCounter, d)
    else if !TitleFits(c, d) then InvalidDecipheringError
    else DiagnosticCode(diagnostic)
  }

  lemma RejectionFinish(c: Settings, v: Settings, l: Locals)
    requires !c.server && l.result != ACCEPTED
    ensures Finish(Welcomed(c, v), l) == Outcome(RejectionCode(c, l.diagnostic), Welcomed(c, v), l)
  {
    hide Welcomed, DiagnosticCode;
    MetStaysClient(c, v);
  }

  lemma AcceptanceFinish(c: Settings, v: Settings, counter: nat, l: Locals)
    requires !c.server
    ensures var p := ResponseRead(Welcomed(c, v), v, counter, l);
            && AfterFields(p).code == AcceptanceCode(c, v, l.diagnostic, counter) && AfterFields(p).l == l
            && (p.Next? ==> p.s == AfterResponse(Opened(Welcomed(c, v), v, counter), v) && AfterFields(p).s == p.s)
  {
    hide Welcomed, DiagnosticCode, AfterResponse, Opened, Moved, Misfit, SuiteFits, CounterFits;
    MetStaysClient(c, v);
    SameFits(c, Welcomed(c, v), c.expectedCounter);
    OpenedKeeps(Welcomed(c, v), v, counter);
  }

  lemma OpenedKeeps(s: Settings, v: Settings, counter: nat)
    requires !s.server
    ensures var t := AfterResponse(Opened(s, v, counter), v);
            && t.server == s.server && t.expectedPolicy == s.expectedPolicy && t.security == v.security
            && t.negotiatedConformance == v.negotiatedConformance % 0x100_0000 && t.maxPduSize == v.maxPduSize
            && t.stoCChallenge == s.stoCChallenge && t.authentication == s.authentication && t.sourceSystemTitle == s.sourceSystemTitle
  {
  }

  /** The AARE of a ciphering server at a client whose deciphering undoes the ciphering: result and
      diagnostic come across always; a rejection has no user information and ends with the code of its
      diagnostic; an acceptance ends with success if the security, suite, counter and title of the response
      fit what the client expects, and then conformance and PDU size come across. */
  lemma CipheredAnswerRead(c: Settings, v: Settings, result: Byte, diagnostic: Byte, e: seq<Byte>, answer: seq<Byte>,
                           command: Byte, asked: Byte, decipher: Decipher, encipher: Encipher, counter: nat)
    requires Answering(c, v) && Aare(v, result, diagnostic, e, command, encipher) == Pdu(answer) && IsShort(answer)
    requires result == ACCEPTED ==> e == [] && UndoesResponse(v, command, encipher, decipher, counter)
    ensures var o := ParsePdu(c, answer, asked, decipher);
            && o.l.result == result && o.l.diagnostic == diagnostic % 0x80
            && (result != ACCEPTED ==> o.code == RejectionCode(c, diagnostic % 0x80) && o.s == Welcomed(c, v))
            && (result == ACCEPTED ==> o.code == AcceptanceCode(c, v, diagnostic % 0x80, counter))
            && (result == ACCEPTED && Counts(c, c.expectedCounter, SealedBody(v, counter)) && TitleFits(c, SealedBody(v, counter)) ==>
                  o.s == AfterResponse(Opened(Welcomed(c, v), v, counter), v))
  {
    hide Fields, ParsePdu, Framed, Aare, Welcomed, AnswerTail, NameBytes, ResultBytes, DiagnosticBytes, RespondingTitleBytes;
    hide RespondingInvocationBytes, ServerChallengeBytes, AfterResponse, Opened, RejectionCode, Finish, UndoesResponse;
    var l, tail := START.(command := asked), AnswerTail(v, result, command, encipher);
    var l1 := AnswerFieldsRead(c, v, result, diagnostic, l, tail, decipher);
    AnswerParts(v, result, diagnostic, e, answer, command, encipher);
    var body := NameBytes(v).bytes + (ResultBytes(result) + (DiagnosticBytes(diagnostic) + (RespondingTitleBytes(v)
                + (RespondingInvocationBytes(v) + (ServerChallengeBytes(v) + tail)))));
    FramedShort(0x61, body);
    ReadsFramed(c, body, asked, decipher);
    AnswerEnds(c, v, result, l1, tail, command, encipher, decipher, counter);
  }

  lemma AnswerEnds(c: Settings, v: Settings, result: Byte, l: Locals, tail: seq<Byte>, command: Byte,
                   encipher: Encipher, decipher: Decipher, counter: nat)
    requires Answering(c, v) && tail == AnswerTail(v, result, command, encipher) && l.result == result && l.ciphered
    requires result == ACCEPTED ==> UndoesResponse(v, command, encipher, decipher, counter)
    ensures |Welcomed(c, v).sourceSystemTitle| == 8
    ensures var o := AfterFields(Fields(Welcomed(c, v), tail, l, decipher));
            && o.l.result == result && o.l.diagnostic == l.diagnostic
            && (result != ACCEPTED ==> o.code == RejectionCode(c, l.diagnostic) && o.s == Welcomed(c, v))
            && (result == ACCEPTED ==> o.code == AcceptanceCode(c, v, l.diagnostic, counter))
            && (result == ACCEPTED && Counts(c, c.expectedCounter, SealedBody(v, counter)) && TitleFits(c, SealedBody(v, counter)) ==>
                  o.s == AfterResponse(Opened(Welcomed(c, v), v, counter), v))
  {
    hide Welcomed, AfterResponse, Opened, RejectionCode, Finish, UndoesResponse, InformationBytes, SealedResponse, Counts, TitleFits, Misfit, Moved;
    MetStaysClient(c, v);
    if result != ACCEPTED {
      RejectionFinish(c, v, l);
    } else {
      SealedNotEmpty(v, command, encipher, decipher, counter);
      var l1 := l.(command := SealedResponse(v, command, encipher)[0]);
      ReadsResponse(Welcomed(c, v), v, l, command, encipher, decipher, counter);
      AcceptanceFinish(c, v, counter, l1);
      FitsRead(c, v, counter, l1);
    }
  }

  lemma SealedNotEmpty(v: Settings, command: Byte, encipher: Encipher, decipher: Decipher, counter: nat)
    requires UndoesResponse(v, command, encipher, decipher, counter)
    ensures SealedResponse(v, command, encipher) != []
  {
  }

  lemma FitsRead(c: Settings, v: Settings, counter: nat, l: Locals)
    ensures Counts(c, c.expectedCounter, SealedBody(v, counter)) && TitleFits(c, SealedBody(v, counter))
            ==> ResponseRead(Welcomed(c, v), v, counter, l).Next?
  {
    hide Welcomed, Counts, TitleFits, AfterResponse, Opened;
    MetStaysClient(c, v);
    SameFits(c, Welcomed(c, v), c.expectedCounter);
  }
}
