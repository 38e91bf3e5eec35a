/** What the printed PDUs hold, plain or ciphered, for a reader of their elements that shares nothing with
    the printer; the order of the conformance bits; and which elements a server reads to their end. */
module ApduContents {
  import opened Bytes
  import opened Acse
  import opened ApduTypes
  import opened ApduParsing
  import opened ApduPrinting
  import opened ApduProgress
  import opened Helpers

  // ---------- the elements ----------

  function VersionElements(s: Settings): seq<Element> {
    if s.protocolVersion == 0 then [] else [Element(0x80, [2, s.protocolVersion])]
  }

  /** The object identifier of the context: 1 and 2 for long and short names, 3 and 4 if ciphered. */
  function ContextElements(s: Settings): seq<Element> {
    [Element(0xA1, [6, 7, 0x60, 0x85, 0x74, 5, 8, 1, (if s.useLogicalNames then 1 else 2) + if s.security != 0 then 2 else 0])]
  }

  /** A title of eight bytes under a tag, for the GMAC mechanism or if ciphered. */
  function TitleElements(s: Settings, tag: Byte): seq<Element> {
    if s.authentication == 5 || s.security != 0 then [Element(tag, [4, 8] + Take(s.systemTitle, 8))] else []
  }

  /** The user under a tag, if there is one and if ciphered. */
  function UserElements(s: Settings, tag: Byte): seq<Element> {
    if s.userId != -1 && s.security != 0 then [Element(tag, [2, 1, s.userId % 256])] else []
  }

  /** The requirement of authentication and the object identifier of the mechanism. */
  function MechanismElements(requirement: Byte, mechanism: Byte, authentication: Byte): seq<Element> {
    [Element(requirement, [7, 0x80]), Element(mechanism, [0x60, 0x85, 0x74, 5, 8, 2, authentication])]
  }

  function ValueElements(tag: Byte, secret: seq<Byte>): seq<Element> { [Element(tag, [0x80, Lo(|secret|)] + secret)] }

  /** A client names its mechanism unless it has none and is plain; the password is the secret of the low
      mechanism, the challenge that of the others. */
  function CallingElements(c: Settings): seq<Element> {
    (if c.authentication == 0 && c.security == 0 then [] else MechanismElements(0x8A, 0x8B, c.authentication))
    + if c.authentication == 0 then [] else ValueElements(0xAC, if c.authentication == 1 then c.password else c.ctoSChallenge)
  }

  /** A server names its mechanism and sends its challenge above the low one. */
  function ChallengeElements(v: Settings): seq<Element> {
    if v.authentication <= 1 then [] else MechanismElements(0x88, 0x89, v.authentication) + ValueElements(0xAA, v.stoCChallenge)
  }

  function InformationElements(body: seq<Byte>): seq<Element> { [Element(0xBE, [4, Lo(|body|)] + body)] }

  function Quality(s: Settings): seq<Byte> { if s.qualityOfService == 0 then [0] else [1, s.qualityOfService] }

  /** A size in sixteen bits, most significant byte first. */
  function SizeBytes(n: nat): seq<Byte> { [n / 256 % 256, n % 256] }

  /** The initiate request: a dedicated key of sixteen bytes if ciphered and there is one, no response flag,
      quality of service, version, the conformance block and the PDU size. */
  function InitiateRequest(c: Settings): seq<Byte> {
    [1] + (if c.security != 0 && c.dedicatedKey.Some? && |c.dedicatedKey.value| == 16 then [1, 16] + c.dedicatedKey.value else [0])
    + [0] + Quality(c) + [c.dlmsVersion, 0x5F, 0x1F, 4, 0] + ConformanceBytes(c.proposedConformance)
    + SizeBytes(c.maxPduSize)
  }

  /** The initiate response; the VAA name is 7 for long names and 0xFA00 for short ones. */
  function InitiateResponse(v: Settings): seq<Byte> {
    [8] + Quality(v) + [6, 0x5F, 0x1F, 4, 0] + ConformanceBytes(v.negotiatedConformance)
    + SizeBytes(v.maxPduSize) + if v.useLogicalNames then [0, 7] else [0xFA, 0]
  }

  /** An AARQ with some user information. */
  function RequestElements(c: Settings, information: seq<Byte>): seq<Element> {
    VersionElements(c) + ContextElements(c) + TitleElements(c, 0xA6) + UserElements(c, 0xA9) + CallingElements(c)
    + InformationElements(information)
  }

  /** The user information of an AARE; a ciphered rejection has none. */
  function AnswerInformation(v: Settings, result: Byte, information: seq<Byte>): seq<Element> {
    if result != 0 && v.security != 0 then [] else InformationElements(information)
  }

  function ResultElements(result: Byte): seq<Element> { [Element(0xA2, [2, 1, result])] }

  /** The diagnostic of the service user or, from 0x80 on, of its provider. */
  function DiagnosticElements(diagnostic: Byte): seq<Element> {
    [Element(0xA3, [if diagnostic < 0x80 then 0xA1 else 0xA2, 3, 2, 1, diagnostic % 0x80])]
  }

  /** An AARE with some user information. */
  function AnswerElements(v: Settings, result: Byte, diagnostic: Byte, information: seq<Byte>): seq<Element> {
    VersionElements(v) + ContextElements(v) + ResultElements(result) + DiagnosticElements(diagnostic) + TitleElements(v, 0xA4)
    + UserElements(v, 0xA7) + ChallengeElements(v) + AnswerInformation(v, result, information)
  }

  // ---------- the parts ----------

  lemma VersionHolds(s: Settings)
    ensures Holds(ProtocolVersionBytes(s), VersionElements(s))
  {
    HoldsElement(0x80, [2, s.protocolVersion]);
    assert [0x80, 2] + [2, s.protocolVersion] == [0x80, 2, 2, s.protocolVersion];
  }

  lemma ContextHolds(s: Settings)
    ensures Holds(ContextBytes(s), ContextElements(s))
  {
    hide Holds;
    var contents := [6, 7, 0x60, 0x85, 0x74, 5, 8, 1, (if s.useLogicalNames then 1 else 2) + if s.security != 0 then 2 else 0];
    HoldsElement(0xA1, contents);
    assert [0xA1, 9] + contents == ContextBytes(s);
  }

  lemma TitleHolds(title: seq<Byte>, tag: Byte)
    requires |title| == 8
    ensures Holds([tag, 0x0A, 0x04, 0x08] + title, [Element(tag, [4, 8] + title)])
  {
    hide Holds;
    HoldsElement(tag, [4, 8] + title);
    assert [tag, 10] + ([4, 8] + title) == [tag, 0x0A, 0x04, 0x08] + title;
  }

  lemma TitlesHold(s: Settings)
    ensures !s.server ==> Holds(CallingTitleBytes(s), TitleElements(s, 0xA6))
    ensures Holds(RespondingTitleBytes(s), TitleElements(s, 0xA4))
  {
    hide Holds, Take;
    NothingHolds();
    TitleHolds(Take(s.systemTitle, 8), 0xA6);
    TitleHolds(Take(s.systemTitle, 8), 0xA4);
  }

  lemma UserHolds(tag: Byte, user: Byte)
    ensures Holds([tag, 3, 2, 1, user], [Element(tag, [2, 1, user])])
  {
    hide Holds;
    HoldsElement(tag, [2, 1, user]);
    assert [tag, 3] + [2, 1, user] == [tag, 3, 2, 1, user];
  }

  lemma UsersHold(s: Settings)
    ensures !s.server ==> Holds(CallingInvocationBytes(s), UserElements(s, 0xA9))
    ensures Holds(RespondingInvocationBytes(s), UserElements(s, 0xA7))
  {
    hide Holds;
    NothingHolds();
    UserHolds(0xA9, s.userId % 256);
    UserHolds(0xA7, s.userId % 256);
  }

  lemma MechanismHolds(requirement: Byte, mechanism: Byte, authentication: Byte)
    ensures Holds([requirement, 2, 7, 0x80, mechanism, 7] + MECHANISM_OID + [authentication],
                  MechanismElements(requirement, mechanism, authentication))
  {
    hide Holds;
    var oid := [0x60, 0x85, 0x74, 5, 8, 2, authentication];
    HoldsElement(requirement, [7, 0x80]);
    HoldsElement(mechanism, oid);
    HoldsAppend([requirement, 2] + [7, 0x80], [Element(requirement, [7, 0x80])], [mechanism, 7] + oid, [Element(mechanism, oid)]);
    assert [requirement, 2] + [7, 0x80] + ([mechanism, 7] + oid)
           == [requirement, 2, 7, 0x80, mechanism, 7] + MECHANISM_OID + [authentication];
    assert [Element(requirement, [7, 0x80])] + [Element(mechanism, oid)] == [Element(requirement, [7, 0x80]), Element(mechanism, oid)];
  }

  lemma FourInFront(a: Byte, b: Byte, c: Byte, d: Byte, body: seq<Byte>)
    ensures [a, b] + ([c, d] + body) == [a, b, c, d] + body
  {
  }

  /** An element within an element. */
  lemma WithinHolds(tag: Byte, m: Byte, inner: Byte, n: Byte, body: seq<Byte>)
    requires m == 2 + |body| < 0x80
    ensures Holds([tag, m, inner, n] + body, [Element(tag, [inner, n] + body)])
  {
    hide Holds;
    HoldsElement(tag, [inner, n] + body);
    FourInFront(tag, m, inner, n, body);
  }

  lemma LengthIs(n: nat)
    requires n < 256
    ensures Lo(n) == n
  {
  }

  lemma WrappedHolds(tag: Byte, inner: Byte, body: seq<Byte>)
    requires |body| < 126
    ensures Holds([tag, Lo(2 + |body|), inner, Lo(|body|)] + body, [Element(tag, [inner, Lo(|body|)] + body)])
  {
    LengthIs(2 + |body|);
    hide *;
    WithinHolds(tag, Lo(2 + |body|), inner, Lo(|body|), body);
  }

  lemma InformationHolds(body: seq<Byte>)
    requires |body| < 126
    ensures Holds(InformationBytes(body), InformationElements(body))
  {
    hide Holds;
    WrappedHolds(0xBE, 4, body);
  }

  lemma InitiatesAre(s: Settings)
    ensures InitiateRequestBytes(s) == InitiateRequest(s) && InitiateResponseBytes(s) == InitiateResponse(s)
  {
    hide ConformanceBytes;
  }

  lemma PlainRequestSize(c: Settings)
    requires !IsCiphered(c) && c.qualityOfService == 0
    ensures |InitiateRequestBytes(c)| == 14
  {
    hide ConformanceBytes;
  }

  /** The constant lengths of a plain AARQ are right without a quality of service. */
  lemma PlainRequestIs(c: Settings)
    requires !IsCiphered(c) && c.qualityOfService == 0
    ensures RequestInformationBytes(c) == InformationBytes(InitiateRequest(c))
  {
    hide InitiateRequestBytes, InitiateRequest, InformationBytes;
    InitiatesAre(c);
    PlainRequestSize(c);
    FourteenBytes(InitiateRequest(c));
  }

  lemma FourteenBytes(body: seq<Byte>)
    requires |body| == 14
    ensures InformationBytes(body) == [0xBE, 0x10, 0x04, 0x0E] + body
  {
  }

  // ---------- what stands side by side ----------

  lemma NothingHolds()
    ensures Holds([], [])
  {
  }

  lemma NameHolds(s: Settings)
    ensures Holds(ProtocolVersionBytes(s) + ContextBytes(s), VersionElements(s) + ContextElements(s))
  {
    hide Holds, VersionElements, ContextElements, ProtocolVersionBytes, ContextBytes;
    VersionHolds(s);
    ContextHolds(s);
    HoldsAppend(ProtocolVersionBytes(s), VersionElements(s), ContextBytes(s), ContextElements(s));
  }

  lemma CallingMechanismHolds(c: Settings)
    ensures Holds(MechanismBytes(c), if c.authentication == 0 && c.security == 0 then [] else MechanismElements(0x8A, 0x8B, c.authentication))
  {
    hide Holds, MechanismElements;
    NothingHolds();
    MechanismHolds(0x8A, 0x8B, c.authentication);
  }

  lemma CallingValueHolds(c: Settings)
    requires c.authentication != 0 ==> |CallingValue(c)| < 126
    ensures Holds(CallingValueBytes(c),
                  if c.authentication == 0 then [] else ValueElements(0xAC, if c.authentication == 1 then c.password else c.ctoSChallenge))
  {
    hide Holds, Lo;
    NothingHolds();
    if c.authentication != 0 { WrappedHolds(0xAC, 0x80, CallingValue(c)); }
  }

  lemma CallingHolds(c: Settings)
    requires c.authentication != 0 ==> |CallingValue(c)| < 126
    ensures Holds(AuthenticationBytes(c), CallingElements(c))
  {
    hide Holds, MechanismElements, ValueElements, MechanismBytes, CallingValueBytes;
    CallingMechanismHolds(c);
    CallingValueHolds(c);
    HoldsAppend(MechanismBytes(c), if c.authentication == 0 && c.security == 0 then [] else MechanismElements(0x8A, 0x8B, c.authentication),
                CallingValueBytes(c),
                if c.authentication == 0 then [] else ValueElements(0xAC, if c.authentication == 1 then c.password else c.ctoSChallenge));
  }

  lemma TwoParts(a: seq<Byte>, b: seq<Byte>, c: seq<Byte>)
    ensures a + b + c == a + (b + c)
  {
  }

  lemma ChallengeHolds(v: Settings)
    requires v.authentication > 1 ==> |v.stoCChallenge| < 126
    ensures Holds(ServerChallengeBytes(v), ChallengeElements(v))
  {
    hide Holds, Lo, MechanismElements;
    if v.authentication <= 1 {
      NothingHolds();
    } else {
      var mechanism := [0x88, 2, 0x07, 0x80, 0x89, 7] + MECHANISM_OID + [v.authentication];
      var head := [0xAA, Lo(2 + |v.stoCChallenge|), 0x80, Lo(|v.stoCChallenge|)];
      MechanismHolds(0x88, 0x89, v.authentication);
      WrappedHolds(0xAA, 0x80, v.stoCChallenge);
      HoldsAppend(mechanism, MechanismElements(0x88, 0x89, v.authentication), head + v.stoCChallenge, ValueElements(0xAA, v.stoCChallenge));
      TwoParts(mechanism, head, v.stoCChallenge);
    }
  }

  lemma ServiceHolds(result: Byte, diagnostic: Byte)
    ensures Holds(ResultBytes(result), ResultElements(result)) && Holds(DiagnosticBytes(diagnostic), DiagnosticElements(diagnostic))
  {
    hide Holds;
    var contents := [if diagnostic < 0x80 then 0xA1 else 0xA2, 3, 2, 1, diagnostic % 0x80];
    HoldsElement(0xA2, [2, 1, result]);
    HoldsElement(0xA3, contents);
    assert [0xA2, 3] + [2, 1, result] == ResultBytes(result) && [0xA3, 5] + contents == DiagnosticBytes(diagnostic);
  }

  // ---------- the PDUs ----------

  /** The PDU is one element, and that holds the others. */
  predicate HoldsPdu(pdu: seq<Byte>, tag: Byte, es: seq<Element>) {
    |pdu| >= 2 && Holds(pdu, [Element(tag, pdu[2..])]) && Holds(pdu[2..], es)
  }

  /** It holds these elements and no others. */
  ghost predicate IsPdu(pdu: seq<Byte>, tag: Byte, es: seq<Element>) {
    HoldsPdu(pdu, tag, es) && forall fs :: HoldsPdu(pdu, tag, fs) ==> fs == es
  }

  lemma FramedHolds(tag: Byte, body: seq<Byte>, es: seq<Element>)
    requires |body| < 0x80 && Holds(body, es)
    ensures IsPdu(Framed(tag, body), tag, es)
  {
    hide Holds;
    HoldsElement(tag, body);
    assert Framed(tag, body) == [tag, |body|] + body && Framed(tag, body)[2..] == body;
    forall fs | HoldsPdu(Framed(tag, body), tag, fs)
      ensures fs == es
    {
      HoldsOne(body, fs, es);
    }
  }

  /** The bytes of an AARQ in front of its user information. */
  function RequestFields(c: Settings): seq<Byte> {
    ProtocolVersionBytes(c) + ContextBytes(c) + CallingTitleBytes(c) + CallingInvocationBytes(c) + AuthenticationBytes(c)
  }

  lemma RequestFieldsSize(c: Settings)
    ensures c.authentication != 0 ==> |RequestFields(c)| >= 4 + |CallingValue(c)|
  {
    hide ProtocolVersionBytes, CallingTitleBytes, CallingInvocationBytes, MechanismBytes;
  }

  lemma RequestFieldsHold(c: Settings, body: seq<Byte>)
    requires !c.server && |body| < 126 && (c.authentication != 0 ==> |CallingValue(c)| < 126)
    ensures Holds(RequestFields(c) + InformationBytes(body), RequestElements(c, body))
  {
    hide Holds, ProtocolVersionBytes, ContextBytes, CallingTitleBytes, CallingInvocationBytes, AuthenticationBytes, InformationBytes;
    hide VersionElements, ContextElements, TitleElements, UserElements, CallingElements, InformationElements;
    NameHolds(c);
    TitlesHold(c);
    UsersHold(c);
    CallingHolds(c);
    InformationHolds(body);
    var a, x := ProtocolVersionBytes(c) + ContextBytes(c), VersionElements(c) + ContextElements(c);
    HoldsAppend(a, x, CallingTitleBytes(c), TitleElements(c, 0xA6));
    var b, y := a + CallingTitleBytes(c), x + TitleElements(c, 0xA6);
    HoldsAppend(b, y, CallingInvocationBytes(c), UserElements(c, 0xA9));
    HoldsAppend(b + CallingInvocationBytes(c), y + UserElements(c, 0xA9), AuthenticationBytes(c), CallingElements(c));
    HoldsAppend(RequestFields(c), y + UserElements(c, 0xA9) + CallingElements(c), InformationBytes(body), InformationElements(body));
  }

  /** What an AARQ informs of: the initiate request itself or, ciphered, what the ciphering makes of it. */
  function Informed(plain: bool, command: Byte, body: seq<Byte>, encipher: Encipher): seq<Byte> {
    if plain then body else match encipher(command, body) case Ciphered(bytes) => bytes case NotCiphered(_) => []
  }

  lemma AarqIsFields(c: Settings, request: seq<Byte>, encipher: Encipher)
    requires !c.server && Aarq(c, encipher) == Pdu(request) && (IsCiphered(c) || c.qualityOfService == 0)
    ensures IsCiphered(c) ==> encipher(RequestCommand(c), InitiateRequest(c)).Ciphered?
    ensures request == Framed(0x60, RequestFields(c) + InformationBytes(Informed(!IsCiphered(c), RequestCommand(c), InitiateRequest(c), encipher)))
  {
    hide ProtocolVersionBytes, ContextBytes, CallingTitleBytes, CallingInvocationBytes, AuthenticationBytes, InformationBytes, Framed, RequestCommand;
    hide InitiateRequestBytes, InitiateRequest, RequestInformationBytes;
    InitiatesAre(c);
    if !IsCiphered(c) { PlainRequestIs(c); }
  }

  /** An AARQ of up to 129 bytes holds these elements and no others; a plain one only without a quality of
      service. */
  lemma AarqHolds(c: Settings, request: seq<Byte>, encipher: Encipher)
    requires !c.server && Aarq(c, encipher) == Pdu(request) && |request| < 130 && (IsCiphered(c) || c.qualityOfService == 0)
    ensures IsCiphered(c) ==> encipher(RequestCommand(c), InitiateRequest(c)).Ciphered?
    ensures IsPdu(request, 0x60, RequestElements(c, Informed(!IsCiphered(c), RequestCommand(c), InitiateRequest(c), encipher)))
  {
    hide Aarq, RequestFields, RequestElements, InitiateRequest, Holds, CallingValue, IsPdu, RequestCommand, Informed;
    var body := Informed(!IsCiphered(c), RequestCommand(c), InitiateRequest(c), encipher);
    AarqIsFields(c, request, encipher);
    RequestFieldsSize(c);
    RequestFieldsHold(c, body);
    FramedHolds(0x60, RequestFields(c) + InformationBytes(body), RequestElements(c, body));
  }

  /** The bytes of an AARE in front of its user information. */
  function AnswerFields(v: Settings, result: Byte, diagnostic: Byte): seq<Byte> {
    ProtocolVersionBytes(v) + ContextBytes(v) + ResultBytes(result) + DiagnosticBytes(diagnostic) + RespondingTitleBytes(v)
    + RespondingInvocationBytes(v) + ServerChallengeBytes(v)
  }

  lemma AnswerFieldsSize(v: Settings, result: Byte, diagnostic: Byte)
    ensures v.authentication > 1 ==> |AnswerFields(v, result, diagnostic)| >= 4 + |v.stoCChallenge|
  {
    hide ProtocolVersionBytes, RespondingTitleBytes, RespondingInvocationBytes, DiagnosticBytes, ResultBytes;
  }

  function AnswerInformationBytes(v: Settings, result: Byte, body: seq<Byte>): seq<Byte> {
    if result != 0 && v.security != 0 then [] else InformationBytes(body)
  }

  lemma AnswerInformationHolds(v: Settings, result: Byte, body: seq<Byte>)
    requires !(result != 0 && v.security != 0) ==> |body| < 126
    ensures Holds(AnswerInformationBytes(v, result, body), AnswerInformation(v, result, body))
  {
    hide Holds, InformationBytes, InformationElements;
    NothingHolds();
    if !(result != 0 && v.security != 0) { InformationHolds(body); }
  }

  lemma AnswerFieldsHold(v: Settings, result: Byte, diagnostic: Byte, body: seq<Byte>)
    requires !(result != 0 && v.security != 0) ==> |body| < 126
    requires v.authentication > 1 ==> |v.stoCChallenge| < 126
    ensures Holds(AnswerFields(v, result, diagnostic) + AnswerInformationBytes(v, result, body), AnswerElements(v, result, diagnostic, body))
  {
    hide Holds, ProtocolVersionBytes, ContextBytes, ResultBytes, DiagnosticBytes, RespondingTitleBytes, RespondingInvocationBytes;
    hide ServerChallengeBytes, AnswerInformationBytes;
    hide VersionElements, ContextElements, ResultElements, DiagnosticElements, TitleElements, UserElements, ChallengeElements, AnswerInformation;
    NameHolds(v);
    ServiceHolds(result, diagnostic);
    TitlesHold(v);
    UsersHold(v);
    ChallengeHolds(v);
    AnswerInformationHolds(v, result, body);
    var a, x := ProtocolVersionBytes(v) + ContextBytes(v), VersionElements(v) + ContextElements(v);
    HoldsAppend(a, x, ResultBytes(result), ResultElements(result));
    var b, y := a + ResultBytes(result), x + ResultElements(result);
    HoldsAppend(b, y, DiagnosticBytes(diagnostic), DiagnosticElements(diagnostic));
    var c, z := b + DiagnosticBytes(diagnostic), y + DiagnosticElements(diagnostic);
    HoldsAppend(c, z, RespondingTitleBytes(v), TitleElements(v, 0xA4));
    var d, w := c + RespondingTitleBytes(v), z + TitleElements(v, 0xA4);
    HoldsAppend(d, w, RespondingInvocationBytes(v), UserElements(v, 0xA7));
    HoldsAppend(d + RespondingInvocationBytes(v), w + UserElements(v, 0xA7), ServerChallengeBytes(v), ChallengeElements(v));
    HoldsAppend(AnswerFields(v, result, diagnostic), w + UserElements(v, 0xA7) + ChallengeElements(v),
                AnswerInformationBytes(v, result, body), AnswerInformation(v, result, body));
  }

  /** What an AARE informs of: the error if there is one, else the initiate response, plain or ciphered. */
  function AnswerInformed(v: Settings, error: seq<Byte>, command: Byte, encipher: Encipher): seq<Byte> {
    if error != [] then error else Informed(!IsCiphered(v), ResponseCommand(command), InitiateResponse(v), encipher)
  }

  lemma AnswerInformationIs(v: Settings, result: Byte, error: seq<Byte>, command: Byte, encipher: Encipher)
    requires ResponseInformation(v, result, error, command, encipher).Pdu?
    ensures IsCiphered(v) && result == 0 && error == [] ==> encipher(ResponseCommand(command), InitiateResponse(v)).Ciphered?
    ensures ResponseInformation(v, result, error, command, encipher)
         == Pdu(AnswerInformationBytes(v, result, AnswerInformed(v, error, command, encipher)))
  {
    hide InformationBytes, InitiateResponseBytes, InitiateResponse, ResponseCommand;
    InitiatesAre(v);
  }

  lemma AareIsFields(v: Settings, result: Byte, diagnostic: Byte, error: seq<Byte>, answer: seq<Byte>, command: Byte, encipher: Encipher)
    requires v.server && Aare(v, result, diagnostic, error, command, encipher) == Pdu(answer)
    ensures IsCiphered(v) && result == 0 && error == [] ==> encipher(ResponseCommand(command), InitiateResponse(v)).Ciphered?
    ensures answer == Framed(0x61, AnswerFields(v, result, diagnostic)
                                   + AnswerInformationBytes(v, result, AnswerInformed(v, error, command, encipher)))
  {
    hide ProtocolVersionBytes, ContextBytes, ResultBytes, DiagnosticBytes, RespondingTitleBytes, RespondingInvocationBytes;
    hide ServerChallengeBytes, Framed, InitiateResponse, ResponseCommand, ResponseInformation, AnswerInformationBytes, AnswerInformed;
    AnswerInformationIs(v, result, error, command, encipher);
    assert CallingTitleBytes(v) == [] && CallingInvocationBytes(v) == [];
    NoTitle(ProtocolVersionBytes(v) + ContextBytes(v));
  }

  lemma NoTitle(a: seq<Byte>)
    ensures a + [] + [] == a
  {
  }

  /** An AARE of up to 129 bytes holds these elements and no others, whatever the answer is. */
  lemma AareHolds(v: Settings, result: Byte, diagnostic: Byte, error: seq<Byte>, answer: seq<Byte>, command: Byte, encipher: Encipher)
    requires v.server && Aare(v, result, diagnostic, error, command, encipher) == Pdu(answer) && |answer| < 130
    ensures IsCiphered(v) && result == 0 && error == [] ==> encipher(ResponseCommand(command), InitiateResponse(v)).Ciphered?
    ensures IsPdu(answer, 0x61, AnswerElements(v, result, diagnostic, AnswerInformed(v, error, command, encipher)))
  {
    hide Aare, AnswerFields, AnswerElements, InitiateResponse, Holds, IsPdu, ResponseCommand, AnswerInformed;
    var body := AnswerInformed(v, error, command, encipher);
    AareIsFields(v, result, diagnostic, error, answer, command, encipher);
    AnswerFieldsSize(v, result, diagnostic);
    AnswerFieldsHold(v, result, diagnostic, body);
    FramedHolds(0x61, AnswerFields(v, result, diagnostic) + AnswerInformationBytes(v, result, body), AnswerElements(v, result, diagnostic, body));
  }

  // ---------- elements that a server passes ----------

  /** How many bytes of an element's contents a server takes: for some tags the contents say so in their
      second byte, for others the number is fixed, and only an unknown element is passed by its length. */
  function Assumed(e: Element): nat
    requires |e.contents| >= 2
  {
    if e.tag == 0xA1 then 9
    else if e.tag in {0xA2, 0xA3, 0xA4, 0xA6, 0xAA, 0xAC} then 2 + e.contents[1]
    else if e.tag in {0xA5, 0xA7, 0xA8, 0xA9} then 3
    else if e.tag in {0x8A, 0x88, 0x80} then 2
    else if e.tag in {0x8B, 0x89} then 7
    else |e.contents|
  }

  /** An element that a server reads without an error is read to its end exactly if its length is the one
      assumed, or if it is the last and shorter than that. */
  lemma ElementReadToEnd(s: Settings, b: seq<Byte>, e: Element, l: Locals, decipher: Decipher)
    requires s.server && |s.sourceSystemTitle| == 8 && Starts(b, e) && |e.contents| >= 2 && e.tag != 0xBE
    ensures var p, n := Field(s, b, l, decipher), |e.contents|;
            p.Next? ==> (p.rest == b[2 + n..] <==> Assumed(e) == n || (Assumed(e) > n && |b| == 2 + n))
  {
    hide Field, Assumed;
    FieldReadsOn(s, b, l, decipher);
    BehindElement(b, e);
    SkipAgrees(b, 2 + Assumed(e), 2 + |e.contents|);
  }

  lemma BehindElement(b: seq<Byte>, e: Element)
    requires Starts(b, e) && |e.contents| >= 2
    ensures Behind(b) == Skip(b, 2 + Assumed(e))
  {
    hide Skip;
    var x := b[1..];
    assert At(x, 0) == |e.contents| && At(x, 2) == e.contents[1];
    SkipsOn(b, 1, 1 + Assumed(e));
  }

  lemma SkipAgrees(b: seq<Byte>, n: nat, k: nat)
    requires k <= |b|
    ensures Skip(b, n) == b[k..] <==> n == k || (n > k && |b| == k)
  {
    if Skip(b, n) == b[k..] { assert |Skip(b, n)| == |b| - k; }
  }

  // ---------- the conformance bits ----------

  lemma {:induction false} BitOfShifted(v: nat, n: nat, i: nat)
    requires i < n
    ensures BitsOf(v, n)[i] <==> Shifted(v, i) % 2 == 1
    decreases n
  {
    if i > 0 { BitOfShifted(v / 2, n - 1, i - 1); }
  }

  /** The bits of a swapped byte from the other end. */
  lemma SwappedBit(b: Byte, i: nat)
    requires i < 8
    ensures Shifted(SwapBits(b), 7 - i) % 2 == Shifted(b, i) % 2
  {
    hide BitsOf, ValueOf, Reversed, Shifted;
    BitsOfValue(Reversed(BitsOf(b, 8)));
    BitOfShifted(SwapBits(b), 8, 7 - i);
    BitOfShifted(b, 8, i);
  }

  lemma Halves(x: nat, t: nat, r: nat)
    requires x == 2 * t + r
    ensures x / 2 == t + r / 2 && x % 2 == r % 2
  {
  }

  /** `q` doubled `n` times. */
  function Doubled(q: nat, n: nat): nat { if n == 0 then q else 2 * Doubled(q, n - 1) }

  lemma EightDoubled(q: nat)
    ensures Doubled(q, 8) == 256 * q
  {
    assert Doubled(q, 1) == 2 * q;
    assert Doubled(q, 3) == 8 * q;
    assert Doubled(q, 5) == 32 * q;
    assert Doubled(q, 7) == 128 * q;
  }

  /** The lowest bits of a number are those of what is left of it. */
  lemma {:induction false} LowBit(x: nat, q: nat, r: nat, n: nat, i: nat)
    requires x == Doubled(q, n) + r && i < n
    ensures Shifted(x, i) % 2 == Shifted(r, i) % 2
    decreases i
  {
    Halves(x, Doubled(q, n - 1), r);
    if i > 0 { LowBit(x / 2, q, r / 2, n - 1, i - 1); }
  }

  lemma {:induction false} ShiftedTwice(v: nat, i: nat, j: nat)
    ensures Shifted(Shifted(v, i), j) == Shifted(v, i + j)
    decreases i
  {
    if i > 0 { ShiftedTwice(v / 2, i - 1, j); }
  }

  lemma TwoShifted(v: nat)
    ensures Shifted(v, 2) == v / 4
  {
    assert Shifted(v / 2, 1) == Shifted(v / 2 / 2, 0);
  }

  lemma EightShifted(v: nat)
    ensures Shifted(v, 8) == v / 0x100
  {
    hide Shifted;
    TwoShifted(v);
    TwoShifted(v / 4);
    TwoShifted(v / 4 / 4);
    TwoShifted(v / 4 / 4 / 4);
    ShiftedTwice(v, 2, 2);
    ShiftedTwice(v, 4, 2);
    ShiftedTwice(v, 6, 2);
  }

  /** What is above the first `j` bytes. */
  lemma BytesShifted(v: nat)
    ensures Shifted(v, 0) == v && Shifted(v, 8) == v / 0x100 && Shifted(v, 16) == v / 0x10000
  {
    EightShifted(v);
    EightShifted(v / 0x100);
    ShiftedTwice(v, 8, 8);
  }

  /** The conformance bits are sent lowest byte first, and in each byte the lowest bit first: bit `k` of the
      byte `j` of the word is bit `7 - k` of the byte `j` that is sent. */
  lemma ConformanceBits(v: nat, j: nat, k: nat)
    requires j < 3 && k < 8
    ensures Shifted(ConformanceBytes(v)[j], 7 - k) % 2 == Shifted(v, 8 * j + k) % 2
  {
    hide SwapBits, Shifted;
    var x := if j == 0 then v else if j == 1 then v / 0x100 else v / 0x10000;
    assert ConformanceBytes(v)[j] == SwapBits(x % 256);
    SwappedBit(x % 256, k);
    EightDoubled(x / 256);
    LowBit(x, x / 256, x % 256, 8, k);
    BytesShifted(v);
    ShiftedTwice(v, 8 * j, k);
  }
}
