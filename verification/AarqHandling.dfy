/** svr_HandleAarqRequest: the server parses an AARQ, judges it and prints its AARE; and the whole
    association, from the client's AARQ to what the client makes of the answer. */
module AarqHandling {
  import opened Bytes
  import opened ApduTypes
  import opened ApduParsing
  import opened ApduPrinting
  import opened ApduAgreement
  import ApduParser
  import ApduPrinter

  const DIAGNOSTIC_NO_REASON_GIVEN: Byte := 1
  const DIAGNOSTIC_AUTHENTICATION_REQUIRED: Byte := 14

  /** The kinds of an initiate error. */
  const INITIATE_OTHER: Byte := 0
  const DLMS_VERSION_TOO_LOW: Byte := 1
  const INCOMPATIBLE_CONFORMANCE: Byte := 2
  const PDU_SIZE_TOO_SHORT: Byte := 3

  /** The error bytes of a rejection at the initiate service. */
  function InitiateError(kind: Byte): seq<Byte> { [0x0E, 1, 6, kind] }

  /** The settings the server goes on with, and what goes into its AARE. */
  datatype Judgement = Judgement(s: Settings, result: Byte, diagnostic: Byte, error: seq<Byte>)

  function Rejection(s: Settings, kind: Byte): Judgement {
    Judgement(s, PERMANENT_REJECTED, DIAGNOSTIC_NO_REASON_GIVEN, InitiateError(kind))
  }

  /** The codes that are answered with an exception response instead of an AARE. */
  predicate Exceptional(code: Code) {
    code == InvocationCounterTooSmall || code == InvalidDecipheringError || code == InvalidSecuritySuite
  }

  predicate WasAccepted(o: Outcome) { o.code == Ok && o.l.result == ACCEPTED }

  /** What the server thinks of a parsed AARQ, if the validation of the authentication would find `found`. */
  function Judge(o: Outcome, found: Byte): Judgement {
    var s := o.s;
    if WasAccepted(o) then
      if s.dlmsVersion < 6 then Rejection(s.(dlmsVersion := 6), DLMS_VERSION_TOO_LOW)
      else if s.maxPduSize < 64 then Rejection(s.(maxPduSize := 64), PDU_SIZE_TOO_SHORT)
      else if s.negotiatedConformance == 0 then Rejection(s, INCOMPATIBLE_CONFORMANCE)
      else if o.l.diagnostic != DIAGNOSTIC_NONE then Judgement(s, PERMANENT_REJECTED, DIAGNOSTIC_CONTEXT_NOT_SUPPORTED, [])
      else if found != DIAGNOSTIC_NONE then Judgement(s, PERMANENT_REJECTED, found, [])
      else Judgement(s, ACCEPTED, if s.authentication > AUTH_LOW then DIAGNOSTIC_AUTHENTICATION_REQUIRED else DIAGNOSTIC_NONE, [])
    else if o.l.diagnostic == DIAGNOSTIC_NONE then Rejection(s, INITIATE_OTHER)
    else Judgement(s, o.l.result, o.l.diagnostic, [])
  }

  /** The settings the AARE is printed with: a new challenge, unless the server keeps its own, but only
      for an AARQ that the parser accepted. */
  function Readied(o: Outcome, found: Byte, challenge: Option<seq<Byte>>): Settings {
    var s := Judge(o, found).s;
    if WasAccepted(o) && s.authentication > AUTH_LOW && challenge.Some? then s.(stoCChallenge := challenge.value) else s
  }

  /** An exception response, or the printing of an AARE; and the settings of the server afterwards. */
  datatype Handled = Exception(code: Code, s: Settings) | Answered(aare: Printed, s: Settings)

  /** svr_HandleAarqRequest from its parse on, where `found` is what svr_validateAuthentication returns
      and `challenge` what dlms_generateChallenge makes, if the server has none of its own. */
  function Handle(v: Settings, request: seq<Byte>, challenge: Option<seq<Byte>>, found: Byte, decipher: Decipher, encipher: Encipher): Handled
    requires |v.sourceSystemTitle| == 8
  {
    var o := ParsePdu(v, request, 0, decipher);
    if Exceptional(o.code) then Exception(o.code, o.s)
    else
      var j, s := Judge(o, found), Readied(o, found, challenge);
      Answered(Aare(s, j.result, j.diagnostic, j.error, o.l.command, encipher), s)
  }

  // ---------- the method ----------

  /** The judgement as the code comes to it, changing the settings on its way. */
  method JudgeRequest(settings: DlmsSettings, ghost o: Outcome, code: Code, l: Locals, found: Byte)
    returns (result: Byte, diagnostic: Byte, error: seq<Byte>)
    requires o == Outcome(code, settings.View(), l)
    modifies settings
    ensures Judge(o, found) == Judgement(settings.View(), result, diagnostic, error)
  {
    result, diagnostic, error := l.result, l.diagnostic, [];
    if code == Ok && result == ACCEPTED {
      if settings.dlmsVersion < 6 {
        result, diagnostic, error := PERMANENT_REJECTED, DIAGNOSTIC_NO_REASON_GIVEN, [0x0E, 1, 6, DLMS_VERSION_TOO_LOW];
        settings.SetDlmsVersion(6);
      } else if settings.maxPduSize < 64 {
        result, diagnostic, error := PERMANENT_REJECTED, DIAGNOSTIC_NO_REASON_GIVEN, [0x0E, 1, 6, PDU_SIZE_TOO_SHORT];
        settings.SetMaxPduSize(64);
      } else if settings.negotiatedConformance == 0 {
        result, diagnostic, error := PERMANENT_REJECTED, DIAGNOSTIC_NO_REASON_GIVEN, [0x0E, 1, 6, INCOMPATIBLE_CONFORMANCE];
      } else if diagnostic != DIAGNOSTIC_NONE {
        result, diagnostic := PERMANENT_REJECTED, DIAGNOSTIC_CONTEXT_NOT_SUPPORTED;
      } else {
        diagnostic := found;
        if diagnostic != DIAGNOSTIC_NONE {
          result := PERMANENT_REJECTED;
        } else if settings.authentication > AUTH_LOW {
          diagnostic := DIAGNOSTIC_AUTHENTICATION_REQUIRED;
        }
      }
    } else if diagnostic == DIAGNOSTIC_NONE {
      result, diagnostic, error := PERMANENT_REJECTED, DIAGNOSTIC_NO_REASON_GIVEN, [0x0E, 1, 6, INITIATE_OTHER];
    }
  }

  /** The challenge, and the AARE printed into the cleared buffer. */
  method AnswerRequest(settings: DlmsSettings, data: ByteBuffer, llc: seq<Byte>, challenge: Option<seq<Byte>>, found: Byte,
                       ghost o: Outcome, parsed: Code, l: Locals, encipher: Encipher) returns (code: Code)
    requires o == Outcome(parsed, settings.View(), l)
    modifies settings, data
    ensures settings.View() == Readied(o, found, challenge)
    ensures var j := Judge(o, found);
            match Aare(settings.View(), j.result, j.diagnostic, j.error, l.command, encipher)
            case Failed(c) => code == c && code != Ok
            case Pdu(bytes) => code == Ok && data.data == llc + bytes
  {
    hide Aare, Judge, DlmsSettings.View;
    data.Exchange([]);
    var result, diagnostic, error := JudgeRequest(settings, o, parsed, l, found);
    settings.Shows();
    if parsed == Ok && l.result == ACCEPTED && settings.authentication > AUTH_LOW && challenge.Some? {
      settings.SetStoCChallenge(challenge.value);
    }
    data.Set(llc);
    code := ApduPrinter.GenerateAare(settings, data, result, diagnostic, error, l.command, encipher);
  }

  /** svr_HandleAarqRequest from its parse on.  The buffer holds the request, and then the answer behind
      the LLC bytes, if there are any; an exception response is left to the caller. */
  method HandleAarqRequest(settings: DlmsSettings, data: ByteBuffer, llc: seq<Byte>, challenge: Option<seq<Byte>>, found: Byte,
                           decipher: Decipher, encipher: Encipher) returns (exceptional: bool, code: Code)
    requires |settings.sourceSystemTitle| == 8
    modifies settings, data
    ensures match Handle(old(settings.View()), old(data.Rest()), challenge, found, decipher, encipher)
            case Exception(c, s) => exceptional && code == c && settings.View() == s
            case Answered(Failed(c), s) => !exceptional && code == c && code != Ok && settings.View() == s
            case Answered(Pdu(bytes), s) => !exceptional && code == Ok && settings.View() == s && data.data == llc + bytes
  {
    hide ParsePdu, Aare, Judge, Readied, DlmsSettings.View, ByteBuffer.Rest;
    var l;
    code, l := ApduParser.ParsePduBytes(settings, data, 0, decipher);
    ghost var o := Outcome(code, settings.View(), l);
    if code == InvocationCounterTooSmall || code == InvalidDecipheringError || code == InvalidSecuritySuite {
      return true, code;
    }
    code := AnswerRequest(settings, data, llc, challenge, found, o, code, l, encipher);
    return false, code;
  }

  // ---------- the association ----------

  /** The server has nothing against the association itself. */
  predicate Suits(c: Settings, v: Settings) {
    c.dlmsVersion >= 6 && Least(c.maxPduSize, v.maxServerPduSize) >= 64 && Agreed(c, v) != 0
  }

  /** The client is let in. */
  predicate LetIn(c: Settings, v: Settings, found: Byte) { Acceptable(v, c) && Suits(c, v) && found == DIAGNOSTIC_NONE }

  /** What the client is told: the first thing that stands against it. */
  function ToldCode(c: Settings, v: Settings, found: Byte): Code {
    if !VersionFits(c) then ApplicationContextNameNotSupported
    else if c.authentication > AUTH_LAST_KNOWN then NoReasonGiven
    else if !MechanismFits(v, c) then Ok
    else if !ValueFits(c) || !Suits(c, v) then NoReasonGiven
    else if found % 0x80 != 0 then DiagnosticCode(found % 0x80)
    else AnswerCode(c, DIAGNOSTIC_NONE)
  }

  /** A plain AARQ is answered with an exception exactly if all about it fits but the server expects
      ciphering, and with no AARE exactly if the server names a high mechanism and has no challenge. */
  lemma AnswerExists(c: Settings, v: Settings, request: seq<Byte>, challenge: Option<seq<Byte>>, found: Byte, decipher: Decipher, encipher: Encipher)
    requires PlainPair(c, v) && !IsCiphered(v) && Aarq(c, encipher) == Pdu(request) && IsShort(request)
    ensures var h := Handle(v, request, challenge, found, decipher, encipher);
            && (h.Exception? <==> VersionFits(c) && MechanismFits(v, c) && ValueFits(c) && !PolicyFits(v))
            && (h.Answered? ==> (h.aare.Failed? <==> h.s.authentication > AUTH_LOW && h.s.stoCChallenge == []))
  {
    hide ParsePdu, Aarq, Learned;
    AarqRoundTrip(c, v, request, 0, decipher, encipher);
    LearnedFields(c, v);
    var o := ParsePdu(v, request, 0, decipher);
    if !Exceptional(o.code) {
      var j := Judge(o, found);
      PlainAnswers(Readied(o, found, challenge), j.result, j.diagnostic, j.error, o.l.command, encipher);
    }
  }

  lemma PlainAnswers(s: Settings, result: Byte, diagnostic: Byte, e: seq<Byte>, command: Byte, encipher: Encipher)
    requires s.server && !IsCiphered(s)
    ensures Aare(s, result, diagnostic, e, command, encipher).Failed? <==> s.authentication > AUTH_LOW && s.stoCChallenge == []
  {
  }

  /** The diagnostic of a rejection without error bytes. */
  function RefusalDiagnostic(c: Settings, v: Settings, found: Byte): Byte {
    if !VersionFits(c) then DIAGNOSTIC_NO_COMMON_VERSION
    else if !MechanismFits(v, c) then DIAGNOSTIC_TITLE_NOT_RECOGNIZED
    else found
  }

  /** The settings a server answers with are plain, and its own but for what it learned. */
  predicate Keeps(v: Settings, v1: Settings) {
    && v1.server && !IsCiphered(v1) && v1.useLogicalNames == v.useLogicalNames && v1.systemTitle == v.systemTitle
    && (v.maxPduSize < 65536 ==> v1.maxPduSize < 65536)
    && (v.authentication <= AUTH_LAST_KNOWN ==> v1.authentication <= AUTH_LAST_KNOWN)
  }

  /** The parse failed, or something stands against the association itself: an initiate error. */
  predicate IsInitiateError(c: Settings, v: Settings) {
    VersionFits(c) && (c.authentication > AUTH_LAST_KNOWN || (MechanismFits(v, c) && (!ValueFits(c) || !Suits(c, v))))
  }

  /** Its kind: 1 for a version below 6, then 3 for a PDU size below 64, then 2 for no common conformance
      bit, and 0 for an AARQ that was not parsed to its end. */
  function ErrorKind(c: Settings, v: Settings): Byte {
    if c.authentication > AUTH_LAST_KNOWN || !ValueFits(c) then 0
    else if c.dlmsVersion < 6 then 1
    else if c.maxPduSize < 64 || v.maxServerPduSize < 64 then 3
    else 2
  }

  /** Result, diagnostic and error bytes of the answer, by what fits. */
  predicate IsJudgement(c: Settings, v: Settings, found: Byte, j: Judgement) {
    if LetIn(c, v, found) then
      j.result == 0 && j.error == [] && j.diagnostic == if Learned(v, c).authentication > 1 then 14 else 0
    else
      j.result == 1
      && if IsInitiateError(c, v) then j.diagnostic == 1 && j.error == [0x0E, 1, 6, ErrorKind(c, v)]
         else j.error == [] && j.diagnostic == RefusalDiagnostic(c, v, found)
  }

  lemma JudgedRefused(c: Settings, v: Settings, o: Outcome, found: Byte, challenge: Option<seq<Byte>>)
    requires PlainPair(c, v) && !IsCiphered(v) && o == AarqRead(v, c, START) && !(VersionFits(c) && MechanismFits(v, c) && ValueFits(c))
    ensures Keeps(v, Readied(o, found, challenge)) && IsJudgement(c, v, found, Judge(o, found))
  {
    hide Learned, Agreed, Suits;
  }

  lemma JudgedAccepted(c: Settings, v: Settings, o: Outcome, found: Byte, challenge: Option<seq<Byte>>)
    requires PlainPair(c, v) && !IsCiphered(v) && Acceptable(v, c) && o == Outcome(Ok, Learned(v, c), START)
    ensures Keeps(v, Readied(o, found, challenge)) && IsJudgement(c, v, found, Judge(o, found))
    ensures var v1, learned := Readied(o, found, challenge), Learned(v, c);
            && v1.authentication == learned.authentication && v1.password == learned.password
            && v1.ctoSChallenge == learned.ctoSChallenge && v1.sourceSystemTitle == learned.sourceSystemTitle
            && (LetIn(c, v, found) ==> v1.negotiatedConformance == Agreed(c, v) && v1.maxPduSize == Least(c.maxPduSize, v.maxServerPduSize))
            && v1.stoCChallenge == (if learned.authentication > AUTH_LOW && challenge.Some? then challenge.value else learned.stoCChallenge)
  {
    hide Learned, Agreed, VersionFits, MechanismFits, ValueFits, PolicyFits, RefusalDiagnostic;
    LearnedFields(c, v);
    LastOfDiagnostics(c, v, found);
  }

  lemma LastOfDiagnostics(c: Settings, v: Settings, found: Byte)
    requires Acceptable(v, c)
    ensures RefusalDiagnostic(c, v, found) == found && c.authentication <= AUTH_LAST_KNOWN
    ensures VersionFits(c) && MechanismFits(v, c) && ValueFits(c)
  {
  }

  /** The whole of a plain association: whatever the validation found, and whatever the AARQ is refused
      for.  The client is let in if and only if its AARQ is acceptable, its version is 6 or higher, the
      smaller PDU size at least 64, a conformance bit common and nothing found against its
      authentication; and it is told the first thing that stands against it, as far as its error codes
      go.  Let in, both ends hold the same conformance and PDU size.  Each end holds the other's
      challenge and title, and they name the same mechanism unless the client has none where the
      server was left at the low one. */
  lemma Handshake(c: Settings, v: Settings, request: seq<Byte>, challenge: Option<seq<Byte>>, found: Byte, v1: Settings,
                  answer: seq<Byte>, told: Outcome, own: Byte, decipher: Decipher, encipher: Encipher)
    requires PlainPair(c, v) && !IsCiphered(v) && v.authentication <= AUTH_LAST_KNOWN && v.maxPduSize < 65536
    requires Aarq(c, encipher) == Pdu(request) && IsShort(request)
    requires Handle(v, request, challenge, found, decipher, encipher) == Answered(Pdu(answer), v1) && IsShort(answer)
    requires (v1.authentication == AUTH_HIGH_GMAC ==> |v.systemTitle| >= 8) && |v1.stoCChallenge| < 256
    requires told == ParsePdu(c, answer, own, decipher)
    ensures told.l.result == if LetIn(c, v, found) then ACCEPTED else PERMANENT_REJECTED
    ensures told.code == ToldCode(c, v, found)
    ensures LetIn(c, v, found) ==> told.s.negotiatedConformance == v1.negotiatedConformance == Agreed(c, v)
    ensures LetIn(c, v, found) ==> told.s.maxPduSize == v1.maxPduSize == Least(c.maxPduSize, v.maxServerPduSize)
    ensures v1.authentication > AUTH_LOW ==> told.s.stoCChallenge == v1.stoCChallenge != []
    ensures Acceptable(v, c) ==>
              && (v1.authentication > AUTH_LOW && challenge.Some? ==> v1.stoCChallenge == challenge.value)
              && (c.authentication > AUTH_LOW ==> v1.ctoSChallenge == c.ctoSChallenge)
              && (c.authentication == AUTH_LOW ==> v1.password == c.password)
              && (c.authentication == AUTH_HIGH_GMAC ==>
                    v1.sourceSystemTitle == Take(c.systemTitle, 8) && told.s.sourceSystemTitle == Take(v.systemTitle, 8))
              && (told.s.authentication == v1.authentication <==> !(c.authentication == AUTH_NONE && v.authentication == AUTH_LOW))
  {
    hide ParsePdu, Aarq, Aare, Learned, Introduced, AfterResponse, Agreed, Judge, Readied, ResponseInformationBytes, AarqRead, Suits, ErrorKind;
    AarqRoundTrip(c, v, request, 0, decipher, encipher);
    LearnedFields(c, v);
    var o := AarqRead(v, c, START);
    var j := Judge(o, found);
    if Acceptable(v, c) { JudgedAccepted(c, v, o, found, challenge); } else { JudgedOther(c, v, o, found, challenge); }
    AareAnswers(v1, j, o.l.command, answer, encipher);
    AareRoundTrip(c, v1, j.result, j.diagnostic, j.error, answer, o.l.command, own, decipher, encipher);
    AnsweredFields(c, v1);
    if LetIn(c, v, found) {
      AgreedBits(c, v, 0);
      AnsweredFully(c, v1);
    }
  }

  lemma JudgedOther(c: Settings, v: Settings, o: Outcome, found: Byte, challenge: Option<seq<Byte>>)
    requires PlainPair(c, v) && !IsCiphered(v) && !Acceptable(v, c) && o == AarqRead(v, c, START) && !Exceptional(o.code)
    ensures Keeps(v, Readied(o, found, challenge)) && IsJudgement(c, v, found, Judge(o, found))
    ensures !(VersionFits(c) && MechanismFits(v, c) && ValueFits(c))
  {
    hide Judge, Readied, IsJudgement, Learned, Named;
    JudgedRefused(c, v, o, found, challenge);
  }

  lemma AareAnswers(s: Settings, j: Judgement, command: Byte, answer: seq<Byte>, encipher: Encipher)
    requires s.server && !IsCiphered(s) && Aare(s, j.result, j.diagnostic, j.error, command, encipher) == Pdu(answer)
    ensures s.authentication > AUTH_LOW ==> s.stoCChallenge != []
  {
    PlainAnswers(s, j.result, j.diagnostic, j.error, command, encipher);
  }

  /** The user information of the answer to such an AARQ holds the error of its kind, and ends the answer. */
  lemma InitiateErrorIsSent(c: Settings, v: Settings, request: seq<Byte>, challenge: Option<seq<Byte>>, found: Byte, v1: Settings,
                            answer: seq<Byte>, decipher: Decipher, encipher: Encipher)
    requires PlainPair(c, v) && !IsCiphered(v) && v.maxPduSize < 65536 && PolicyFits(v)
    requires Aarq(c, encipher) == Pdu(request) && IsShort(request) && IsInitiateError(c, v)
    requires Handle(v, request, challenge, found, decipher, encipher) == Answered(Pdu(answer), v1)
    ensures |answer| >= 8 && answer[|answer| - 8..] == [0xBE, 6, 4, 4, 0x0E, 1, 6, ErrorKind(c, v)]
  {
    hide ParsePdu, Aarq, Aare, Learned, Agreed, Judge, Readied, AarqRead, Suits, ErrorKind, IsInitiateError;
    AarqRoundTrip(c, v, request, 0, decipher, encipher);
    LearnedFields(c, v);
    var o := AarqRead(v, c, START);
    var j := Judge(o, found);
    if Acceptable(v, c) { JudgedAccepted(c, v, o, found, challenge); } else { JudgedOther(c, v, o, found, challenge); }
    InitiateErrorShuts(c, v, found);
    ErrorEndsAnswer(v1, j, o.l.command, answer, encipher, ErrorKind(c, v));
  }

  lemma InitiateErrorShuts(c: Settings, v: Settings, found: Byte)
    ensures IsInitiateError(c, v) ==> !LetIn(c, v, found)
  {
    hide Suits, VersionFits, ValueFits;
  }

  lemma ErrorEndsAnswer(s: Settings, j: Judgement, command: Byte, answer: seq<Byte>, encipher: Encipher, kind: Byte)
    requires !IsCiphered(s) && j.error == [0x0E, 1, 6, kind]
    requires Aare(s, j.result, j.diagnostic, j.error, command, encipher) == Pdu(answer)
    ensures |answer| >= 8 && answer[|answer| - 8..] == [0xBE, 6, 4, 4, 0x0E, 1, 6, kind]
  {
    hide NameBytes, ResultBytes, DiagnosticBytes, RespondingTitleBytes, RespondingInvocationBytes, ServerChallengeBytes;
    var information := [0xBE, 6, 4, 4, 0x0E, 1, 6, kind];
    assert InformationBytes(j.error) == information;
    assert NameBytes(s).Pdu?;
    var fields := NameBytes(s).bytes + ResultBytes(j.result) + DiagnosticBytes(j.diagnostic) + RespondingTitleBytes(s)
                  + RespondingInvocationBytes(s) + ServerChallengeBytes(s);
    assert answer == Framed(0x61, fields + information);
    LastOfFramed(0x61, fields, information);
  }

  lemma LastOfFramed(tag: Byte, fields: seq<Byte>, last: seq<Byte>)
    ensures var b := Framed(tag, fields + last); b[|b| - |last|..] == last
  {
  }

  // ---------- the password ----------

  /** svr_validateAuthentication of the example server: only the low mechanism is checked, against one
      secret. */
  function Validation(s: Settings, secret: seq<Byte>): Byte {
    if s.authentication == AUTH_LOW && s.password != secret then DIAGNOSTIC_AUTHENTICATION_FAILURE else DIAGNOSTIC_NONE
  }

  /** The password that is checked, if any: the client's, or the one a server at the low mechanism kept
      when the client named none. */
  predicate PasswordFits(c: Settings, v: Settings, secret: seq<Byte>) {
    && (c.authentication == AUTH_LOW ==> c.password == secret)
    && (c.authentication == AUTH_NONE && v.authentication == AUTH_LOW ==> v.password == secret)
  }

  /** With that validation a client whose AARQ is acceptable and suits is let in exactly if its password
      is the secret, and otherwise told that its authentication failed. */
  lemma PasswordDecides(c: Settings, v: Settings, request: seq<Byte>, challenge: Option<seq<Byte>>, secret: seq<Byte>, v1: Settings,
                        answer: seq<Byte>, told: Outcome, own: Byte, decipher: Decipher, encipher: Encipher)
    requires PlainPair(c, v) && !IsCiphered(v) && v.authentication <= AUTH_LAST_KNOWN && v.maxPduSize < 65536
    requires Acceptable(v, c) && Suits(c, v) && Aarq(c, encipher) == Pdu(request) && IsShort(request)
    requires Handle(v, request, challenge, Validation(Learned(v, c), secret), decipher, encipher) == Answered(Pdu(answer), v1) && IsShort(answer)
    requires (v1.authentication == AUTH_HIGH_GMAC ==> |v.systemTitle| >= 8) && |v1.stoCChallenge| < 256
    requires told == ParsePdu(c, answer, own, decipher)
    ensures told.l.result == if PasswordFits(c, v, secret) then ACCEPTED else PERMANENT_REJECTED
    ensures told.code == if PasswordFits(c, v, secret) then AnswerCode(c, DIAGNOSTIC_NONE) else AuthenticationFailure
  {
    hide ParsePdu, Aarq, Handle, Learned, PlainPair, Suits, IsShort;
    Handshake(c, v, request, challenge, Validation(Learned(v, c), secret), v1, answer, told, own, decipher, encipher);
    CheckedPassword(c, v);
  }

  lemma CheckedPassword(c: Settings, v: Settings)
    requires PlainPair(c, v) && Acceptable(v, c)
    ensures Learned(v, c).authentication == if c.authentication == AUTH_NONE then v.authentication else c.authentication
    ensures c.authentication == AUTH_LOW ==> Learned(v, c).password == c.password
    ensures c.authentication == AUTH_NONE ==> Learned(v, c).password == v.password
    ensures VersionFits(c) && MechanismFits(v, c) && ValueFits(c) && c.authentication <= AUTH_LAST_KNOWN
  {
  }
}
