/** A whole ciphered association: from a ciphering client's AARQ over the server's judgement to what the
    client makes of the answer. */
module CipheredHandshake {
  import opened Bytes
  import opened ApduTypes
  import opened ApduParsing
  import opened ApduPrinting
  import opened ApduAgreement
  import opened ApduCounters
  import opened ApduCiphered
  import opened ApduCipheredAnswer
  import opened AarqHandling

  /** The conformance both ends agree on; general protection may be among it. */
  function Common(c: Settings, v: Settings): nat { BitAnd(c.proposedConformance % 0x100_0000, v.proposedConformance) }

  /** The server has nothing against the association itself. */
  predicate SuitsSealed(c: Settings, v: Settings) {
    c.dlmsVersion >= 6 && c.maxPduSize >= 64 && v.maxServerPduSize >= 64 && Common(c, v) != 0
  }

  /** The client is let in. */
  predicate LetInSealed(c: Settings, v: Settings, found: Byte) { SuitsSealed(c, v) && found == 0 }

  /** The diagnostic that the client is told: 1 for an initiate error, else what was found, else 14 if the
      server asks for its own authentication. */
  function SealedVerdict(c: Settings, v: Settings, found: Byte): Byte {
    if !SuitsSealed(c, v) then 1 else if found != 0 then found else if c.authentication > 1 then 14 else 0
  }

  /** Result, diagnostic and error of the answer, and the settings it is printed with. */
  predicate IsSealedJudgement(c: Settings, v: Settings, found: Byte, challenge: Option<seq<Byte>>, j: Judgement, v1: Settings, counter: nat) {
    && j.result == (if LetInSealed(c, v, found) then 0 else 1) && j.diagnostic == SealedVerdict(c, v, found)
    && (j.result == 0 ==> j.error == [])
    && v1.server && v1.security == c.security && v1.suite == c.suite && v1.useLogicalNames == v.useLogicalNames && v1.systemTitle == v.systemTitle
    && v1.authentication == c.authentication && v1.maxPduSize < 65536
    && v1.sourceSystemTitle == Title(c) && (c.authentication > AUTH_LOW ==> v1.ctoSChallenge == c.ctoSChallenge)
    && v1.expectedCounter == (if v.expectedCounter.Some? then Some((counter + 1) % 0x1_0000_0000) else None)
    && (c.authentication > AUTH_LOW && challenge.Some? ==> v1.stoCChallenge == challenge.value)
    && (j.result == 0 ==> v1.negotiatedConformance == Common(c, v) && v1.maxPduSize == Least(c.maxPduSize, v.maxServerPduSize))
  }

  /** What the server makes of a request that its parser took. */
  lemma JudgedSealed(c: Settings, v: Settings, o: Outcome, found: Byte, challenge: Option<seq<Byte>>, counter: nat)
    requires CipheredPair(c, v) && Takes(c, v, counter) && WasAccepted(o) && o.s == SealedLearned(v, c, counter) && o.l.diagnostic == DIAGNOSTIC_NONE
    ensures IsSealedJudgement(c, v, found, challenge, Judge(o, found), Readied(o, found, challenge), counter)
  {
    hide SealedLearned, BitAnd, Takes, SuitsSealed, SealedVerdict, Title;
    LearnedKeeps(c, v, counter);
    JudgedParts(c, v, o.s, found);
    NamesKept(c, v, counter);
  }

  /** The judgement in terms of what the server learned. */
  lemma JudgedParts(c: Settings, v: Settings, s: Settings, found: Byte)
    requires s.dlmsVersion == c.dlmsVersion && s.maxPduSize == Least(c.maxPduSize, v.maxServerPduSize)
    requires s.negotiatedConformance == Common(c, v) && s.authentication == c.authentication
    ensures SuitsSealed(c, v) <==> s.dlmsVersion >= 6 && s.maxPduSize >= 64 && s.negotiatedConformance != 0
    ensures SealedVerdict(c, v, found)
         == if !(s.dlmsVersion >= 6 && s.maxPduSize >= 64 && s.negotiatedConformance != 0) then 1
            else if found != 0 then found else if s.authentication > AUTH_LOW then 14 else 0
  {
    hide Common;
  }

  lemma NamesKept(c: Settings, v: Settings, counter: nat)
    ensures var s := SealedLearned(v, c, counter); s.useLogicalNames == v.useLogicalNames && s.systemTitle == v.systemTitle
  {
    hide BitAnd, Moved, Title;
  }

  lemma Below24(c: Settings, v: Settings)
    ensures Common(c, v) % 0x100_0000 == Common(c, v)
  {
    BitAndBound(c.proposedConformance % 0x100_0000, v.proposedConformance);
  }

  /** What the server printed its answer from. */
  lemma ServerAnswers(c: Settings, v: Settings, request: seq<Byte>, challenge: Option<seq<Byte>>, found: Byte, v1: Settings,
                      answer: seq<Byte>, reading: Decipher, sealing: Encipher, counter: nat, replying: Encipher) returns (j: Judgement)
    requires CipheredPair(c, v) && Undoes(c, sealing, reading, counter)
    requires Takes(c, v, counter) && Aarq(c, sealing) == Pdu(request) && IsShort(request)
    requires Handle(v, request, challenge, found, reading, replying) == Answered(Pdu(answer), v1)
    ensures IsSealedJudgement(c, v, found, challenge, j, v1, counter) && c.authentication <= AUTH_LAST_KNOWN && Sealed(c, sealing) != []
    ensures Aare(v1, j.result, j.diagnostic, j.error, Sealed(c, sealing)[0], replying) == Pdu(answer)
    ensures v1.authentication > AUTH_LOW ==> v1.stoCChallenge != []
  {
    hide ParsePdu, Aarq, Aare, Judge, Readied, SealedLearned, Takes, IsSealedJudgement, InitiateRequestBytes;
    CipheredRoundTrip(c, v, request, 0, reading, sealing, counter);
    TakenEnds(c, v, counter);
    var o := ParsePdu(v, request, 0, reading);
    j := Judge(o, found);
    JudgedSealed(c, v, o, found, challenge, counter);
    TakesNamed(c, v, counter);
    ServesAnswer(c, v, found, challenge, j, v1, counter);
    ChallengeIsThere(v1, j, o.l.command, answer, replying);
  }

  lemma ServesAnswer(c: Settings, v: Settings, found: Byte, challenge: Option<seq<Byte>>, j: Judgement, v1: Settings, counter: nat)
    requires IsSealedJudgement(c, v, found, challenge, j, v1, counter)
    ensures v1.server
  {
  }

  /** A ciphered association whose request the parser takes: the client is let in if and only if its version
      is 6 or higher, both PDU sizes at least 64, a conformance bit common, and nothing found against its
      authentication; it is told the diagnostic of the first that is not, and nothing else.  Let in, the
      client ends with success if the response fits what it expects, and then both ends hold the same
      conformance, PDU size, mechanism, security and each other's challenge and title. */
  lemma CipheredAssociation(c: Settings, v: Settings, request: seq<Byte>, challenge: Option<seq<Byte>>, found: Byte, v1: Settings,
                            answer: seq<Byte>, told: Outcome, own: Byte, reading: Decipher, sealing: Encipher, counter: nat,
                            opening: Decipher, replying: Encipher, replied: nat)
    requires CipheredPair(c, v) && |c.sourceSystemTitle| == 8 && |v.systemTitle| >= 8 && Undoes(c, sealing, reading, counter)
    requires Takes(c, v, counter) && Aarq(c, sealing) == Pdu(request) && IsShort(request)
    requires Handle(v, request, challenge, found, reading, replying) == Answered(Pdu(answer), v1) && IsShort(answer)
    requires |v1.stoCChallenge| < 256
    requires LetInSealed(c, v, found) ==> UndoesResponse(v1, Sealed(c, sealing)[0], replying, opening, replied)
    requires told == ParsePdu(c, answer, own, opening)
    ensures told.l.result == if LetInSealed(c, v, found) then 0 else 1
    ensures told.l.diagnostic == SealedVerdict(c, v, found) % 0x80
    ensures !LetInSealed(c, v, found) ==> told.code == RejectionCode(c, SealedVerdict(c, v, found) % 0x80)
    ensures LetInSealed(c, v, found) ==> told.code == AcceptanceCode(c, v1, SealedVerdict(c, v, found), replied)
    ensures LetInSealed(c, v, found) && told.code == Ok ==>
              && told.s.negotiatedConformance == v1.negotiatedConformance == Common(c, v)
              && told.s.maxPduSize == v1.maxPduSize == Least(c.maxPduSize, v.maxServerPduSize)
              && told.s.security == v1.security == c.security
              && v1.sourceSystemTitle == Title(c) && told.s.sourceSystemTitle == Title(v)
              && (c.authentication > 1 ==> v1.ctoSChallenge == c.ctoSChallenge && told.s.stoCChallenge == v1.stoCChallenge)
              && told.s.authentication == v1.authentication == c.authentication
    ensures v.expectedCounter.Some? ==> v1.expectedCounter == Some((counter + 1) % 0x1_0000_0000)
    ensures c.authentication > 1 && challenge.Some? ==> v1.stoCChallenge == challenge.value
  {
    hide ParsePdu, Aarq, Aare, Handle, Takes, Undoes, UndoesResponse, SealedVerdict, SuitsSealed, Welcomed, AcceptanceCode, Sealed;
    hide RejectionCode, AfterResponse, Opened, Common, Title;
    var j := ServerAnswers(c, v, request, challenge, found, v1, answer, reading, sealing, counter, replying);
    CipheredAnswerRead(c, v1, j.result, j.diagnostic, j.error, answer, Sealed(c, sealing)[0], own, opening, replying, replied);
    VerdictShort(c, v, found);
    if LetInSealed(c, v, found) && told.code == Ok {
      AcceptedFits(c, v1, SealedVerdict(c, v, found), replied);
      AgreedSealed(c, v, v1, replied);
      TitleOf(v, v1);
    }
  }

  lemma TitleOf(v: Settings, v1: Settings)
    requires v1.systemTitle == v.systemTitle
    ensures Title(v1) == Title(v)
  {
  }

  /** What both ends hold once the response was opened. */
  lemma AgreedSealed(c: Settings, v: Settings, v1: Settings, replied: nat)
    requires !c.server && v1.negotiatedConformance == Common(c, v) && v1.authentication == c.authentication
    ensures var s := AfterResponse(Opened(Welcomed(c, v1), v1, replied), v1);
            && s.negotiatedConformance == Common(c, v) && s.maxPduSize == v1.maxPduSize && s.security == v1.security
            && s.sourceSystemTitle == Title(v1) && s.authentication == c.authentication
            && (c.authentication > AUTH_LOW ==> s.stoCChallenge == v1.stoCChallenge)
  {
    hide Welcomed, AfterResponse, Opened, Common, Title;
    WelcomedKeeps(c, v1);
    OpenedKeeps(Welcomed(c, v1), v1, replied);
    Below24(c, v);
  }

  /** A ciphered AARQ is answered with an exception exactly if its names and its secret fit but its body does
      not, and the exception is of the first thing that does not. */
  lemma ExceptionExactly(c: Settings, v: Settings, request: seq<Byte>, challenge: Option<seq<Byte>>, found: Byte,
                         reading: Decipher, sealing: Encipher, counter: nat, replying: Encipher)
    requires CipheredPair(c, v) && Undoes(c, sealing, reading, counter) && Aarq(c, sealing) == Pdu(request) && IsShort(request)
    ensures var h := Handle(v, request, challenge, found, reading, replying);
            && (h.Exception? <==> VersionFits(c) && NamesMechanism(c) && ValueFits(c) && !BodyFits(c, v, counter))
            && (h.Exception? ==> h.code == SealedCode(c, v, counter))
  {
    hide ParsePdu, Aarq, Aare, Judge, Readied, SealedLearned, InitiateRequestBytes, Undoes, CipheredPair, Counts, TitleFits, Misfit;
    CipheredRoundTrip(c, v, request, 0, reading, sealing, counter);
    MisfitCodes(v, v.expectedCounter);
  }

  lemma TakenEnds(c: Settings, v: Settings, counter: nat)
    requires Takes(c, v, counter)
    ensures SealedDiagnostic(c) == 0
  {
  }

  lemma TakesNamed(c: Settings, v: Settings, counter: nat)
    requires Takes(c, v, counter)
    ensures c.authentication <= AUTH_LAST_KNOWN
  {
  }

  lemma ChallengeIsThere(s: Settings, j: Judgement, command: Byte, answer: seq<Byte>, encipher: Encipher)
    requires s.server && Aare(s, j.result, j.diagnostic, j.error, command, encipher) == Pdu(answer)
    ensures s.authentication > AUTH_LOW ==> s.stoCChallenge != []
  {
  }

  lemma VerdictShort(c: Settings, v: Settings, found: Byte)
    ensures LetInSealed(c, v, found) ==> SealedVerdict(c, v, found) % 0x80 == SealedVerdict(c, v, found)
  {
  }

  lemma AcceptedFits(c: Settings, v: Settings, diagnostic: Byte, counter: nat)
    requires AcceptanceCode(c, v, diagnostic, counter) == Ok
    ensures Counts(c, c.expectedCounter, SealedBody(v, counter)) && TitleFits(c, SealedBody(v, counter))
  {
    MisfitCodes(c, c.expectedCounter);
  }

  lemma WelcomedKeeps(c: Settings, v: Settings)
    ensures var s := Welcomed(c, v);
            && s.server == c.server && s.sourceSystemTitle == Title(v)
            && (v.authentication > AUTH_LOW ==> s.stoCChallenge == v.stoCChallenge && s.authentication == v.authentication)
            && (v.authentication <= AUTH_LOW ==> s.authentication == c.authentication)
  {
  }
}
