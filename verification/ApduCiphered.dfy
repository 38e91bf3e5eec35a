/** A ciphering client's AARQ at a server that deciphers what the client ciphered: who is taken, what is
    learned, and what every other one is refused for. */
module ApduCiphered {
  import opened Bytes
  import opened ApduTypes
  import opened ApduParsing
  import opened ApduPrinting
  import opened ApduAgreement
  import opened ApduProgress
  import opened ApduCounters

  /** The title of the client as eight bytes. */
  function Title(c: Settings): seq<Byte> { Take(c.systemTitle, 8) }

  /** What the ciphering made of the client's initiate request; nothing if it failed. */
  function Sealed(c: Settings, encipher: Encipher): seq<Byte> {
    match encipher(RequestCommand(c), InitiateRequestBytes(c)) case Ciphered(bytes) => bytes case NotCiphered(_) => []
  }

  /** Deciphering undoes the ciphering, under the title of the client, and tells the counter it was done with. */
  predicate Undoes(c: Settings, encipher: Encipher, decipher: Decipher, counter: nat) {
    var bytes := Sealed(c, encipher);
    0 < |bytes| < 254 && IsCipheringCommand(bytes[0])
    && decipher(Title(c), bytes) == Plain(c.security, c.suite, counter, InitiateRequestBytes(c))
  }

  /** A ciphering client and a server of the same naming. */
  predicate CipheredPair(c: Settings, v: Settings) {
    && !c.server && v.server && IsCiphered(c) && c.useLogicalNames == v.useLogicalNames
    && |v.sourceSystemTitle| == 8 && |c.systemTitle| >= 8
    && (c.authentication != AUTH_NONE ==> |CallingValue(c)| < 256)
    && c.maxPduSize < 65536 && v.maxServerPduSize < 65536
  }

  /** The client sends a dedicated key. */
  predicate HasKey(c: Settings) { c.dedicatedKey.Some? && |c.dedicatedKey.value| == 16 }

  /** A dedicated key is only taken under authentication and encryption. */
  predicate KeyFits(c: Settings) { HasKey(c) ==> c.security == 0x30 }

  // ---------- the initiate request in the clear ----------

  lemma ReadsKey(s: Settings, c: Settings, rest: seq<Byte>, l: Locals)
    requires IsCiphered(c) && l.ciphered && s.security == c.security
    ensures DedicatedKey(s, DedicatedKeyBytes(c) + rest, l)
         == if KeyFits(c) then Next(s.(dedicatedKey := if HasKey(c) then c.dedicatedKey else None), rest, l) else Return(InvalidParameter, s, l)
  {
    var b := DedicatedKeyBytes(c) + rest;
    if HasKey(c) {
      assert b[2..] == c.dedicatedKey.value + rest;
      TakeExact(c.dedicatedKey.value, rest);
    } else {
      assert b[1..] == rest;
    }
  }

  lemma ReadsNoResponse(s: Settings, rest: seq<Byte>, l: Locals)
    ensures ResponseAllowed(s, [0] + rest, l) == Next(s, rest, l)
  {
    assert ([0] + rest)[1..] == rest;
  }

  lemma InitiateShape(c: Settings)
    ensures InitiateRequestBytes(c)
         == [INITIATE_REQUEST]
            + (DedicatedKeyBytes(c) + ([0] + (QualityBytes(c) + ParameterBytes(c.dlmsVersion, c.proposedConformance, c.maxPduSize))))
  {
    hide DedicatedKeyBytes, QualityBytes, ConformanceBytes;
    SevenParts([INITIATE_REQUEST], DedicatedKeyBytes(c), [0], QualityBytes(c), [c.dlmsVersion, 0x5F, 0x1F, 0x04, 0x00],
               ConformanceBytes(c.proposedConformance), [Hi(c.maxPduSize), Lo(c.maxPduSize)]);
  }

  lemma SevenParts(h: seq<Byte>, d: seq<Byte>, r: seq<Byte>, q: seq<Byte>, x: seq<Byte>, c: seq<Byte>, p: seq<Byte>)
    ensures h + d + r + q + x + c + p == h + (d + (r + (q + (x + c + p))))
  {
  }

  /** The server's settings after it read the request of a ciphering client. */
  function AfterSealed(s: Settings, c: Settings): Settings {
    WithParameters(WithQuality(s.(dedicatedKey := if HasKey(c) then c.dedicatedKey else None), c),
                   c.dlmsVersion, c.proposedConformance, c.maxPduSize, true)
  }

  lemma ReadsSealedBody(s: Settings, c: Settings, l: Locals)
    requires s.server && IsCiphered(c) && l.ciphered && s.security == c.security && c.maxPduSize < 65536
    ensures InitiateBody(s, InitiateRequestBytes(c), l) == if KeyFits(c) then Next(AfterSealed(s, c), [], l) else Return(InvalidParameter, s, l)
  {
    hide DedicatedKey, ResponseAllowed, QualityOfService, Parameters, DedicatedKeyBytes, QualityBytes, ParameterBytes;
    hide InitiateRequestBytes, WithParameters, WithQuality;
    var tail := ParameterBytes(c.dlmsVersion, c.proposedConformance, c.maxPduSize);
    var s1 := s.(dedicatedKey := if HasKey(c) then c.dedicatedKey else None);
    InitiateShape(c);
    var b := [INITIATE_REQUEST] + (DedicatedKeyBytes(c) + ([0] + (QualityBytes(c) + tail)));
    assert b[1..] == DedicatedKeyBytes(c) + ([0] + (QualityBytes(c) + tail));
    ReadsKey(s, c, [0] + (QualityBytes(c) + tail), l);
    ReadsNoResponse(s1, QualityBytes(c) + tail, l);
    QualityRead(s1, c, tail, l);
    assert tail + [] == tail;
    QualityKeeps(s1, c);
    ReadsParameters(WithQuality(s1, c), c.dlmsVersion, c.proposedConformance, c.maxPduSize, [], l, false);
  }

  lemma QualityRead(s: Settings, c: Settings, more: seq<Byte>, l: Locals)
    ensures QualityOfService(s, QualityBytes(c) + more, l) == Next(WithQuality(s, c), more, l)
  {
    ReadsQuality(s, c, more, l);
  }

  lemma QualityKeeps(s: Settings, c: Settings)
    ensures WithQuality(s, c).server == s.server
  {
  }

  // ---------- the user information ----------

  /** The client's body as the server finds it deciphered. */
  function SealedBody(c: Settings, counter: nat): Body { Body(c.security, c.suite, counter, Title(c)) }

  /** The server's settings once the body was counted. */
  function Opened(s: Settings, c: Settings, counter: nat): Settings {
    s.(expectedCounter := Moved(s.expectedCounter, SealedBody(c, counter)), security := c.security, suite := c.suite)
  }

  /** What the deciphered body leads to, the first thing that does not fit first; `keyCode` is the code for a
      dedicated key that does not. */
  function BodyRead(s: Settings, c: Settings, counter: nat, l: Locals, keyCode: Code): Progress {
    var d, k := SealedBody(c, counter), s.expectedCounter;
    if !Counts(s, k, d) then Return(Misfit(s, k, d), s, l)
    else if !TitleFits(s, d) then Return(InvalidDecipheringError, s.(expectedCounter := Moved(k, d)), l)
    else if !KeyFits(c) then Return(keyCode, Opened(s, c, counter), l)
    else Next(AfterSealed(Opened(s, c, counter), c), [], l)
  }

  lemma SealedHeader(s: Settings, bytes: seq<Byte>, l: Locals, decipher: Decipher)
    requires 0 < |bytes| < 254 && IsCipheringCommand(bytes[0])
    ensures UserInformation(s, [Lo(2 + |bytes|), 0x04, Lo(|bytes|)] + bytes, l, decipher) == CipheredBody(s, bytes, l, decipher)
  {
    hide CipheredBody;
    var b := [Lo(2 + |bytes|), 0x04, Lo(|bytes|)] + bytes;
    assert b[3..] == bytes;
  }

  lemma SealedBodyRead(s: Settings, c: Settings, l: Locals, encipher: Encipher, decipher: Decipher, counter: nat)
    requires s.server && IsCiphered(c) && c.maxPduSize < 65536 && l.ciphered
    requires s.sourceSystemTitle == Title(c) && Undoes(c, encipher, decipher, counter)
    ensures var bytes := Sealed(c, encipher);
            CipheredBody(s, bytes, l, decipher) == BodyRead(s, c, counter, l.(command := bytes[0]), InvalidParameter)
  {
    hide CipheredBody, InitiateBody, Counts, TitleFits, Misfit, Moved, AfterSealed, InitiateRequestBytes, Sealed;
    var bytes := Sealed(c, encipher);
    BodyChecked(s, bytes, l, decipher);
    ReadsSealedBody(Opened(s, c, counter), c, l.(command := bytes[0]));
  }

  /** The user information with its tag; a key that does not fit is reported as a deciphering error. */
  lemma ReadsSealed(s: Settings, c: Settings, l: Locals, encipher: Encipher, decipher: Decipher, counter: nat)
    requires s.server && IsCiphered(c) && c.maxPduSize < 65536 && l.ciphered && l.result == ACCEPTED && |s.sourceSystemTitle| == 8
    requires s.sourceSystemTitle == Title(c) && Undoes(c, encipher, decipher, counter)
    ensures var bytes := Sealed(c, encipher);
            Field(s, InformationBytes(bytes), l, decipher) == BodyRead(s, c, counter, l.(command := bytes[0]), InvalidDecipheringError)
  {
    hide CipheredBody, BodyRead, Reported, Sealed, Field, UserInformation, UserInformationField;
    var bytes := Sealed(c, encipher);
    var x := [Lo(2 + |bytes|), 0x04, Lo(|bytes|)] + bytes;
    InformationParts(bytes);
    InformationTag(s, x, l, decipher);
    FieldReports(s, x, l, decipher);
    SealedHeader(s, bytes, l, decipher);
    SealedBodyRead(s, c, l, encipher, decipher, counter);
    BodyReported(s, c, counter, l.(command := bytes[0]));
  }

  lemma InformationParts(bytes: seq<Byte>)
    ensures InformationBytes(bytes) == [0xBE] + ([Lo(2 + |bytes|), 0x04, Lo(|bytes|)] + bytes)
  {
    hide Lo;
  }

  /** An outcome as the user information of a ciphered context reports it. */
  function Reported(p: Progress): Progress {
    match p case Next(_, _, _) => p case Return(code, s, l) => Return(UserInformationError(code, true), s, l)
  }

  lemma FieldReports(s: Settings, x: seq<Byte>, l: Locals, decipher: Decipher)
    requires l.result == ACCEPTED && l.ciphered
    ensures UserInformationField(s, x, l, decipher) == Reported(UserInformation(s, x, l, decipher))
  {
    hide UserInformation;
  }

  lemma BodyReported(s: Settings, c: Settings, counter: nat, l: Locals)
    ensures Reported(BodyRead(s, c, counter, l, InvalidParameter)) == BodyRead(s, c, counter, l, InvalidDecipheringError)
  {
    hide Counts, TitleFits, Moved, AfterSealed, Opened, Misfit;
    MisfitCodes(s, s.expectedCounter);
  }

  // ---------- the names and the secret ----------

  /** The server's settings when the names of the client were read. */
  function Met(v: Settings, c: Settings): Settings { Versioned(v, c).(security := SECURITY_NONE, sourceSystemTitle := Title(c)) }

  /** And when its secret was. */
  function Presented(v: Settings, c: Settings): Settings { Authenticated(Met(v, c).(authentication := c.authentication), c) }

  lemma UserStage(v: Settings, c: Settings, more: seq<Byte>, l: Locals, decipher: Decipher)
    requires |v.sourceSystemTitle| == 8
    ensures Fields(v, CallingInvocationBytes(c) + more, l, decipher) == Fields(v, more, l, decipher)
  {
    hide Field;
    var u := CallingInvocationBytes(c);
    if u == [] {
      assert u + more == more;
    } else {
      UserRead(v, u[4], more, l, decipher);
      assert u == [0xA9, 3, 2, 1, u[4]];
      OneField(v, u, more, l, decipher, v, l);
    }
  }

  lemma UserRead(v: Settings, user: Byte, more: seq<Byte>, l: Locals, decipher: Decipher)
    requires |v.sourceSystemTitle| == 8
    ensures Field(v, [0xA9, 3, 2, 1, user] + more, l, decipher) == Next(v, more, l)
  {
    var b := [0xA9, 3, 2, 1, user] + more;
    assert b[1..] == [3, 2, 1, user] + more;
    assert b[1..][4..] == more;
  }

  lemma NamesRead(v: Settings, c: Settings, more: seq<Byte>, l: Locals, decipher: Decipher)
    requires CipheredPair(c, v)
    ensures NameBytes(c).Pdu? && |Met(v, c).sourceSystemTitle| == 8
    ensures Fields(v, NameBytes(c).bytes + more, l, decipher)
         == if VersionFits(c) then Fields(Met(v, c), more, l.(ciphered := true, missing := ALL_MISSING), decipher)
            else Rejected(v, l, DIAGNOSTIC_NO_COMMON_VERSION)
  {
    hide Field, CallingInvocationBytes;
    var x, y, u := ContextBytes(c), CallingTitleBytes(c), CallingInvocationBytes(c);
    NameParts(c, more);
    VersionStage(v, c, x + (y + (u + more)), l, decipher);
    var v1, l1 := Versioned(v, c), l.(ciphered := true, missing := ALL_MISSING);
    var v2 := v1.(security := SECURITY_NONE);
    ReadsContext(v1, c, y + (u + more), l, decipher);
    OneField(v1, x, y + (u + more), l, decipher, v2, l1);
    ReadsCallingTitle(v2, Title(c), u + more, l1, decipher);
    OneField(v2, y, u + more, l1, decipher, Met(v, c), l1);
    UserStage(Met(v, c), c, more, l1, decipher);
  }

  lemma NameParts(c: Settings, more: seq<Byte>)
    requires NameBytes(c).Pdu?
    ensures NameBytes(c).bytes + more
         == ProtocolVersionBytes(c) + (ContextBytes(c) + (CallingTitleBytes(c) + (CallingInvocationBytes(c) + more)))
  {
    hide ProtocolVersionBytes, ContextBytes, CallingTitleBytes, CallingInvocationBytes;
    FiveParts(ProtocolVersionBytes(c), ContextBytes(c), CallingTitleBytes(c), CallingInvocationBytes(c), more);
  }

  lemma FiveParts(a: seq<Byte>, b: seq<Byte>, c: seq<Byte>, d: seq<Byte>, e: seq<Byte>)
    ensures a + b + c + d + e == a + (b + (c + (d + e)))
  {
  }

  /** The client names a mechanism the server knows, and for GMAC a title. */
  predicate NamesMechanism(c: Settings) { c.authentication <= AUTH_LAST_KNOWN && (c.authentication == AUTH_HIGH_GMAC ==> Title(c) != Zeros(8)) }

  /** What a ciphered context still lacks: a secret, if there is no mechanism. */
  function Lacking(c: Settings): Missing { Missing(false, false, c.authentication == AUTH_NONE) }

  /** What a mechanism or a secret that does not fit leads to. */
  function SecretRefusal(s: Settings, c: Settings, l: Locals): Progress {
    var s1, l1 := s.(authentication := c.authentication), l.(missing := l.missing.(acse := false));
    if c.authentication > AUTH_LAST_KNOWN then Return(InvalidTag, s, l1)
    else if !NamesMechanism(c) then Rejected(s1, l1, DIAGNOSTIC_TITLE_NOT_RECOGNIZED)
    else Return(InvalidParameter, s1, l1.(missing := l1.missing.(mechanism := false)))
  }

  lemma SecretStage(s: Settings, c: Settings, more: seq<Byte>, l: Locals, decipher: Decipher)
    requires s.server && s.sourceSystemTitle == Title(c) && |s.sourceSystemTitle| == 8 && IsCiphered(c)
    requires l.ciphered && l.missing == ALL_MISSING && (c.authentication != AUTH_NONE ==> |CallingValue(c)| < 256)
    ensures Fields(s, AuthenticationBytes(c) + more, l, decipher)
         == if NamesMechanism(c) && ValueFits(c)
            then Fields(Authenticated(s.(authentication := c.authentication), c), more, l.(missing := Lacking(c)), decipher)
            else SecretRefusal(s, c, l)
  {
    hide Field, CallingValueBytes, Title;
    var m, tail := [0x8B, 7] + MECHANISM_OID + [c.authentication], CallingValueBytes(c) + more;
    var l1 := l.(missing := l.missing.(acse := false));
    SecretParts(c, more);
    ReadsAcseRequirements(s, 0x8A, m + tail, l, decipher);
    OneField(s, [0x8A, 2, 7, 0x80], m + tail, l, decipher, s, l1);
    ReadsMechanism(s, 0x8B, c.authentication, tail, l1, decipher);
    if !NamesMechanism(c) {
      LastField(s, m, tail, l1, decipher);
    } else {
      var s1, l2 := s.(authentication := c.authentication), l1.(missing := l1.missing.(mechanism := false));
      OneField(s, m, tail, l1, decipher, s1, l2);
      SealedValueStage(s1, c, more, l2, decipher);
    }
  }

  lemma SecretParts(c: Settings, more: seq<Byte>)
    requires IsCiphered(c)
    ensures AuthenticationBytes(c) + more
         == [0x8A, 2, 7, 0x80] + (([0x8B, 7] + MECHANISM_OID + [c.authentication]) + (CallingValueBytes(c) + more))
  {
    hide CallingValueBytes;
    var m := [0x8B, 7] + MECHANISM_OID + [c.authentication];
    assert MechanismBytes(c) == [0x8A, 2, 7, 0x80] + m;
    ThreeParts([0x8A, 2, 7, 0x80], m, CallingValueBytes(c), more);
  }

  lemma ThreeParts(a: seq<Byte>, b: seq<Byte>, c: seq<Byte>, d: seq<Byte>)
    ensures (a + b) + c + d == a + (b + (c + d))
  {
  }

  lemma SealedValueStage(s: Settings, c: Settings, more: seq<Byte>, l: Locals, decipher: Decipher)
    requires |s.sourceSystemTitle| == 8 && s.authentication == c.authentication && l.ciphered
    requires l.missing == Missing(false, false, true) && (c.authentication != AUTH_NONE ==> |CallingValue(c)| < 256)
    ensures Fields(s, CallingValueBytes(c) + more, l, decipher)
         == if ValueFits(c) then Fields(Authenticated(s, c), more, l.(missing := Lacking(c)), decipher) else Return(InvalidParameter, s, l)
  {
    hide Field;
    if c.authentication == AUTH_NONE {
      assert CallingValueBytes(c) + more == more;
    } else {
      var value := CallingValue(c);
      ReadsCallingValue(s, value, Lo(2 + |value|), more, l, decipher);
      if ValueFits(c) {
        OneField(s, CallingValueBytes(c), more, l, decipher, Authenticated(s, c), l.(missing := Lacking(c)));
      } else {
        LastField(s, CallingValueBytes(c), more, l, decipher);
      }
    }
  }

  // ---------- the AARQ ----------

  /** The client's counter and all about its body fit what the server expects. */
  predicate BodyFits(c: Settings, v: Settings, counter: nat) {
    var d := SealedBody(c, counter);
    Counts(v, v.expectedCounter, d) && TitleFits(v, d) && KeyFits(c)
  }

  predicate Takes(c: Settings, v: Settings, counter: nat) {
    VersionFits(c) && NamesMechanism(c) && ValueFits(c) && BodyFits(c, v, counter)
  }

  /** The code of the parser, and the diagnostic if it rejects: the first thing that does not fit. */
  function SealedCode(c: Settings, v: Settings, counter: nat): Code {
    var d := SealedBody(c, counter);
    if !VersionFits(c) then Ok
    else if c.authentication > 6 then InvalidTag
    else if !NamesMechanism(c) then Ok
    else if !ValueFits(c) then InvalidParameter
    else if !Counts(v, v.expectedCounter, d) then Misfit(v, v.expectedCounter, d)
    else if !TitleFits(v, d) || !KeyFits(c) then InvalidDecipheringError
    else Ok
  }

  function SealedDiagnostic(c: Settings): Byte {
    if !VersionFits(c) then 0x82 else if c.authentication <= 6 && !NamesMechanism(c) then 3 else 0
  }

  /** The outcome by code, result and diagnostic. */
  predicate Ends(o: Outcome, code: Code, result: Byte, diagnostic: Byte) { o.code == code && o.l.result == result && o.l.diagnostic == diagnostic }

  lemma MetExpects(v: Settings, c: Settings, d: Body)
    ensures var s := Presented(v, c);
            && s.expectedCounter == v.expectedCounter && s.server == v.server && s.sourceSystemTitle == Title(c)
            && Counts(s, s.expectedCounter, d) == Counts(v, v.expectedCounter, d) && TitleFits(s, d) == TitleFits(v, d)
            && Misfit(s, s.expectedCounter, d) == Misfit(v, v.expectedCounter, d) && s.expectedPolicy == v.expectedPolicy
            && s.authentication == c.authentication
  {
  }

  /** The fields of the AARQ, up to the checks at its end. */
  lemma SealedFields(c: Settings, v: Settings, l: Locals, encipher: Encipher, decipher: Decipher, counter: nat)
    requires CipheredPair(c, v) && Undoes(c, encipher, decipher, counter) && l.result == ACCEPTED
    ensures NameBytes(c).Pdu?
    ensures var p := Fields(v, NameBytes(c).bytes + (AuthenticationBytes(c) + InformationBytes(Sealed(c, encipher))), l, decipher);
            var l1 := l.(ciphered := true, missing := ALL_MISSING);
            p == if !VersionFits(c) then Rejected(v, l, DIAGNOSTIC_NO_COMMON_VERSION)
                 else if !NamesMechanism(c) || !ValueFits(c) then SecretRefusal(Met(v, c), c, l1)
                 else BodyRead(Presented(v, c), c, counter, l1.(missing := Lacking(c), command := Sealed(c, encipher)[0]), InvalidDecipheringError)
  {
    hide Field, Fields, Sealed, BodyRead, InformationBytes, Authenticated, SecretRefusal, Rejected, NameBytes;
    hide AuthenticationBytes, InitiateRequestBytes;
    var information := InformationBytes(Sealed(c, encipher));
    InformationParts(Sealed(c, encipher));
    var l1 := l.(ciphered := true, missing := ALL_MISSING);
    NamesRead(v, c, AuthenticationBytes(c) + information, l, decipher);
    if VersionFits(c) {
      SecretStage(Met(v, c), c, information, l1, decipher);
      if NamesMechanism(c) && ValueFits(c) {
        MetExpects(v, c, SealedBody(c, counter));
        ReadsSealed(Presented(v, c), c, l1.(missing := Lacking(c)), encipher, decipher, counter);
        BodyReadEnds(Presented(v, c), c, counter, l1.(missing := Lacking(c), command := Sealed(c, encipher)[0]));
        OnlyField(Presented(v, c), information, l1.(missing := Lacking(c)), decipher);
      }
    }
  }

  lemma BodyReadEnds(s: Settings, c: Settings, counter: nat, l: Locals)
    ensures var p := BodyRead(s, c, counter, l, InvalidDecipheringError); p.Return? || p.rest == []
  {
  }

  lemma OnlyField(s: Settings, x: seq<Byte>, l: Locals, decipher: Decipher)
    requires |s.sourceSystemTitle| == 8 && x != []
    ensures var p := Field(s, x, l, decipher); p.Return? || p.rest == [] ==> Fields(s, x, l, decipher) == p
  {
    hide Field;
  }

  lemma SealedIsFramed(c: Settings, request: seq<Byte>, encipher: Encipher)
    requires IsCiphered(c) && NameBytes(c).Pdu? && Aarq(c, encipher) == Pdu(request)
    ensures request == Framed(0x60, NameBytes(c).bytes + (AuthenticationBytes(c) + InformationBytes(Sealed(c, encipher))))
  {
    hide NameBytes, AuthenticationBytes, InformationBytes, Framed, RequestCommand, InitiateRequestBytes;
    Associate(NameBytes(c).bytes, AuthenticationBytes(c), InformationBytes(Sealed(c, encipher)));
  }

  /** What a taken request leaves with the server. */
  function SealedLearned(v: Settings, c: Settings, counter: nat): Settings {
    AfterSealed(Opened(Presented(v, c), c, counter), c)
  }

  lemma SealedFinish(c: Settings, v: Settings, counter: nat, l: Locals)
    requires v.server && l.missing == Lacking(c) && l.result == ACCEPTED && l.diagnostic == DIAGNOSTIC_NONE && BodyFits(c, v, counter)
    ensures Finish(SealedLearned(v, c, counter), l) == Outcome(Ok, SealedLearned(v, c, counter), l)
  {
    LearnedKeeps(c, v, counter);
    hide SealedLearned;
  }

  /** The settings of a server that took the request, one by one. */
  lemma LearnedKeeps(c: Settings, v: Settings, counter: nat)
    requires v.server
    ensures var s := SealedLearned(v, c, counter);
            && s.server && s.security == c.security && s.suite == c.suite && s.authentication == c.authentication
            && s.expectedPolicy == v.expectedPolicy && s.sourceSystemTitle == Title(c)
            && s.expectedCounter == (if v.expectedCounter.Some? then Some((counter + 1) % 0x1_0000_0000) else None)
            && s.dedicatedKey == (if HasKey(c) then c.dedicatedKey else None)
            && (c.authentication == AUTH_LOW ==> s.password == c.password) && (c.authentication > AUTH_LOW ==> s.ctoSChallenge == c.ctoSChallenge)
            && s.dlmsVersion == c.dlmsVersion && s.maxPduSize == Least(c.maxPduSize, v.maxServerPduSize)
            && s.negotiatedConformance == BitAnd(c.proposedConformance % 0x100_0000, v.proposedConformance)
  {
    hide BitAnd;
  }

  /** A ciphering client's AARQ at a server whose deciphering undoes the ciphering: the server takes it if
      and only if version, mechanism, secret, security, suite, counter, title and dedicated key fit, and
      otherwise answers with the code or the diagnostic of the first that does not.  From a request it took
      it learned the client's security, suite, key, title and secret, it expects one more than the client's
      counter, and it granted the common conformance bits, general protection among them, and the smaller
      PDU size. */
  lemma CipheredRoundTrip(c: Settings, v: Settings, request: seq<Byte>, command: Byte, decipher: Decipher, encipher: Encipher, counter: nat)
    requires CipheredPair(c, v) && Undoes(c, encipher, decipher, counter)
    requires Aarq(c, encipher) == Pdu(request) && IsShort(request)
    ensures var o := ParsePdu(v, request, command, decipher);
            && (o.code == Ok && o.l.result == ACCEPTED <==> Takes(c, v, counter))
            && Ends(o, SealedCode(c, v, counter), if SealedDiagnostic(c) == 0 then 0 else 1, SealedDiagnostic(c))
            && (Takes(c, v, counter) ==> o.s == SealedLearned(v, c, counter) && o.l.command == Sealed(c, encipher)[0])
  {
    hide Fields, Field, ParsePdu, Sealed, BodyRead, InformationBytes, NameBytes, AuthenticationBytes, Framed, Aarq;
    hide SealedLearned, InitiateRequestBytes;
    var l := START.(command := command);
    SealedFields(c, v, l, encipher, decipher, counter);
    var body := NameBytes(c).bytes + (AuthenticationBytes(c) + InformationBytes(Sealed(c, encipher)));
    SealedIsFramed(c, request, encipher);
    FramedShort(0x60, body);
    ReadsFramed(v, body, command, decipher);
    if VersionFits(c) && NamesMechanism(c) && ValueFits(c) {
      SealedEnds(c, v, counter, l.(ciphered := true, missing := Lacking(c), command := Sealed(c, encipher)[0]));
    }
  }

  lemma SealedEnds(c: Settings, v: Settings, counter: nat, l: Locals)
    requires v.server && VersionFits(c) && NamesMechanism(c) && ValueFits(c)
    requires l.missing == Lacking(c) && l.result == ACCEPTED && l.diagnostic == DIAGNOSTIC_NONE
    ensures var o := AfterFields(BodyRead(Presented(v, c), c, counter, l, InvalidDecipheringError));
            && (o.code == Ok && o.l.result == ACCEPTED <==> BodyFits(c, v, counter))
            && Ends(o, SealedCode(c, v, counter), 0, 0)
            && (BodyFits(c, v, counter) ==> o == Outcome(Ok, SealedLearned(v, c, counter), l))
  {
    hide Counts, TitleFits, Finish, Presented, Opened, AfterSealed, Moved;
    MetExpects(v, c, SealedBody(c, counter));
    MisfitCodes(v, v.expectedCounter);
    if BodyFits(c, v, counter) { SealedFinish(c, v, counter, l); }
  }
}
