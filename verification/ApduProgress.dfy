/** What the fields of a PDU and the parts of its initiate request leave alone, whether they are read or
    not, and where the parser goes on behind them. */
module ApduProgress {
  import opened Bytes
  import opened ApduTypes
  import opened ApduParsing

  // ---------- what a field leaves alone ----------

  /** The naming and what is expected are untouched. */
  predicate Expects(s: Settings, t: Settings) {
    && t.useLogicalNames == s.useLogicalNames && t.expectedPolicy == s.expectedPolicy
    && t.expectedSuite == s.expectedSuite && t.expectedClientTitle == s.expectedClientTitle
  }

  /** A field that does not touch the counter; who leaves with success rejects. */
  predicate Tame(p: Progress, s: Settings, l: Locals) {
    && Expects(s, p.s) && p.s.expectedCounter == s.expectedCounter
    && (p.Return? && p.code == Ok ==> p.l.result != ACCEPTED)
    && (p.Next? && s.server ==> p.l.result == l.result)
  }

  lemma {:induction false} ExpectTame(s: Settings, l: Locals, b: seq<Byte>, i: nat, expected: seq<Byte>, code: Code)
    requires code != Ok
    ensures Tame(Expect(s, l, b, i, expected, code), s, l)
    ensures var p := Expect(s, l, b, i, expected, code); p.Next? ==> p.s == s && p.l == l && p.rest == Skip(b, i + |expected|)
    decreases |expected|
  {
    if expected != [] && i < |b| && b[i] == expected[0] { ExpectTame(s, l, b, i + 1, expected[1..], code); }
  }

  lemma ContextTame(s: Settings, b: seq<Byte>, l: Locals)
    ensures Tame(ContextField(s, b, l), s, l)
    ensures ContextField(s, b, l).Next? ==> ContextField(s, b, l).rest == Skip(b, 10)
  {
    hide Expect;
    var s1 := if s.server then s.(security := SECURITY_NONE) else s;
    ExpectTame(s1, l, b, 3, CONTEXT_OID, InvalidParameter);
  }

  lemma MechanismTame(s: Settings, b: seq<Byte>, l: Locals)
    ensures Tame(MechanismField(s, b, l), s, l)
    ensures MechanismField(s, b, l).Next? ==> MechanismField(s, b, l).rest == Skip(b, 8)
  {
    hide Expect;
    ExpectTame(s, l, b, 1, MECHANISM_OID, InvalidTag);
  }

  lemma TitlesTame(s: Settings, b: seq<Byte>, l: Locals)
    requires |s.sourceSystemTitle| == 8
    ensures Tame(RespondingTitleField(s, b, l), s, l) && Tame(CallingTitleField(s, b, l), s, l)
  {
  }

  lemma ServiceTame(s: Settings, b: seq<Byte>, l: Locals)
    ensures Tame(ResultField(s, b, l), s, l) && Tame(DiagnosticField(s, b, l), s, l)
  {
  }

  lemma InvocationTame(s: Settings, b: seq<Byte>, l: Locals)
    ensures Tame(CalledInvocationField(s, b, l), s, l) && Tame(RespondingInvocationField(s, b, l), s, l)
  {
  }

  lemma CallingTame(s: Settings, b: seq<Byte>, l: Locals)
    ensures Tame(CallingApInvocationField(s, b, l), s, l) && Tame(CallingInvocationField(s, b, l), s, l)
  {
  }

  lemma OthersTame(s: Settings, b: seq<Byte>, l: Locals)
    ensures Tame(ServerChallengeField(s, b, l), s, l) && Tame(AcseRequirementsField(s, b, l), s, l) && Tame(UnknownField(s, b, l), s, l)
  {
    hide Take;
  }

  lemma ValuesTame(s: Settings, b: seq<Byte>, l: Locals)
    ensures Tame(AuthenticationValueField(s, b, l), s, l) && Tame(ProtocolVersionField(s, b, l), s, l)
  {
    hide Take;
  }

  /** A body leaves what is expected alone, and never with success. */
  predicate Kept(p: Progress, s: Settings, l: Locals) {
    && Expects(s, p.s) && p.s.expectedCounter == s.expectedCounter
    && (p.Return? ==> p.code != Ok) && p.l.result == l.result && p.l.diagnostic == l.diagnostic
  }

  lemma PartsKept(s: Settings, b: seq<Byte>, l: Locals)
    ensures Kept(DedicatedKey(s, b, l), s, l) && Kept(ResponseAllowed(s, b, l), s, l) && Kept(QualityOfService(s, b, l), s, l)
  {
  }

  lemma BlockKept(s: Settings, b: seq<Byte>, l: Locals, response: bool)
    ensures Kept(ConformanceBlock(s, b, l, response), s, l)
  {
    hide ConformanceOf, Negotiated, GrantedPduSize, Word;
  }

  lemma ParametersKept(s: Settings, b: seq<Byte>, l: Locals, response: bool)
    ensures Kept(Parameters(s, b, l, response), s, l)
  {
    hide ConformanceBlock;
    if |b| >= 2 {
      var s1 := if s.server then s.(dlmsVersion := b[0]) else s;
      BlockKept(s1, if |b| > 2 && b[2] == 0x1F then b[3..] else b[2..], l, response);
    }
  }

  lemma QualityKept(s: Settings, b: seq<Byte>, l: Locals, response: bool)
    ensures var q := QualityOfService(s, b, l);
            Kept(q, s, l) && (q.Next? ==> Kept(Parameters(q.s, q.rest, q.l, response), s, l))
  {
    hide QualityOfService, Parameters;
    PartsKept(s, b, l);
    var q := QualityOfService(s, b, l);
    if q.Next? { ParametersKept(q.s, q.rest, q.l, response); }
  }

  lemma InitiateKept(s: Settings, b: seq<Byte>, l: Locals)
    ensures Kept(InitiateBody(s, b, l), s, l)
  {
    hide QualityOfService, DedicatedKey, ResponseAllowed, Parameters;
    if b != [] {
      QualityKept(s, b[1..], l, true);
      PartsKept(s, b[1..], l);
      var k := DedicatedKey(s, b[1..], l);
      if k.Next? {
        PartsKept(k.s, k.rest, k.l);
        var r := ResponseAllowed(k.s, k.rest, k.l);
        if r.Next? { QualityKept(r.s, r.rest, r.l, false); }
      }
    }
  }

  lemma InformationField(s: Settings, b: seq<Byte>, l: Locals, decipher: Decipher)
    requires b != [] && |s.sourceSystemTitle| == 8 && b[0] == 0xBE
    ensures Field(s, b, l, decipher) == UserInformationField(s, b[1..], l, decipher)
  {
    hide ContextField, ResultField, DiagnosticField, RespondingTitleField, CalledInvocationField, CallingTitleField, RespondingInvocationField;
    hide CallingApInvocationField, CallingInvocationField, ServerChallengeField, AcseRequirementsField, MechanismField, AuthenticationValueField;
    hide UserInformationField, ProtocolVersionField, UnknownField;
  }

  lemma FieldTame(s: Settings, b: seq<Byte>, l: Locals, decipher: Decipher)
    requires b != [] && |s.sourceSystemTitle| == 8 && b[0] != 0xBE
    ensures Tame(Field(s, b, l, decipher), s, l)
  {
    hide ContextField, ResultField, DiagnosticField, RespondingTitleField, CalledInvocationField, CallingTitleField, RespondingInvocationField;
    hide CallingApInvocationField, CallingInvocationField, ServerChallengeField, AcseRequirementsField, MechanismField, AuthenticationValueField;
    hide UserInformationField, ProtocolVersionField, UnknownField, Tame;
    var x := b[1..];
    ContextTame(s, x, l);
    MechanismTame(s, x, l);
    TitlesTame(s, x, l);
    ServiceTame(s, x, l);
    InvocationTame(s, x, l);
    CallingTame(s, x, l);
    OthersTame(s, x, l);
    ValuesTame(s, x, l);
  }

  // ---------- where the parser goes on ----------

  /** What a server reads on with behind a field, whatever its settings: one, two or three bytes say how
      much is skipped, or their number is fixed. */
  function Behind(b: seq<Byte>): seq<Byte>
    requires b != []
  {
    var tag, x := b[0], b[1..];
    if tag == 0xA1 then Skip(x, 10)
    else if tag in {0xA2, 0xA3, 0xA4, 0xA6, 0xAA, 0xAC} then Skip(x, 3 + At(x, 2))
    else if tag in {0xA5, 0xA7, 0xA8, 0xA9} then Skip(x, 4)
    else if tag in {0x8A, 0x88, 0x80} then Skip(x, 3)
    else if tag in {0x8B, 0x89} then Skip(x, 8)
    else Skip(x, 1 + At(x, 0))
  }

  lemma SkipsOn(b: seq<Byte>, n: nat, k: nat)
    requires n <= |b|
    ensures Skip(b[n..], k) == Skip(b, n + k)
  {
  }

  lemma TitlesReadOn(s: Settings, b: seq<Byte>, l: Locals)
    requires s.server && |s.sourceSystemTitle| == 8
    ensures RespondingTitleField(s, b, l).Next? ==> RespondingTitleField(s, b, l).rest == Skip(b, 3 + At(b, 2))
    ensures CallingTitleField(s, b, l).Next? ==> CallingTitleField(s, b, l).rest == Skip(b, 3 + At(b, 2))
  {
    hide Overlay;
    if |b| >= 3 { SkipsOn(b, 3, b[2]); }
  }

  lemma ServiceReadsOn(s: Settings, b: seq<Byte>, l: Locals)
    requires s.server
    ensures ResultField(s, b, l).Next? ==> ResultField(s, b, l).rest == Skip(b, 3 + At(b, 2))
    ensures DiagnosticField(s, b, l).Next? ==> DiagnosticField(s, b, l).rest == Skip(b, 3 + At(b, 2))
  {
    if |b| >= 3 { SkipsOn(b, 3, b[2]); }
  }

  lemma ValuesReadOn(s: Settings, b: seq<Byte>, l: Locals)
    ensures ServerChallengeField(s, b, l).Next? ==> ServerChallengeField(s, b, l).rest == Skip(b, 3 + At(b, 2))
    ensures AuthenticationValueField(s, b, l).Next? ==> AuthenticationValueField(s, b, l).rest == Skip(b, 3 + At(b, 2))
  {
    hide Take;
    if |b| >= 3 { SkipsOn(b, 3, b[2]); }
  }

  lemma InvocationsReadOn(s: Settings, b: seq<Byte>, l: Locals)
    ensures CalledInvocationField(s, b, l).Next? ==> CalledInvocationField(s, b, l).rest == Skip(b, 4)
    ensures RespondingInvocationField(s, b, l).Next? ==> RespondingInvocationField(s, b, l).rest == Skip(b, 4)
    ensures CallingApInvocationField(s, b, l).Next? ==> CallingApInvocationField(s, b, l).rest == Skip(b, 4)
    ensures CallingInvocationField(s, b, l).Next? ==> CallingInvocationField(s, b, l).rest == Skip(b, 4)
  {
  }

  lemma ShortsReadOn(s: Settings, b: seq<Byte>, l: Locals)
    ensures AcseRequirementsField(s, b, l).Next? ==> AcseRequirementsField(s, b, l).rest == Skip(b, 3)
    ensures ProtocolVersionField(s, b, l).Next? ==> ProtocolVersionField(s, b, l).rest == Skip(b, 3)
    ensures UnknownField(s, b, l).Next? ==> UnknownField(s, b, l).rest == Skip(b, 1 + At(b, 0))
  {
    if b != [] { SkipsOn(b, 1, b[0]); }
  }

  /** In which place a server goes on behind a field is a matter of the bytes alone. */
  lemma FieldReadsOn(s: Settings, b: seq<Byte>, l: Locals, decipher: Decipher)
    requires b != [] && s.server && |s.sourceSystemTitle| == 8 && b[0] != 0xBE
    ensures Field(s, b, l, decipher).Next? ==> Field(s, b, l, decipher).rest == Behind(b)
  {
    hide ContextField, ResultField, DiagnosticField, RespondingTitleField, CalledInvocationField, CallingTitleField, RespondingInvocationField;
    hide CallingApInvocationField, CallingInvocationField, ServerChallengeField, AcseRequirementsField, MechanismField, AuthenticationValueField;
    hide UserInformationField, ProtocolVersionField, UnknownField, Skip, At, Tame;
    var x := b[1..];
    ContextTame(s, x, l);
    MechanismTame(s, x, l);
    TitlesReadOn(s, x, l);
    ServiceReadsOn(s, x, l);
    ValuesReadOn(s, x, l);
    InvocationsReadOn(s, x, l);
    ShortsReadOn(s, x, l);
  }

  /** Two parses that go on behind a piece go on in the same place. */
  predicate Abreast(p: Progress, q: Progress) { p.Next? && q.Next? ==> p.rest == q.rest }

  predicate Servers(s: Settings, t: Settings) { s.server && t.server && s.useLogicalNames == t.useLogicalNames }

  lemma PartsAbreast(s: Settings, t: Settings, b: seq<Byte>, l: Locals, m: Locals)
    ensures Abreast(DedicatedKey(s, b, l), DedicatedKey(t, b, m))
    ensures Abreast(ResponseAllowed(s, b, l), ResponseAllowed(t, b, m))
    ensures Abreast(QualityOfService(s, b, l), QualityOfService(t, b, m))
  {
  }

  lemma BlockAbreast(s: Settings, t: Settings, b: seq<Byte>, l: Locals, m: Locals, response: bool)
    ensures Abreast(ConformanceBlock(s, b, l, response), ConformanceBlock(t, b, m, response))
  {
    hide ConformanceOf, Negotiated, GrantedPduSize, Word;
  }

  lemma ParametersAbreast(s: Settings, t: Settings, b: seq<Byte>, l: Locals, m: Locals, response: bool)
    requires Servers(s, t)
    ensures Abreast(Parameters(s, b, l, response), Parameters(t, b, m, response))
  {
    hide ConformanceBlock;
    if |b| >= 2 {
      BlockAbreast(s.(dlmsVersion := b[0]), t.(dlmsVersion := b[0]), if |b| > 2 && b[2] == 0x1F then b[3..] else b[2..], l, m, response);
    }
  }

  lemma QualityAbreast(s: Settings, t: Settings, b: seq<Byte>, l: Locals, m: Locals, response: bool)
    requires Servers(s, t)
    ensures var p, q := QualityOfService(s, b, l), QualityOfService(t, b, m);
            p.Next? && q.Next? ==> p.rest == q.rest && Abreast(Parameters(p.s, p.rest, p.l, response), Parameters(q.s, q.rest, q.l, response))
  {
    hide Parameters;
    var p, q := QualityOfService(s, b, l), QualityOfService(t, b, m);
    if p.Next? && q.Next? { ParametersAbreast(p.s, q.s, p.rest, p.l, q.l, response); }
  }

  lemma InitiateAbreast(s: Settings, t: Settings, b: seq<Byte>, l: Locals, m: Locals)
    requires Servers(s, t)
    ensures Abreast(InitiateBody(s, b, l), InitiateBody(t, b, m))
  {
    hide QualityOfService, DedicatedKey, ResponseAllowed, Parameters;
    if b != [] {
      QualityAbreast(s, t, b[1..], l, m, true);
      PartsAbreast(s, t, b[1..], l, m);
      var k, j := DedicatedKey(s, b[1..], l), DedicatedKey(t, b[1..], m);
      if k.Next? && j.Next? {
        KeyKeeps(s, b[1..], l);
        KeyKeeps(t, b[1..], m);
        AllowedAbreast(k.s, j.s, k.rest, k.l, j.l);
      }
    }
  }

  lemma KeyKeeps(s: Settings, b: seq<Byte>, l: Locals)
    ensures var k := DedicatedKey(s, b, l); k.s.server == s.server && k.s.useLogicalNames == s.useLogicalNames
  {
  }

  lemma AllowedAbreast(s: Settings, t: Settings, b: seq<Byte>, l: Locals, m: Locals)
    requires Servers(s, t)
    ensures var p, q := ResponseAllowed(s, b, l), ResponseAllowed(t, b, m);
            p.Next? && q.Next? ==>
              var p1, q1 := QualityOfService(p.s, p.rest, p.l), QualityOfService(q.s, q.rest, q.l);
              p1.Next? && q1.Next? ==> Abreast(Parameters(p1.s, p1.rest, p1.l, false), Parameters(q1.s, q1.rest, q1.l, false))
  {
    hide Parameters, QualityOfService;
    PartsAbreast(s, t, b, l, m);
    var p, q := ResponseAllowed(s, b, l), ResponseAllowed(t, b, m);
    if p.Next? && q.Next? { QualityAbreast(p.s, q.s, p.rest, p.l, q.l, false); }
  }
}
