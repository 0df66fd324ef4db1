/**
 The header lists the probe sends, against the rules a request header section must obey
 (sections 4.2, 4.3, 4.3.1 and 10.3 of RFC 9114).
 */
module RequestHeaders {
  import opened Bits
  import opened Options
  import opened Sequences
  import opened Qpack
  import Decimal

  const METHOD := Ascii(":method")
  const SCHEME := Ascii(":scheme")
  const AUTHORITY := Ascii(":authority")
  const PATH := Ascii(":path")
  const HOST := Ascii("host")
  const TE := Ascii("te")
  const USER_AGENT := Ascii("user-agent")
  const CONNECTION := Ascii("connection")

  // ----- The rules -----

  datatype Rule =
    | PseudoFirst
    | PseudoKnown
    | PseudoOnce
    | Mandatory
    | PathPresent
    | AuthorityPresent
    | NoUserinfo
    | LowerCase
    | PlainValues
    | NoConnectionFields

  predicate IsPseudo(name: seq<byte>) { name != [] && name[0] == ':' as int }

  predicate HasUpperCase(name: seq<byte>) { exists i :: 0 <= i < |name| && 'A' as int <= name[i] <= 'Z' as int }

  /** Tabs, spaces, visible ASCII and bytes above it: no control characters. */
  predicate IsPlain(value: seq<byte>) {
    forall i :: 0 <= i < |value| ==> value[i] == 9 || 32 <= value[i] < 127 || 128 <= value[i]
  }

  predicate Has(fields: seq<Field>, name: seq<byte>) { exists i :: 0 <= i < |fields| && fields[i].name == name }

  predicate HasField(fields: seq<Field>, f: Field) { f in fields }

  predicate IsConnect(fields: seq<Field>) { HasField(fields, Field(METHOD, Ascii("CONNECT"))) }

  predicate IsHttp(fields: seq<Field>) {
    HasField(fields, Field(SCHEME, Ascii("https"))) || HasField(fields, Field(SCHEME, Ascii("http")))
  }

  predicate IsConnectionField(f: Field) {
    || f.name == CONNECTION
    || f.name == Ascii("keep-alive")
    || f.name == Ascii("proxy-connection")
    || f.name == Ascii("transfer-encoding")
    || f.name == Ascii("upgrade")
    || (f.name == TE && f.value != Ascii("trailers"))
  }

  predicate Obeys(fields: seq<Field>, rule: Rule) {
    match rule
    case PseudoFirst =>
      forall i, j :: 0 <= i < j < |fields| && IsPseudo(fields[j].name) ==> IsPseudo(fields[i].name)
    case PseudoKnown =>
      forall i :: 0 <= i < |fields| && IsPseudo(fields[i].name) ==>
        fields[i].name == METHOD || fields[i].name == SCHEME || fields[i].name == AUTHORITY || fields[i].name == PATH
    case PseudoOnce =>
      forall i, j :: 0 <= i < j < |fields| && IsPseudo(fields[i].name) ==> fields[i].name != fields[j].name
    case Mandatory =>
      if IsConnect(fields) then Has(fields, AUTHORITY) && !Has(fields, SCHEME) && !Has(fields, PATH)
      else Has(fields, METHOD) && Has(fields, SCHEME) && Has(fields, PATH)
    case PathPresent =>
      IsHttp(fields) ==> !HasField(fields, Field(PATH, []))
    case AuthorityPresent =>
      IsHttp(fields) ==>
        (Has(fields, AUTHORITY) || Has(fields, HOST))
        && !HasField(fields, Field(AUTHORITY, [])) && !HasField(fields, Field(HOST, []))
    case NoUserinfo =>
      IsHttp(fields) ==> forall i :: 0 <= i < |fields| && fields[i].name == AUTHORITY ==> '@' as int !in fields[i].value
    case LowerCase =>
      forall i :: 0 <= i < |fields| ==> !HasUpperCase(fields[i].name)
    case PlainValues =>
      forall i :: 0 <= i < |fields| ==> IsPlain(fields[i].value)
    case NoConnectionFields =>
      forall i :: 0 <= i < |fields| ==> !IsConnectionField(fields[i])
  }

  ghost predicate WellFormed(fields: seq<Field>) { forall rule: Rule :: Obeys(fields, rule) }

  /** What a rule asks of the authority. */
  predicate Suits(authority: seq<byte>, rule: Rule) {
    match rule
    case AuthorityPresent => authority != []
    case NoUserinfo => '@' as int !in authority
    case PlainValues => IsPlain(authority)
    case _ => true
  }

  /** What all rules together ask of it. */
  predicate IsAuthority(authority: seq<byte>) {
    authority != [] && '@' as int !in authority && IsPlain(authority)
  }

  // ----- The probe's lists -----

  function RequestList(authority: seq<byte>): seq<Field> {
    PseudoHeaders(authority) + [Field(USER_AGENT, Ascii("uwebzockets-aioquic-compliance"))]
  }

  /** The case names of the expectations file. */
  datatype CaseName = DuplicateMethod | ConnectionSpecificHeader | PseudoHeaderAfterRegular | UnknownCase(text: string)

  function CaseNamed(text: string): CaseName {
    if text == "duplicate_method" then DuplicateMethod
    else if text == "connection_specific_header" then ConnectionSpecificHeader
    else if text == "pseudo_header_after_regular" then PseudoHeaderAfterRegular
    else UnknownCase(text)
  }

  /** `None` stands for the ValueError of an unknown case name. */
  function MalformedList(name: CaseName, authority: seq<byte>): Option<seq<Field>> {
    var base := RequestList(authority);
    match name
    case DuplicateMethod => Some([base[0], Field(METHOD, Ascii("GET"))] + base[1..])
    case ConnectionSpecificHeader => Some(base + [Field(CONNECTION, Ascii("keep-alive"))])
    case PseudoHeaderAfterRegular => Some([base[0], base[1], base[2], base[4], base[3]])
    case UnknownCase(_) => None
  }

  /** The one rule each malformed case is there to break. */
  function BrokenRule(name: CaseName): Rule {
    match name
    case DuplicateMethod => PseudoOnce
    case ConnectionSpecificHeader => NoConnectionFields
    case _ => PseudoFirst
  }

  // ----- Facts about names -----

  /** A regular field the rules have nothing against, told by its first character. */
  predicate Harmless(f: Field) {
    && f.name != []
    && f.name[0] in {'x' as int, 'u' as int}
    && (f.name[0] == 'u' as int ==> |f.name| == 10)
    && !HasUpperCase(f.name) && IsPlain(f.value)
  }

  lemma HarmlessIsAllowed(f: Field)
    requires Harmless(f)
    ensures !IsPseudo(f.name) && !IsConnectionField(f) && f.name != HOST
    ensures f.name != METHOD && f.name != SCHEME && f.name != AUTHORITY && f.name != PATH
  {
    var c := f.name[0];
    assert CONNECTION[0] == 'c' as int && TE[0] == 't' as int && HOST[0] == 'h' as int;
    assert Ascii("keep-alive")[0] == 'k' as int && Ascii("proxy-connection")[0] == 'p' as int;
    assert Ascii("transfer-encoding")[0] == 't' as int && |Ascii("upgrade")| == 7;
    assert METHOD[0] == SCHEME[0] == AUTHORITY[0] == PATH[0] == ':' as int;
  }

  lemma PseudoNames()
    ensures IsPseudo(METHOD) && IsPseudo(SCHEME) && IsPseudo(AUTHORITY) && IsPseudo(PATH)
    ensures METHOD != SCHEME && METHOD != AUTHORITY && METHOD != PATH
    ensures SCHEME != AUTHORITY && SCHEME != PATH && AUTHORITY != PATH
    ensures !IsPseudo(HOST) && !IsPseudo(TE) && !IsPseudo(CONNECTION)
    ensures !HasUpperCase(METHOD) && !HasUpperCase(SCHEME) && !HasUpperCase(AUTHORITY) && !HasUpperCase(PATH)
    ensures !HasUpperCase(CONNECTION)
    ensures Ascii("GET") != Ascii("CONNECT") && Ascii("/") != []
  {
    assert METHOD[1] != SCHEME[1];
    assert |METHOD| == |SCHEME| == 7 && |AUTHORITY| == 10 && |PATH| == 5;
    assert HOST[0] == 'h' as int && TE[0] == 't' as int && CONNECTION[0] == 'c' as int;
    assert |Ascii("GET")| == 3 && |Ascii("CONNECT")| == 7 && |Ascii("/")| == 1;
  }

  lemma PseudoIsNotConnectionField(f: Field)
    requires IsPseudo(f.name)
    ensures !IsConnectionField(f)
  {
    assert CONNECTION[0] == 'c' as int && TE[0] == 't' as int;
    assert Ascii("keep-alive")[0] == 'k' as int && Ascii("proxy-connection")[0] == 'p' as int;
    assert Ascii("transfer-encoding")[0] == 't' as int && Ascii("upgrade")[0] == 'u' as int;
  }

  lemma UserAgentIsHarmless(f: Field)
    requires f.name == USER_AGENT && IsPlain(f.value)
    ensures Harmless(f)
  {
    assert |USER_AGENT| == 10 && USER_AGENT[0] == 'u' as int;
  }

  lemma GeneratedIsHarmless(index: nat, value: seq<byte>)
    requires IsPlain(value)
    ensures Harmless(Field(GeneratedName(index), value))
  {
    var s := "x" + Decimal.Digits(index);
    assert forall i :: 1 <= i < |s| ==> Decimal.IsDigit(s[i]);
  }

  /** Generated names are pairwise distinct. */
  lemma GeneratedNamesDistinct(i: nat, j: nat)
    requires GeneratedName(i) == GeneratedName(j)
    ensures i == j
  {
    var s, t := "x" + Decimal.Digits(i), "x" + Decimal.Digits(j);
    assert |s| == |t|;
    forall k | 0 <= k < |s| ensures s[k] == t[k] {
      assert GeneratedName(i)[k] == GeneratedName(j)[k];
    }
    assert s[1..] == t[1..];
    Decimal.ValueOfDigits(i);
    Decimal.ValueOfDigits(j);
  }

  // ----- Rules that do not look at the order -----

  predicate IsOrderFree(rule: Rule) { !rule.PseudoFirst? && !rule.PseudoOnce? && !rule.NoConnectionFields? }

  /** All that those rules look at in one field. */
  predicate IsKnown(f: Field, authority: seq<byte>) {
    && !HasUpperCase(f.name) && f.name != HOST
    && (IsPseudo(f.name) ==> f.name == METHOD || f.name == SCHEME || f.name == AUTHORITY || f.name == PATH)
    && f != Field(METHOD, Ascii("CONNECT")) && f != Field(PATH, [])
    && if f.name == AUTHORITY then f.value == authority else IsPlain(f.value)
  }

  lemma RulesOfContents(authority: seq<byte>, fields: seq<Field>, rule: Rule)
    requires Field(METHOD, Ascii("GET")) in fields && Field(SCHEME, Ascii("https")) in fields
    requires Field(AUTHORITY, authority) in fields && Field(PATH, Ascii("/")) in fields
    requires (forall i :: 0 <= i < |fields| ==> IsKnown(fields[i], authority)) && IsOrderFree(rule)
    ensures Obeys(fields, rule) <==> Suits(authority, rule)
  {
    assert Has(fields, METHOD) && Has(fields, SCHEME) && Has(fields, PATH) && Has(fields, AUTHORITY);
    assert forall i :: 0 <= i < |fields| ==> fields[i] in fields;
    assert IsHttp(fields) && !IsConnect(fields);
    if rule.NoUserinfo? || rule.PlainValues? {
      var i :| 0 <= i < |fields| && fields[i] == Field(AUTHORITY, authority);
      assert IsKnown(fields[i], authority);
    }
  }

  // ----- Well-formedness -----

  ghost predicate AllHarmless(fields: seq<Field>) { forall i :: 0 <= i < |fields| ==> Harmless(fields[i]) }

  /** What the rules look at in the four pseudo-headers followed by harmless fields. */
  ghost predicate Shape(fields: seq<Field>, authority: seq<byte>) {
    && |fields| >= 4
    && fields[0] == Field(METHOD, Ascii("GET")) && fields[1] == Field(SCHEME, Ascii("https"))
    && fields[2] == Field(AUTHORITY, authority) && fields[3] == Field(PATH, Ascii("/"))
    && (forall i :: 0 <= i < |fields| ==> !IsConnectionField(fields[i]) && !HasUpperCase(fields[i].name))
    && (forall i :: 0 <= i < |fields| && i != 2 ==> IsPlain(fields[i].value))
    && (forall i :: 4 <= i < |fields| ==>
          !IsPseudo(fields[i].name) && fields[i].name != HOST && fields[i].name != METHOD
          && fields[i].name != SCHEME && fields[i].name != AUTHORITY && fields[i].name != PATH)
  }

  lemma PseudoThenHarmlessShape(authority: seq<byte>, tail: seq<Field>)
    requires AllHarmless(tail)
    ensures Shape(PseudoHeaders(authority) + tail, authority)
  {
    var fields := PseudoHeaders(authority) + tail;
    PseudoNames();
    forall i | 0 <= i < |fields|
      ensures !IsConnectionField(fields[i]) && !HasUpperCase(fields[i].name)
      ensures i >= 4 ==> !IsPseudo(fields[i].name) && fields[i].name != HOST && fields[i].name != METHOD
                         && fields[i].name != SCHEME && fields[i].name != AUTHORITY && fields[i].name != PATH
    {
      if i < 4 {
        PseudoIsNotConnectionField(fields[i]);
      } else {
        HarmlessIsAllowed(tail[i - 4]);
      }
    }
  }

  lemma ShapeIsKnown(authority: seq<byte>, fields: seq<Field>, i: nat)
    requires Shape(fields, authority) && i < |fields|
    ensures IsKnown(fields[i], authority)
  {
    PseudoNames();
    assert AUTHORITY != HOST && METHOD != HOST && SCHEME != HOST && PATH != HOST;
  }

  lemma ShapeContents(authority: seq<byte>, fields: seq<Field>, rule: Rule)
    requires Shape(fields, authority) && IsOrderFree(rule)
    ensures Obeys(fields, rule) <==> Suits(authority, rule)
  {
    assert fields[0] in fields && fields[1] in fields && fields[2] in fields && fields[3] in fields;
    forall i | 0 <= i < |fields| ensures IsKnown(fields[i], authority) { ShapeIsKnown(authority, fields, i); }
    RulesOfContents(authority, fields, rule);
  }

  lemma ShapeOrder(authority: seq<byte>, fields: seq<Field>)
    requires Shape(fields, authority)
    ensures Obeys(fields, PseudoFirst) && Obeys(fields, PseudoOnce)
  {
    forall i | 0 <= i < |fields| ensures IsPseudo(fields[i].name) <==> i < 4 { ShapePseudo(authority, fields, i, 0); }
    forall i, j | 0 <= i < j < |fields| && IsPseudo(fields[i].name) ensures fields[i].name != fields[j].name {
      ShapePseudo(authority, fields, i, j);
    }
  }

  lemma ShapePseudo(authority: seq<byte>, fields: seq<Field>, i: nat, j: nat)
    requires Shape(fields, authority) && i < |fields| && j < |fields|
    ensures IsPseudo(fields[i].name) <==> i < 4
    ensures i < j && i < 4 ==> fields[i].name != fields[j].name
  {
    PseudoNames();
  }

  /** Such a list obeys every rule that its authority suits. */
  lemma ShapeObeys(authority: seq<byte>, fields: seq<Field>, rule: Rule)
    requires Shape(fields, authority)
    ensures Obeys(fields, rule) <==> Suits(authority, rule)
  {
    if IsOrderFree(rule) {
      ShapeContents(authority, fields, rule);
    } else {
      ShapeOrder(authority, fields);
    }
  }

  lemma PseudoThenHarmless(authority: seq<byte>, tail: seq<Field>, rule: Rule)
    requires AllHarmless(tail)
    ensures Obeys(PseudoHeaders(authority) + tail, rule) <==> Suits(authority, rule)
  {
    PseudoThenHarmlessShape(authority, tail);
    ShapeObeys(authority, PseudoHeaders(authority) + tail, rule);
  }

  lemma SuitsAll(authority: seq<byte>)
    ensures IsAuthority(authority) <==> forall rule: Rule :: Suits(authority, rule)
  {
    assert Suits(authority, AuthorityPresent) <==> authority != [];
    assert Suits(authority, NoUserinfo) <==> '@' as int !in authority;
    assert Suits(authority, PlainValues) <==> IsPlain(authority);
  }

  lemma WellFormedBySuits(authority: seq<byte>, fields: seq<Field>)
    requires forall rule: Rule :: Obeys(fields, rule) <==> Suits(authority, rule)
    ensures WellFormed(fields) <==> IsAuthority(authority)
  {
    SuitsAll(authority);
  }

  /**
   The list carried by the oversized block is a well-formed request for every field count and value
   size, provided the authority is one (not empty, no userinfo, no control characters), so only its
   size can justify a rejection.
   */
  lemma OversizedIsWellFormed(authority: seq<byte>, fieldCount: int, valueBytes: int)
    ensures WellFormed(OversizedFields(authority, fieldCount, valueBytes)) <==> IsAuthority(authority)
  {
    var tail := Generated(AtLeastZero(fieldCount), Filler(valueBytes));
    forall i | 0 <= i < |tail| ensures Harmless(tail[i]) { GeneratedIsHarmless(i, Filler(valueBytes)); }
    var fields := OversizedFields(authority, fieldCount, valueBytes);
    forall rule: Rule ensures Obeys(fields, rule) <==> Suits(authority, rule) {
      PseudoThenHarmless(authority, tail, rule);
    }
    WellFormedBySuits(authority, fields);
  }

  lemma RequestIsWellFormed(authority: seq<byte>)
    ensures IsPlainRequest(RequestList(authority), authority)
    ensures WellFormed(RequestList(authority)) <==> IsAuthority(authority)
  {
    var agent := Field(USER_AGENT, Ascii("uwebzockets-aioquic-compliance"));
    UserAgentIsHarmless(agent);
    forall rule: Rule ensures Obeys(RequestList(authority), rule) <==> Suits(authority, rule) {
      PseudoThenHarmless(authority, [agent], rule);
    }
    WellFormedBySuits(authority, RequestList(authority));
  }

  /** The plain request, field by field. */
  predicate IsPlainRequest(fields: seq<Field>, authority: seq<byte>) {
    && |fields| == 5
    && fields[0] == Field(Ascii(":method"), Ascii("GET"))
    && fields[1] == Field(Ascii(":scheme"), Ascii("https"))
    && fields[2] == Field(Ascii(":authority"), authority)
    && fields[3] == Field(Ascii(":path"), Ascii("/"))
    && fields[4] == Field(Ascii("user-agent"), Ascii("uwebzockets-aioquic-compliance"))
  }

  lemma MalformedNames(authority: seq<byte>)
    ensures var base := RequestList(authority);
      |base| == 5 && base[0] == Field(METHOD, Ascii("GET")) && base[1] == Field(SCHEME, Ascii("https"))
      && base[2] == Field(AUTHORITY, authority) && base[3] == Field(PATH, Ascii("/"))
      && Harmless(base[4]) && !IsPseudo(base[4].name) && !IsConnectionField(base[4])
      && base[4].name == USER_AGENT
    ensures forall i :: 0 <= i < 4 ==> !IsConnectionField(RequestList(authority)[i])
    ensures USER_AGENT != METHOD && USER_AGENT != HOST && USER_AGENT != AUTHORITY && USER_AGENT != PATH
    ensures CONNECTION != HOST
  {
    var base := RequestList(authority);
    PseudoNames();
    UserAgentIsHarmless(base[4]);
    HarmlessIsAllowed(base[4]);
    forall i | 0 <= i < 4 ensures !IsConnectionField(base[i]) { PseudoIsNotConnectionField(base[i]); }
    assert |CONNECTION| == 10 && |HOST| == 4;
  }

  /**
   For every authority a malformed case is malformed, and it breaks exactly the rule it is there
   for (an authority that is none breaks its own rules as well): a rejection cannot have another cause.
   */
  lemma MalformedBreaksOneRule(name: CaseName, authority: seq<byte>, rule: Rule)
    requires !name.UnknownCase?
    ensures MalformedList(name, authority).Some?
    ensures !Obeys(MalformedList(name, authority).value, rule)
            <==> rule == BrokenRule(name) || !Suits(authority, rule)
  {
    var fields := MalformedList(name, authority).value;
    if name.DuplicateMethod? {
      MethodTwice(authority, fields, rule);
    } else if name.ConnectionSpecificHeader? {
      ConnectionField(authority, fields, rule);
    } else {
      PseudoAfterRegular(authority, fields, rule);
    }
  }

  /** What a case does to the fields of the plain request: `more` of them, or only another order. */
  ghost predicate IsRequestAnd(text: string, authority: seq<byte>, more: multiset<Field>) {
    var fields := MalformedList(CaseNamed(text), authority);
    fields.Some? && multiset(fields.value) == multiset(RequestList(authority)) + more
  }

  /** The case of each text. */
  lemma NamedCases(authority: seq<byte>)
    ensures IsRequestAnd("duplicate_method", authority, multiset{Field(Ascii(":method"), Ascii("GET"))})
    ensures IsRequestAnd("connection_specific_header", authority,
                         multiset{Field(Ascii("connection"), Ascii("keep-alive"))})
    ensures IsRequestAnd("pseudo_header_after_regular", authority, multiset{})
  {
    DuplicateMethodFields(authority);
    ConnectionFields(authority);
    LastTwo(RequestList(authority));
  }

  lemma DuplicateMethodFields(authority: seq<byte>)
    ensures multiset(MalformedList(DuplicateMethod, authority).value)
         == multiset(RequestList(authority)) + multiset{Field(Ascii(":method"), Ascii("GET"))}
  {
    OneMoreSecond(RequestList(authority), Field(METHOD, Ascii("GET")));
  }

  lemma ConnectionFields(authority: seq<byte>)
    ensures multiset(MalformedList(ConnectionSpecificHeader, authority).value)
         == multiset(RequestList(authority)) + multiset{Field(Ascii("connection"), Ascii("keep-alive"))}
  {
  }

  /** The fields are those of the plain request and perhaps one more, in any order. */
  ghost predicate Rearranges(fields: seq<Field>, authority: seq<byte>, extra: Field) {
    && (forall f :: f in fields ==> f in RequestList(authority) || f == extra)
    && (forall f :: f in RequestList(authority) ==> f in fields)
    && (extra == Field(METHOD, Ascii("GET")) || extra == Field(CONNECTION, Ascii("keep-alive")))
  }

  lemma FieldsOfRequest(fields: seq<Field>, authority: seq<byte>, extra: Field, f: Field)
    requires Rearranges(fields, authority, extra) && f in fields
    ensures f == Field(METHOD, Ascii("GET")) || f == Field(SCHEME, Ascii("https")) || f == Field(AUTHORITY, authority)
         || f == Field(PATH, Ascii("/")) || (f.name in {USER_AGENT, CONNECTION} && IsPlain(f.value))
  {
    MalformedNames(authority);
    var base := RequestList(authority);
    assert f in base ==> f == base[0] || f == base[1] || f == base[2] || f == base[3] || f == base[4];
    assert IsPlain(Ascii("keep-alive"));
  }

  lemma RequestFieldsPresent(fields: seq<Field>, authority: seq<byte>, extra: Field)
    requires Rearranges(fields, authority, extra)
    ensures Field(METHOD, Ascii("GET")) in fields && Field(SCHEME, Ascii("https")) in fields
    ensures Field(AUTHORITY, authority) in fields && Field(PATH, Ascii("/")) in fields
  {
    MalformedNames(authority);
    var base := RequestList(authority);
    assert base[0] in base && base[1] in base && base[2] in base && base[3] in base;
  }

  lemma FieldFacts(f: Field, authority: seq<byte>)
    requires f == Field(METHOD, Ascii("GET")) || f == Field(SCHEME, Ascii("https")) || f == Field(AUTHORITY, authority)
         || f == Field(PATH, Ascii("/")) || (f.name in {USER_AGENT, CONNECTION} && IsPlain(f.value))
    ensures IsKnown(f, authority)
  {
    PseudoNames();
    MalformedNames(authority);
    assert HOST[0] == 'h' as int && AUTHORITY[0] == METHOD[0] == SCHEME[0] == PATH[0] == ':' as int;
  }

  /** Rules that do not look at the order hold of any rearrangement. */
  lemma CommonRules(authority: seq<byte>, fields: seq<Field>, rule: Rule, extra: Field)
    requires Rearranges(fields, authority, extra) && IsOrderFree(rule)
    ensures Obeys(fields, rule) <==> Suits(authority, rule)
  {
    RequestFieldsPresent(fields, authority, extra);
    forall i | 0 <= i < |fields| ensures IsKnown(fields[i], authority) {
      FieldsOfRequest(fields, authority, extra, fields[i]);
      FieldFacts(fields[i], authority);
    }
    RulesOfContents(authority, fields, rule);
  }

  lemma MethodTwice(authority: seq<byte>, fields: seq<Field>, rule: Rule)
    requires fields == MalformedList(CaseName.DuplicateMethod, authority).value
    ensures !Obeys(fields, rule) <==> rule == PseudoOnce || !Suits(authority, rule)
  {
    PseudoNames();
    MalformedNames(authority);
    var base := RequestList(authority);
    assert fields == [base[0], base[0], base[1], base[2], base[3], base[4]];
    assert fields[0].name == fields[1].name && IsPseudo(fields[0].name);
    if IsOrderFree(rule) {
      CommonRules(authority, fields, rule, base[0]);
    }
  }

  lemma ConnectionField(authority: seq<byte>, fields: seq<Field>, rule: Rule)
    requires fields == MalformedList(ConnectionSpecificHeader, authority).value
    ensures !Obeys(fields, rule) <==> rule == NoConnectionFields || !Suits(authority, rule)
  {
    PseudoNames();
    MalformedNames(authority);
    var base := RequestList(authority);
    var extra := Field(CONNECTION, Ascii("keep-alive"));
    assert fields == [base[0], base[1], base[2], base[3], base[4], extra];
    assert IsConnectionField(fields[5]);
    if IsOrderFree(rule) {
      CommonRules(authority, fields, rule, extra);
    }
  }

  lemma PseudoAfterRegular(authority: seq<byte>, fields: seq<Field>, rule: Rule)
    requires fields == MalformedList(PseudoHeaderAfterRegular, authority).value
    ensures !Obeys(fields, rule) <==> rule == PseudoFirst || !Suits(authority, rule)
  {
    PseudoNames();
    MalformedNames(authority);
    var base := RequestList(authority);
    assert fields == [base[0], base[1], base[2], base[4], base[3]];
    assert IsPseudo(fields[4].name) && !IsPseudo(fields[3].name);
    if IsOrderFree(rule) {
      CommonRules(authority, fields, rule, base[0]);
    }
  }
}
