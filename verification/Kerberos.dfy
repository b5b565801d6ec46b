/** The AS-REQ of internal/probe/kerberos.go, with the structure of sections 5.4.1 and 5.2.2 of
    RFC 4120. Strings are octet sequences. */
module Kerberos {
  import opened Common
  import opened Ber

  const SEQUENCE: byte := 0x30
  const BIT_STRING: byte := 0x03
  const GENERAL_STRING: byte := 0x1b
  const GENERALIZED_TIME: byte := 0x18
  const AS_REQ: byte := 0x6a

  const CLIENT_NAME := Ascii("go-port-scanner")
  const TGS_NAME := Ascii("krbtgt")

  function Ascii(s: string): (r: seq<byte>)
    ensures |r| == |s|
  {
    seq(|s|, i requires 0 <= i < |s| => s[i] as int % 256)
  }

  // ---------------------------------------------------------------- the value to be encoded

  function Integer(value: int): Tree {
    Primitive(INTEGER, IntegerContent(value))
  }

  function Context(number: nat, value: Tree): Tree
    requires number < 32
  {
    Constructed(0xa0 + number, [value])
  }

  function Strings(values: seq<seq<byte>>): seq<Tree> {
    if values == [] then [] else [Primitive(GENERAL_STRING, values[0])] + Strings(values[1..])
  }

  function PrincipalTree(nameType: int, components: seq<seq<byte>>): Tree {
    Constructed(SEQUENCE, [Context(0, Integer(nameType)), Context(1, Constructed(SEQUENCE, Strings(components)))])
  }

  function BodyFields(realm: seq<byte>, till: seq<byte>): seq<Tree> {
    [Context(0, Primitive(BIT_STRING, [0, 0, 0, 0, 0])),                  // kdc-options
     Context(1, PrincipalTree(1, [CLIENT_NAME])),                         // cname
     Context(2, Primitive(GENERAL_STRING, realm)),                        // realm
     Context(3, PrincipalTree(2, [TGS_NAME, realm])),                     // sname
     Context(5, Primitive(GENERALIZED_TIME, till)),                       // till
     Context(7, Integer(1)),                                              // nonce
     Context(8, Constructed(SEQUENCE, [Integer(18), Integer(17), Integer(23)]))]  // etype
  }

  function RequestFields(realm: seq<byte>, till: seq<byte>): seq<Tree> {
    [Context(1, Integer(5)),                                              // pvno
     Context(2, Integer(10)),                                             // msg-type
     Context(4, Constructed(SEQUENCE, BodyFields(realm, till)))]          // req-body
  }

  /** [APPLICATION 10] KDC-REQ. */
  function RequestTree(realm: seq<byte>, till: seq<byte>): Tree {
    Constructed(AS_REQ, [Constructed(SEQUENCE, RequestFields(realm, till))])
  }

  predicate TagsAscend(fields: seq<Tree>) {
    forall i, j :: 0 <= i < j < |fields| ==> fields[i].tag < fields[j].tag
  }

  // ---------------------------------------------------------------- the encoder

  function DerContext(number: nat, value: seq<byte>): seq<byte>
    requires number < 32
  {
    DerWrap(0xa0 + number, value)
  }

  function DerGeneralString(value: seq<byte>): seq<byte> {
    DerWrap(GENERAL_STRING, value)
  }

  lemma EncodeContext(number: nat, value: Tree)
    requires number < 32
    ensures Encode(Context(number, value)) == DerContext(number, Encode(value))
  {
    EncodeOne(value);
  }

  lemma EncodeOne(value: Tree)
    ensures EncodeAll([value]) == Encode(value)
  {
    assert [value][1..] == [];
    assert Encode(value) + [] == Encode(value);
  }

  lemma JoinParts(ts: seq<Tree>, parts: seq<seq<byte>>)
    requires |ts| == |parts| && forall i :: 0 <= i < |ts| ==> parts[i] == Encode(ts[i])
    ensures Concat(parts) == EncodeAll(ts)
  {
    if ts != [] { JoinParts(ts[1..], parts[1..]); }
  }

  method KerberosPrincipal(nameType: int, components: seq<seq<byte>>) returns (encoded: seq<byte>)
    ensures encoded == Encode(PrincipalTree(nameType, components))
  {
    var names: seq<seq<byte>> := [];
    for i := 0 to |components|
      invariant |names| == i && forall k :: 0 <= k < i ==> names[k] == DerGeneralString(components[k])
    {
      names := names + [DerGeneralString(components[i])];
    }
    var joinedNames := JoinBytes(names);
    StringsAt(components);
    JoinParts(Strings(components), names);
    var parts := [DerContext(0, DerInteger(nameType)), DerContext(1, DerWrap(SEQUENCE, joinedNames))];
    var joined := JoinBytes(parts);
    EncodeContext(0, Integer(nameType));
    EncodeContext(1, Constructed(SEQUENCE, Strings(components)));
    JoinParts(PrincipalTree(nameType, components).children, parts);
    encoded := DerWrap(SEQUENCE, joined);
  }

  lemma StringsAt(values: seq<seq<byte>>)
    ensures |Strings(values)| == |values|
    ensures forall k :: 0 <= k < |values| ==> Strings(values)[k] == Primitive(GENERAL_STRING, values[k])
  {
  }

  lemma BodyParts(realm: seq<byte>, till: seq<byte>, parts: seq<seq<byte>>)
    requires parts == [
      DerContext(0, DerWrap(BIT_STRING, [0, 0, 0, 0, 0])),
      DerContext(1, Encode(PrincipalTree(1, [CLIENT_NAME]))),
      DerContext(2, DerGeneralString(realm)),
      DerContext(3, Encode(PrincipalTree(2, [TGS_NAME, realm]))),
      DerContext(5, DerWrap(GENERALIZED_TIME, till)),
      DerContext(7, DerInteger(1)),
      DerContext(8, DerWrap(SEQUENCE, DerInteger(18) + (DerInteger(17) + DerInteger(23))))]
    ensures Concat(parts) == EncodeAll(BodyFields(realm, till))
  {
    EncodeContext(0, Primitive(BIT_STRING, [0, 0, 0, 0, 0]));
    EncodeContext(1, PrincipalTree(1, [CLIENT_NAME]));
    EncodeContext(2, Primitive(GENERAL_STRING, realm));
    EncodeContext(3, PrincipalTree(2, [TGS_NAME, realm]));
    EncodeContext(5, Primitive(GENERALIZED_TIME, till));
    EncodeContext(7, Integer(1));
    var etypes := [Integer(18), Integer(17), Integer(23)];
    assert Encode(Constructed(SEQUENCE, etypes)) == DerWrap(SEQUENCE, DerInteger(18) + (DerInteger(17) + DerInteger(23))) by {
      assert etypes[1..] == [Integer(17), Integer(23)] && etypes[1..][1..] == [Integer(23)];
      EncodeOne(Integer(23));
    }
    EncodeContext(8, Constructed(SEQUENCE, etypes));
    JoinParts(BodyFields(realm, till), parts);
  }

  /** What the probe sends is the DER encoding of the request's value. */
  method KerberosASRequest(realm: seq<byte>, till: seq<byte>) returns (request: seq<byte>)
    ensures request == Encode(RequestTree(realm, till))
  {
    var cname := KerberosPrincipal(1, [CLIENT_NAME]);
    var sname := KerberosPrincipal(2, [TGS_NAME, realm]);
    var etypes := DerWrap(SEQUENCE, DerInteger(18) + (DerInteger(17) + DerInteger(23)));
    var parts := [
      DerContext(0, DerWrap(BIT_STRING, [0, 0, 0, 0, 0])),
      DerContext(1, cname),
      DerContext(2, DerGeneralString(realm)),
      DerContext(3, sname),
      DerContext(5, DerWrap(GENERALIZED_TIME, till)),
      DerContext(7, DerInteger(1)),
      DerContext(8, etypes)];
    var joined := JoinBytes(parts);
    var body := DerWrap(SEQUENCE, joined);
    assert body == Encode(Constructed(SEQUENCE, BodyFields(realm, till))) by {
      BodyParts(realm, till, parts);
    }
    var requestParts := [DerContext(1, DerInteger(5)), DerContext(2, DerInteger(10)), DerContext(4, body)];
    var joinedRequest := JoinBytes(requestParts);
    var kdcRequest := DerWrap(SEQUENCE, joinedRequest);
    assert kdcRequest == Encode(Constructed(SEQUENCE, RequestFields(realm, till))) by {
      EncodeContext(1, Integer(5));
      EncodeContext(2, Integer(10));
      EncodeContext(4, Constructed(SEQUENCE, BodyFields(realm, till)));
      JoinParts(RequestFields(realm, till), requestParts);
    }
    EncodeOne(Constructed(SEQUENCE, RequestFields(realm, till)));
    request := DerWrap(AS_REQ, kdcRequest);
  }

  // ---------------------------------------------------------------- which requests decode

  function Wrapped(n: nat): nat {
    n + if n < 0x80 then 2 else if n <= 0xff then 3 else 4
  }

  lemma EncodeSize(t: Tree)
    ensures |Encode(t)| == Wrapped(|Body(t)|)
  {
  }

  lemma ContextSize(number: nat, value: Tree)
    requires number < 32
    ensures |Encode(Context(number, value))| == Wrapped(Wrapped(|Body(value)|))
  {
    EncodeOne(value);
    EncodeSize(value);
    EncodeSize(Context(number, value));
  }

  lemma ConsSize(t: Tree, ts: seq<Tree>)
    ensures |EncodeAll([t] + ts)| == |Encode(t)| + |EncodeAll(ts)|
  {
    assert ([t] + ts)[1..] == ts;
  }

  lemma TwoSize(a: Tree, b: Tree)
    ensures |EncodeAll([a, b])| == |Encode(a)| + |Encode(b)|
  {
    assert [a, b] == [a] + [b];
    ConsSize(a, [b]);
    EncodeOne(b);
  }

  lemma ThreeSize(a: Tree, b: Tree, c: Tree)
    ensures |EncodeAll([a, b, c])| == |Encode(a)| + |Encode(b)| + |Encode(c)|
  {
    assert [a, b, c] == [a] + [b, c];
    ConsSize(a, [b, c]);
    TwoSize(b, c);
  }

  lemma PrincipalSize(nameType: int, components: seq<seq<byte>>)
    requires 0 <= nameType < 128
    ensures |Body(PrincipalTree(nameType, components))| == 5 + Wrapped(Wrapped(|EncodeAll(Strings(components))|))
  {
    var names := Constructed(SEQUENCE, Strings(components));
    ContextSize(0, Integer(nameType));
    ContextSize(1, names);
    TwoSize(Context(0, Integer(nameType)), Context(1, names));
  }

  lemma PrincipalSizes(realm: seq<byte>)
    ensures |Body(PrincipalTree(1, [CLIENT_NAME]))| == 26
    ensures |Body(PrincipalTree(2, [TGS_NAME, realm]))| == 5 + Wrapped(Wrapped(8 + Wrapped(|realm|)))
  {
    var client, tgs, own := Primitive(GENERAL_STRING, CLIENT_NAME), Primitive(GENERAL_STRING, TGS_NAME), Primitive(GENERAL_STRING, realm);
    assert Strings([CLIENT_NAME]) == [client] by { StringsAt([CLIENT_NAME]); }
    EncodeOne(client);
    EncodeSize(client);
    PrincipalSize(1, [CLIENT_NAME]);
    assert Strings([TGS_NAME, realm]) == [tgs, own] by { StringsAt([TGS_NAME, realm]); }
    TwoSize(tgs, own);
    EncodeSize(tgs);
    EncodeSize(own);
    PrincipalSize(2, [TGS_NAME, realm]);
  }

  lemma BodySize(realm: seq<byte>, till: seq<byte>)
    requires |till| == 15
    ensures |EncodeAll(BodyFields(realm, till))| ==
            76 + Wrapped(Wrapped(|realm|)) + Wrapped(Wrapped(5 + Wrapped(Wrapped(8 + Wrapped(|realm|)))))
  {
    var ts, etypes := BodyFields(realm, till), Constructed(SEQUENCE, [Integer(18), Integer(17), Integer(23)]);
    PrincipalSizes(realm);
    ContextSize(0, Primitive(BIT_STRING, [0, 0, 0, 0, 0]));
    ContextSize(1, PrincipalTree(1, [CLIENT_NAME]));
    ContextSize(2, Primitive(GENERAL_STRING, realm));
    ContextSize(3, PrincipalTree(2, [TGS_NAME, realm]));
    ContextSize(5, Primitive(GENERALIZED_TIME, till));
    ContextSize(7, Integer(1));
    ThreeSize(Integer(18), Integer(17), Integer(23));
    ContextSize(8, etypes);
    SevenSize(ts);
  }

  lemma SevenSize(ts: seq<Tree>)
    requires |ts| == 7
    ensures |EncodeAll(ts)| == |Encode(ts[0])| + |Encode(ts[1])| + |Encode(ts[2])| + |Encode(ts[3])| + |Encode(ts[4])|
                               + |Encode(ts[5])| + |Encode(ts[6])|
  {
    var last := [ts[4], ts[5], ts[6]];
    assert ts == [ts[0]] + ([ts[1]] + ([ts[2]] + ([ts[3]] + last)));
    ConsSize(ts[0], [ts[1]] + ([ts[2]] + ([ts[3]] + last)));
    ConsSize(ts[1], [ts[2]] + ([ts[3]] + last));
    ConsSize(ts[2], [ts[3]] + last);
    ConsSize(ts[3], last);
    ThreeSize(ts[4], ts[5], ts[6]);
  }

  // Only the lengths that depend on the realm can need two octets.
  lemma RequestSize(realm: seq<byte>, till: seq<byte>)
    requires |till| == 15
    ensures |Body(RequestTree(realm, till))| <= 2 * |realm| + 139
    ensures |realm| >= 256 ==> |Body(RequestTree(realm, till))| == 2 * |realm| + 139
  {
    var body, request := Constructed(SEQUENCE, BodyFields(realm, till)), Constructed(SEQUENCE, RequestFields(realm, till));
    BodySize(realm, till);
    ContextSize(1, Integer(5));
    ContextSize(2, Integer(10));
    ContextSize(4, body);
    ThreeSize(Context(1, Integer(5)), Context(2, Integer(10)), Context(4, body));
    EncodeSize(request);
    EncodeOne(request);
  }

  /** Reading the request back, level by level, gives exactly the value it encodes if and only if
      the realm has at most 32698 octets; beyond that the outermost length is truncated. The
      context tags of both SEQUENCEs ascend, as the ASN.1 module lists them. The expiry time always
      has the 15 octets of its format. */
  lemma RequestDecodes(realm: seq<byte>, till: seq<byte>, suffix: seq<byte>, limit: int)
    requires |till| == 15 && limit >= 65535
    ensures ReadsAs(Encode(RequestTree(realm, till)) + suffix, limit, RequestTree(realm, till), suffix)
            <==> |realm| <= 32698
    ensures TagsAscend(RequestFields(realm, till)) && TagsAscend(BodyFields(realm, till))
  {
    RequestSize(realm, till);
    TreeReadsBack(RequestTree(realm, till), suffix, limit);
  }

  /** Within that size every length of the request, at every level, is written minimally. */
  lemma {:induction false} LengthsAreMinimal(t: Tree)
    requires |Body(t)| <= 65535
    ensures AllLengthsMinimal(t)
    decreases t, 1
  {
    LengthOctetsMinimal(|Body(t)|);
    if t.Constructed? { ForestLengthsAreMinimal(t.children); }
  }

  lemma {:induction false} ForestLengthsAreMinimal(ts: seq<Tree>)
    requires |EncodeAll(ts)| <= 65535
    ensures forall i :: 0 <= i < |ts| ==> AllLengthsMinimal(ts[i])
    decreases ts, 0
  {
    if ts != [] {
      WrapIsLonger(ts[0].tag, Body(ts[0]));
      LengthsAreMinimal(ts[0]);
      ForestLengthsAreMinimal(ts[1..]);
      assert forall i :: 0 < i < |ts| ==> ts[i] == ts[1..][i - 1];
    }
  }

  ghost predicate AllLengthsMinimal(t: Tree) {
    && MinimalLength(LengthOctets(|Body(t)|), |Body(t)|)
    && (t.Constructed? ==> forall i :: 0 <= i < |t.children| ==> AllLengthsMinimal(t.children[i]))
  }

  lemma RequestLengthsAreMinimal(realm: seq<byte>, till: seq<byte>)
    requires |till| == 15 && |realm| <= 32698
    ensures AllLengthsMinimal(RequestTree(realm, till))
  {
    RequestSize(realm, till);
    LengthsAreMinimal(RequestTree(realm, till));
  }

  // ---------------------------------------------------------------- one request, octet by octet

  lemma ShortWrap(tag: byte, content: seq<byte>)
    requires |content| < 128
    ensures DerWrap(tag, content) == [tag, |content|] + content
  {
  }

  lemma ShortContext(number: nat, value: Tree, content: seq<byte>)
    requires number < 32 && |content| < 128 && Encode(value) == content
    ensures Encode(Context(number, value)) == [160 + number, |content|] + content
  {
    EncodeContext(number, value);
    ShortWrap(0xa0 + number, content);
  }

  lemma ShortInteger(value: int)
    requires 0 <= value < 128
    ensures Encode(Integer(value)) == [2, 1, value]
  {
    ShortWrap(INTEGER, IntegerContent(value));
  }

  lemma NameOctets(nameType: int, components: seq<seq<byte>>, names: seq<byte>)
    requires 0 <= nameType < 128 && |names| < 100 && EncodeAll(Strings(components)) == names
    ensures Encode(PrincipalTree(nameType, components)) ==
            [48, |names| + 9, 160, 3, 2, 1, nameType, 161, |names| + 2, 48, |names|] + names
  {
    var inner := Constructed(SEQUENCE, Strings(components));
    ShortWrap(SEQUENCE, names);
    ShortInteger(nameType);
    ShortContext(0, Integer(nameType), [2, 1, nameType]);
    ShortContext(1, inner, [48, |names|] + names);
    var children := [Context(0, Integer(nameType)), Context(1, inner)];
    JoinTwo(children[0], children[1]);
    var content := [160, 3, 2, 1, nameType] + ([161, |names| + 2] + ([48, |names|] + names));
    assert EncodeAll(children) == content;
    ShortWrap(SEQUENCE, content);
  }

  lemma JoinTwo(a: Tree, b: Tree)
    ensures EncodeAll([a, b]) == Encode(a) + Encode(b)
  {
    assert [a, b][1..] == [b];
    EncodeOne(b);
  }

  lemma JoinThree(a: Tree, b: Tree, c: Tree)
    ensures EncodeAll([a, b, c]) == Encode(a) + (Encode(b) + Encode(c))
  {
    assert [a, b, c][1..] == [b, c];
    JoinTwo(b, c);
  }

  lemma ConstantNames()
    ensures CLIENT_NAME == [103, 111, 45, 112, 111, 114, 116, 45, 115, 99, 97, 110, 110, 101, 114]
    ensures TGS_NAME == [107, 114, 98, 116, 103, 116]
  {
  }

  lemma ClientOctets(name: seq<byte>)
    requires |name| == 15
    ensures Encode(Context(1, PrincipalTree(1, [name]))) ==
            [161, 28, 48, 26, 160, 3, 2, 1, 1, 161, 19, 48, 17, 27, 15] + name
  {
    assert EncodeAll(Strings([name])) == [27, 15] + name by {
      StringsAt([name]);
      assert Strings([name]) == [Primitive(GENERAL_STRING, name)];
      EncodeOne(Primitive(GENERAL_STRING, name));
      ShortWrap(GENERAL_STRING, name);
    }
    NameOctets(1, [name], [27, 15] + name);
    ShortContext(1, PrincipalTree(1, [name]), Encode(PrincipalTree(1, [name])));
  }

  lemma ServerOctets(service: seq<byte>, realm: seq<byte>)
    requires |service| == 6 && |realm| == 7
    ensures Encode(Context(3, PrincipalTree(2, [service, realm]))) ==
            [163, 28, 48, 26, 160, 3, 2, 1, 2, 161, 19, 48, 17] + ([27, 6] + service + ([27, 7] + realm))
  {
    var names := [27, 6] + service + ([27, 7] + realm);
    assert EncodeAll(Strings([service, realm])) == names by {
      StringsAt([service, realm]);
      assert Strings([service, realm]) == [Primitive(GENERAL_STRING, service), Primitive(GENERAL_STRING, realm)];
      JoinTwo(Primitive(GENERAL_STRING, service), Primitive(GENERAL_STRING, realm));
      ShortWrap(GENERAL_STRING, service);
      ShortWrap(GENERAL_STRING, realm);
    }
    NameOctets(2, [service, realm], names);
    ShortContext(3, PrincipalTree(2, [service, realm]), Encode(PrincipalTree(2, [service, realm])));
  }

  lemma OtherOctets(realm: seq<byte>, till: seq<byte>)
    requires |realm| == 7 && |till| == 15
    ensures Encode(Context(0, Primitive(BIT_STRING, [0, 0, 0, 0, 0]))) == [160, 7, 3, 5, 0, 0, 0, 0, 0]
    ensures Encode(Context(2, Primitive(GENERAL_STRING, realm))) == [162, 9, 27, 7] + realm
    ensures Encode(Context(5, Primitive(GENERALIZED_TIME, till))) == [165, 17, 24, 15] + till
    ensures Encode(Context(7, Integer(1))) == [167, 3, 2, 1, 1]
  {
    ShortWrap(BIT_STRING, [0, 0, 0, 0, 0]);
    ShortContext(0, Primitive(BIT_STRING, [0, 0, 0, 0, 0]), [3, 5, 0, 0, 0, 0, 0]);
    ShortWrap(GENERAL_STRING, realm);
    ShortContext(2, Primitive(GENERAL_STRING, realm), [27, 7] + realm);
    ShortWrap(GENERALIZED_TIME, till);
    ShortContext(5, Primitive(GENERALIZED_TIME, till), [24, 15] + till);
    ShortInteger(1);
    ShortContext(7, Integer(1), [2, 1, 1]);
  }

  lemma EtypeOctets()
    ensures Encode(Context(8, Constructed(SEQUENCE, [Integer(18), Integer(17), Integer(23)]))) ==
            [168, 11, 48, 9, 2, 1, 18, 2, 1, 17, 2, 1, 23]
  {
    ShortInteger(18);
    ShortInteger(17);
    ShortInteger(23);
    JoinThree(Integer(18), Integer(17), Integer(23));
    ShortWrap(SEQUENCE, [2, 1, 18, 2, 1, 17, 2, 1, 23]);
    ShortContext(8, Constructed(SEQUENCE, [Integer(18), Integer(17), Integer(23)]), [48, 9, 2, 1, 18, 2, 1, 17, 2, 1, 23]);
  }

  // The seven fields of the body, for a realm of seven octets such as INVALID.
  function BodyOctets(realm: seq<byte>, till: seq<byte>): (octets: seq<byte>)
    ensures |octets| == 2 * |realm| + |till| + 88
  {
    [160, 7, 3, 5, 0, 0, 0, 0, 0]
    + ([161, 28, 48, 26, 160, 3, 2, 1, 1, 161, 19, 48, 17, 27, 15]
       + [103, 111, 45, 112, 111, 114, 116, 45, 115, 99, 97, 110, 110, 101, 114])
    + ([162, 9, 27, 7] + realm)
    + ([163, 28, 48, 26, 160, 3, 2, 1, 2, 161, 19, 48, 17] + ([27, 6] + [107, 114, 98, 116, 103, 116] + ([27, 7] + realm)))
    + ([165, 17, 24, 15] + till)
    + [167, 3, 2, 1, 1]
    + [168, 11, 48, 9, 2, 1, 18, 2, 1, 17, 2, 1, 23]
  }

  lemma SevenJoined(ts: seq<Tree>)
    requires |ts| == 7
    ensures EncodeAll(ts) == Encode(ts[0]) + Encode(ts[1]) + Encode(ts[2]) + Encode(ts[3]) + Encode(ts[4])
                             + Encode(ts[5]) + Encode(ts[6])
  {
    var parts := seq(7, i requires 0 <= i < 7 => Encode(ts[i]));
    JoinParts(ts, parts);
    assert parts == [parts[0], parts[1], parts[2], parts[3], parts[4], parts[5], parts[6]];
    SevenParts(parts[0], parts[1], parts[2], parts[3], parts[4], parts[5], parts[6]);
  }

  lemma SevenParts(a: seq<byte>, b: seq<byte>, c: seq<byte>, d: seq<byte>, e: seq<byte>, f: seq<byte>, g: seq<byte>)
    ensures Concat([a, b, c, d, e, f, g]) == a + b + c + d + e + f + g
  {
    ConcatAppend([a, b, c, d, e, f], g);
    ConcatAppend([a, b, c, d, e], f);
    ConcatAppend([a, b, c, d], e);
    ConcatAppend([a, b, c], d);
    ConcatAppend([a, b], c);
    ConcatAppend([a], b);
    ConcatAppend([], a);
    assert [] + [a] == [a] && [a] + [b] == [a, b] && [a, b] + [c] == [a, b, c] && [a, b, c] + [d] == [a, b, c, d];
    assert [a, b, c, d] + [e] == [a, b, c, d, e] && [a, b, c, d, e] + [f] == [a, b, c, d, e, f];
    assert [a, b, c, d, e, f] + [g] == [a, b, c, d, e, f, g];
  }

  lemma BodyIs(realm: seq<byte>, till: seq<byte>)
    requires |realm| == 7 && |till| == 15
    ensures EncodeAll(BodyFields(realm, till)) == BodyOctets(realm, till)
  {
    var ts := BodyFields(realm, till);
    SevenJoined(ts);
    assert Encode(ts[0]) == [160, 7, 3, 5, 0, 0, 0, 0, 0] && Encode(ts[2]) == [162, 9, 27, 7] + realm
           && Encode(ts[4]) == [165, 17, 24, 15] + till && Encode(ts[5]) == [167, 3, 2, 1, 1] by { OtherOctets(realm, till); }
    ConstantNames();
    ClientOctets(CLIENT_NAME);
    ServerOctets(TGS_NAME, realm);
    EtypeOctets();
  }

  lemma WrapBody(octets: seq<byte>, fields: seq<Tree>)
    requires |octets| == 117 && EncodeAll(fields) == octets
    ensures Encode(Context(4, Constructed(SEQUENCE, fields))) == [164, 119] + ([48, 117] + octets)
  {
    ShortWrap(SEQUENCE, octets);
    ShortContext(4, Constructed(SEQUENCE, fields), [48, 117] + octets);
  }

  lemma WrapFields(body: Tree, octets: seq<byte>)
    requires Encode(Context(4, body)) == octets
    ensures EncodeAll([Context(1, Integer(5)), Context(2, Integer(10)), Context(4, body)]) ==
            [161, 3, 2, 1, 5] + ([162, 3, 2, 1, 10] + octets)
  {
    ShortInteger(5);
    ShortInteger(10);
    ShortContext(1, Integer(5), [2, 1, 5]);
    ShortContext(2, Integer(10), [2, 1, 10]);
    JoinThree(Context(1, Integer(5)), Context(2, Integer(10)), Context(4, body));
  }

  lemma WrapRequest(octets: seq<byte>, fields: seq<Tree>)
    requires |octets| == 131 && EncodeAll(fields) == octets
    ensures Encode(Constructed(AS_REQ, [Constructed(SEQUENCE, fields)])) == [106, 129, 134] + ([48, 129, 131] + octets)
  {
    var request := Constructed(SEQUENCE, fields);
    assert Encode(request) == [48, 129, 131] + octets;
    EncodeOne(request);
  }

  /** The request for a realm of seven octets, such as INVALID for hosts without a domain, octet by
      octet as RFC 4120 has it. */
  lemma RequestOctets(realm: seq<byte>, till: seq<byte>)
    requires |realm| == 7 && |till| == 15
    ensures Encode(RequestTree(realm, till)) ==
            [106, 129, 134] + ([48, 129, 131] + ([161, 3, 2, 1, 5] + ([162, 3, 2, 1, 10]
            + ([164, 119] + ([48, 117] + BodyOctets(realm, till))))))
  {
    var octets, fields := BodyOctets(realm, till), BodyFields(realm, till);
    var body, inner := Constructed(SEQUENCE, fields), [164, 119] + ([48, 117] + octets);
    BodyIs(realm, till);
    WrapBody(octets, fields);
    WrapFields(body, inner);
    WrapRequest([161, 3, 2, 1, 5] + ([162, 3, 2, 1, 10] + inner), RequestFields(realm, till));
  }
}
