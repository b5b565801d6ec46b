/** The BER reader of internal/probe/ber.go and the DER writer of internal/probe/kerberos.go,
    with the octet rules of sections 8.1.3, 8.3.2 and 10.1 of X.690. */
module Ber {
  import opened Common

  // ---------------------------------------------------------------- reading

  datatype Element = Element(tag: byte, content: seq<byte>)

  datatype BerError = EndOfInput | UnsupportedLength | LimitExceeded

  /** A big-endian number. */
  function ToNat(octets: seq<byte>): nat {
    if octets == [] then 0 else ToNat(octets[..|octets| - 1]) * 256 + octets[|octets| - 1]
  }

  function ReadContent(tag: byte, length: nat, stream: seq<byte>, limit: int): (Result<Element, BerError>, seq<byte>) {
    if length > limit then (Err(LimitExceeded), stream)
    else if |stream| < length then (Err(EndOfInput), [])
    else (Ok(Element(tag, stream[..length])), stream[length..])
  }

  /** What reading one element from a stream gives, and what it leaves unread. */
  function ReadElement(stream: seq<byte>, limit: int): (Result<Element, BerError>, seq<byte>) {
    if |stream| < 2 then (Err(EndOfInput), [])
    else if stream[1] < 128 then ReadContent(stream[0], stream[1], stream[2..], limit)
    else
      var k := stream[1] as int - 128;
      if k == 0 || k > 4 then (Err(UnsupportedLength), stream[2..])
      else if |stream| < 2 + k then (Err(EndOfInput), [])
      else ReadContent(stream[0], ToNat(stream[2..2 + k]), stream[2 + k..], limit)
  }

  /** Section 8.1.3 of X.690, the definite forms: one octet below 128, or an octet that counts the
      octets of the length after it. */
  ghost predicate BerLength(octets: seq<byte>, n: nat) {
    if |octets| == 1 then octets[0] < 128 && octets[0] == n
    else 2 <= |octets| <= 127 && octets[0] as int == 127 + |octets| && ToNat(octets[1..]) == n
  }

  /** The stream starts with an encoding of this element whose length takes at most five octets, and
      continues with the rest. */
  ghost predicate StartsWith(stream: seq<byte>, e: Element, rest: seq<byte>) {
    exists octets :: BerLength(octets, |e.content|) && |octets| <= 5 && stream == [e.tag] + octets + e.content + rest
  }

  lemma Segments(stream: seq<byte>, a: nat, b: nat)
    requires 1 <= a <= b <= |stream|
    ensures stream == [stream[0]] + stream[1..a] + stream[a..b] + stream[b..]
  {
  }

  /** No element within the limit starts the stream. */
  ghost predicate NoElement(stream: seq<byte>, limit: int) {
    forall e, rest :: StartsWith(stream, e, rest) ==> |e.content| > limit
  }

  // The header that the reader takes off the stream is a length in the sense of the standard.
  lemma ReadHeader(stream: seq<byte>, limit: int)
    requires ReadElement(stream, limit).0.Ok?
    ensures var (e, rest) := ReadElement(stream, limit);
            |e.value.content| <= limit && StartsWith(stream, e.value, rest)
  {
    var (e, rest) := ReadElement(stream, limit);
    var start, n := if stream[1] < 128 then 2 else stream[1] as int - 126, |e.value.content|;
    assert stream[1..start][1..] == stream[2..start];
    assert BerLength(stream[1..start], n);
    assert e.value.content == stream[start..start + n] && rest == stream[start + n..];
    Segments(stream, start, start + n);
  }

  lemma HeaderIsRead(e: Element, octets: seq<byte>, rest: seq<byte>, limit: int)
    requires BerLength(octets, |e.content|) && |octets| <= 5 && |e.content| <= limit
    ensures ReadElement([e.tag] + octets + e.content + rest, limit) == (Ok(e), rest)
  {
    var tail := e.content + rest;
    HeaderSlices(e.tag, octets, tail);
    assert [e.tag] + octets + e.content + rest == [e.tag] + octets + tail;
    assert tail[..|e.content|] == e.content && tail[|e.content|..] == rest;
  }

  /** What the reader accepts is BER: it gives an element and leaves a rest exactly when the stream
      is an encoding of that element followed by that rest, its content within the limit and its
      length in at most five octets. */
  lemma ReadsBer(stream: seq<byte>, limit: int, e: Element, rest: seq<byte>)
    ensures ReadElement(stream, limit) == (Ok(e), rest) <==> |e.content| <= limit && StartsWith(stream, e, rest)
  {
    if ReadElement(stream, limit) == (Ok(e), rest) { ReadHeader(stream, limit); }
    if |e.content| <= limit && StartsWith(stream, e, rest) {
      var octets :| BerLength(octets, |e.content|) && |octets| <= 5 && stream == [e.tag] + octets + e.content + rest;
      HeaderIsRead(e, octets, rest, limit);
    }
  }

  lemma ElementsAreRead(stream: seq<byte>, limit: int)
    ensures var (r, left) := ReadElement(stream, limit);
            && (r.Ok? ==> |r.value.content| <= limit && StartsWith(stream, r.value, left))
            && (r.Err? ==> NoElement(stream, limit))
  {
    var (r, left) := ReadElement(stream, limit);
    if r.Ok? {
      ReadHeader(stream, limit);
    } else {
      forall e, rest | StartsWith(stream, e, rest) ensures |e.content| > limit { ReadsBer(stream, limit, e, rest); }
    }
  }

  /** A byte stream that is consumed from the front, as io.ReadFull does. */
  class Reader {
    var rest: seq<byte>

    constructor (data: seq<byte>)
      ensures rest == data
    {
      rest := data;
    }

    method ReadFull(n: nat) returns (r: Option<seq<byte>>)
      modifies this
      ensures r == if |old(rest)| < n then None else Some(old(rest)[..n])
      ensures rest == if |old(rest)| < n then [] else old(rest)[n..]
    {
      if |rest| < n {
        r, rest := None, [];
      } else {
        r, rest := Some(rest[..n]), rest[n..];
      }
    }
  }

  method ReadBERElement(reader: Reader, limit: int) returns (r: Result<Element, BerError>)
    modifies reader
    ensures (r, reader.rest) == ReadElement(old(reader.rest), limit)
    ensures r.Ok? ==> |r.value.content| <= limit && StartsWith(old(reader.rest), r.value, reader.rest)
    ensures r.Err? ==> NoElement(old(reader.rest), limit)
  {
    ghost var stream := reader.rest;
    ElementsAreRead(stream, limit);
    var header := reader.ReadFull(2);
    if header.None? { return Err(EndOfInput); }
    var length: nat := header.value[1];
    if header.value[1] >= 128 {
      var lengthBytes := header.value[1] as int - 128;
      if lengthBytes == 0 || lengthBytes > 4 { return Err(UnsupportedLength); }
      var encodedLength := reader.ReadFull(lengthBytes);
      if encodedLength.None? { return Err(EndOfInput); }
      length := 0;
      for i := 0 to lengthBytes
        invariant length == ToNat(encodedLength.value[..i])
      {
        assert encodedLength.value[..i + 1][..i] == encodedLength.value[..i];
        length := length * 256 + encodedLength.value[i];
      }
      assert encodedLength.value[..lengthBytes] == encodedLength.value == stream[2..2 + lengthBytes];
    }
    if length > limit { return Err(LimitExceeded); }
    var content := reader.ReadFull(length);
    if content.None? { return Err(EndOfInput); }
    r := Ok(Element(header.value[0], content.value));
  }

  // ---------------------------------------------------------------- writing

  function LengthOctets(n: nat): seq<byte> {
    if n < 0x80 then [n]
    else if n <= 0xff then [0x81, n]
    else [0x82, n / 256 % 256, n % 256]   // byte(length>>8), byte(length)
  }

  function DerWrap(tag: byte, content: seq<byte>): seq<byte> {
    [tag] + LengthOctets(|content|) + content
  }

  /** The definite form with the fewest octets: sections 8.1.3 and 10.1 of X.690. */
  ghost predicate MinimalLength(octets: seq<byte>, n: nat) {
    if n < 128 then octets == [n]
    else |octets| >= 2 && octets[0] as int == 128 + |octets| - 1 && octets[1] != 0 && ToNat(octets[1..]) == n
  }

  lemma TwoOctets(a: byte, b: byte)
    ensures ToNat([b]) == b && ToNat([a, b]) == a as int * 256 + b as int
  {
    assert [a, b][..1] == [a] && [b][..0] == [] && [a][..0] == [];
  }

  /** Every length up to 65535 is written minimally, and no longer one is written correctly. */
  lemma LengthOctetsMinimal(n: nat)
    ensures MinimalLength(LengthOctets(n), n) <==> n <= 65535
  {
    if n > 0xff {
      TwoOctets(n / 256 % 256, n % 256);
      assert LengthOctets(n)[1..] == [n / 256 % 256, n % 256];
    } else if n >= 0x80 {
      TwoOctets(0, n);
      assert LengthOctets(n)[1..] == [n];
    }
  }

  // What the reader makes of a written element, whatever its length.
  lemma ReadWrapped(tag: byte, content: seq<byte>, suffix: seq<byte>, limit: int)
    ensures var n := if |content| > 0xff then |content| % 65536 else |content|;
            ReadElement(DerWrap(tag, content) + suffix, limit) == ReadContent(tag, n, content + suffix, limit)
  {
    var n := |content|;
    var octets, tail := LengthOctets(n), content + suffix;
    HeaderSlices(tag, octets, tail);
    assert DerWrap(tag, content) + suffix == [tag] + octets + tail;
    if n > 0xff {
      TwoOctets(n / 256 % 256, n % 256);
      assert octets[1..] == [n / 256 % 256, n % 256];
      LowWord(n);
    } else if n >= 0x80 {
      TwoOctets(0, n);
      assert octets[1..] == [n];
    }
  }

  lemma HeaderSlices(tag: byte, octets: seq<byte>, tail: seq<byte>)
    requires octets != []
    ensures var stream := [tag] + octets + tail;
            && stream[0] == tag && stream[1] == octets[0]
            && stream[2..1 + |octets|] == octets[1..] && stream[1 + |octets|..] == tail
  {
  }

  lemma LowWord(n: nat)
    ensures n / 256 % 256 * 256 + n % 256 == n % 65536
  {
  }

  /** The reader undoes the writer, and leaves what follows untouched, exactly for contents of at
      most 65535 octets that respect the limit; the writer truncates the length of longer ones. */
  lemma ReadUndoesWrap(tag: byte, content: seq<byte>, suffix: seq<byte>, limit: int)
    ensures ReadElement(DerWrap(tag, content) + suffix, limit) == (Ok(Element(tag, content)), suffix)
            <==> |content| <= 65535 && |content| <= limit
  {
    ReadWrapped(tag, content, suffix, limit);
    var n := if |content| > 0xff then |content| % 65536 else |content|;
    assert (content + suffix)[..|content|] == content && (content + suffix)[|content|..] == suffix;
    if |content| > 65535 && n <= limit {
      assert |(content + suffix)[..n]| != |content|;
    }
  }

  function Concat(parts: seq<seq<byte>>): seq<byte> {
    if parts == [] then [] else parts[0] + Concat(parts[1..])
  }

  lemma {:induction false} ConcatAppend(parts: seq<seq<byte>>, part: seq<byte>)
    ensures Concat(parts + [part]) == Concat(parts) + part
  {
    if parts == [] {
      assert [] + [part] == [part];
      assert Concat([part]) == part + [];
    } else {
      assert (parts + [part])[1..] == parts[1..] + [part];
      ConcatAppend(parts[1..], part);
    }
  }

  method JoinBytes(values: seq<seq<byte>>) returns (joined: seq<byte>)
    ensures joined == Concat(values)
  {
    joined := [];
    for i := 0 to |values|
      invariant joined == Concat(values[..i])
    {
      ConcatAppend(values[..i], values[i]);
      assert values[..i + 1] == values[..i] + [values[i]];
      joined := joined + values[i];
    }
    assert values[..|values|] == values;
  }

  function WrapAll(elements: seq<Element>): seq<byte> {
    if elements == [] then [] else DerWrap(elements[0].tag, elements[0].content) + WrapAll(elements[1..])
  }

  /** Joined elements can be taken apart in one way only. */
  lemma {:induction false} JoinedElementsAreUnique(a: seq<Element>, b: seq<Element>)
    requires forall i :: 0 <= i < |a| ==> |a[i].content| <= 65535
    requires forall i :: 0 <= i < |b| ==> |b[i].content| <= 65535
    requires WrapAll(a) == WrapAll(b)
    ensures a == b
  {
    if a != [] && b != [] {
      ReadUndoesWrap(a[0].tag, a[0].content, WrapAll(a[1..]), 65535);
      ReadUndoesWrap(b[0].tag, b[0].content, WrapAll(b[1..]), 65535);
      assert a[0] == b[0];
      JoinedElementsAreUnique(a[1..], b[1..]);
      assert a == [a[0]] + a[1..] && b == [b[0]] + b[1..];
    }
  }

  // ---------------------------------------------------------------- integers

  const INTEGER: byte := 0x02

  /** The content octets of derInteger; the conversions to byte keep the low eight bits. */
  function IntegerContent(value: int): seq<byte> {
    var content: seq<byte> := if value > 0xff then [value / 256 % 256, value % 256] else [value % 256];
    if content[0] >= 0x80 then [0] + content else content
  }

  function DerInteger(value: int): seq<byte> {
    DerWrap(INTEGER, IntegerContent(value))
  }

  function Power256(n: nat): nat {
    if n == 0 then 1 else 256 * Power256(n - 1)
  }

  /** Two's complement, section 8.3.3 of X.690. */
  function TwosComplement(octets: seq<byte>): int
    requires octets != []
  {
    if octets[0] >= 128 then ToNat(octets) - Power256(|octets|) else ToNat(octets)
  }

  /** Section 8.3.2 of X.690: the first nine bits are neither all zero nor all one. */
  predicate MinimalInteger(octets: seq<byte>) {
    octets != [] && (|octets| > 1 ==> !(octets[0] == 0 && octets[1] < 128) && !(octets[0] == 255 && octets[1] >= 128))
  }

  /** derInteger is right on exactly 0..65535, where it is also minimal. */
  lemma IntegerDecodes(value: int)
    ensures TwosComplement(IntegerContent(value)) == value <==> 0 <= value <= 65535
    ensures 0 <= value <= 65535 ==> MinimalInteger(IntegerContent(value))
  {
    var low: byte, high: byte := value % 256, value / 256 % 256;
    var content := IntegerContent(value);
    TwoOctets(high, low);
    TwoOctets(0, low);
    LeadingZero([low]);
    LeadingZero([high, low]);
    assert content == if value > 0xff then (if high >= 128 then [0] + [high, low] else [high, low])
                      else if low >= 128 then [0] + [low] else [low];
    assert value > 0xff ==> high as int * 256 + low as int == value % 65536;
  }

  lemma {:induction false} LeadingZero(octets: seq<byte>)
    ensures ToNat([0] + octets) == ToNat(octets)
  {
    if octets == [] {
      TwoOctets(0, 0);
      assert [0] + octets == [0];
    } else {
      assert ([0] + octets)[..|octets|] == [0] + octets[..|octets| - 1];
      LeadingZero(octets[..|octets| - 1]);
    }
  }

  // ---------------------------------------------------------------- nested elements

  /** A value with the tags and contents that reading it again and again should uncover. */
  datatype Tree = Primitive(tag: byte, content: seq<byte>) | Constructed(tag: byte, children: seq<Tree>)

  function Encode(t: Tree): seq<byte>
    decreases t, 1
  {
    DerWrap(t.tag, Body(t))
  }

  function Body(t: Tree): seq<byte>
    decreases t, 0
  {
    match t
    case Primitive(_, content) => content
    case Constructed(_, children) => EncodeAll(children)
  }

  function EncodeAll(ts: seq<Tree>): seq<byte>
    decreases ts, 0
  {
    if ts == [] then [] else Encode(ts[0]) + EncodeAll(ts[1..])
  }

  /** Reading the stream, and then reading inside the contents it gives, uncovers exactly t. */
  predicate ReadsAs(stream: seq<byte>, limit: int, t: Tree, rest: seq<byte>)
    decreases t, 1
  {
    var (element, left) := ReadElement(stream, limit);
    && element.Ok? && element.value.tag == t.tag && left == rest
    && match t
       case Primitive(_, content) => element.value.content == content
       case Constructed(_, children) => ReadsAllAs(element.value.content, limit, children)
  }

  predicate ReadsAllAs(stream: seq<byte>, limit: int, ts: seq<Tree>)
    decreases ts, 0
  {
    if ts == [] then stream == []
    else
      var rest := ReadElement(stream, limit).1;
      ReadsAs(stream, limit, ts[0], rest) && ReadsAllAs(rest, limit, ts[1..])
  }

  // A child's content is shorter than its parent's.
  lemma WrapIsLonger(tag: byte, content: seq<byte>)
    ensures |content| + 2 <= |DerWrap(tag, content)| <= |content| + 4
  {
  }

  lemma {:induction false} SmallTreesRead(t: Tree, suffix: seq<byte>, limit: int)
    requires |Body(t)| <= 65535 && |Body(t)| <= limit
    ensures ReadsAs(Encode(t) + suffix, limit, t, suffix)
    decreases t, 1
  {
    ReadUndoesWrap(t.tag, Body(t), suffix, limit);
    if t.Constructed? { SmallForestsRead(t.children, limit); }
  }

  lemma {:induction false} SmallForestsRead(ts: seq<Tree>, limit: int)
    requires |EncodeAll(ts)| <= 65535 && |EncodeAll(ts)| <= limit
    ensures ReadsAllAs(EncodeAll(ts), limit, ts)
    decreases ts, 0
  {
    if ts != [] {
      WrapIsLonger(ts[0].tag, Body(ts[0]));
      SmallTreesRead(ts[0], EncodeAll(ts[1..]), limit);
      SmallForestsRead(ts[1..], limit);
    }
  }

  // Reading an element uses at least the octets that writing its content minimally takes.
  lemma ReadingUsesOctets(stream: seq<byte>, limit: int)
    requires ReadElement(stream, limit).0.Ok?
    ensures var (element, rest) := ReadElement(stream, limit);
            |stream| - |rest| >= |DerWrap(element.value.tag, element.value.content)|
  {
    if stream[1] >= 128 {
      var k := stream[1] as int - 128;
      if k == 1 {
        assert stream[2..3] == [stream[2]];
        TwoOctets(0, stream[2]);
      }
    }
  }

  lemma {:induction false} TreesNeedTheirSize(stream: seq<byte>, limit: int, t: Tree, rest: seq<byte>)
    requires ReadsAs(stream, limit, t, rest)
    ensures |stream| - |rest| >= |Encode(t)| && |ReadElement(stream, limit).0.value.content| >= |Body(t)|
    decreases t, 1
  {
    ReadingUsesOctets(stream, limit);
    var content := ReadElement(stream, limit).0.value.content;
    if t.Constructed? { ForestsNeedTheirSize(content, limit, t.children); }
    WrapMonotone(t.tag, Body(t), content);
  }

  lemma WrapMonotone(tag: byte, a: seq<byte>, b: seq<byte>)
    requires |a| <= |b|
    ensures |DerWrap(tag, a)| <= |DerWrap(tag, b)|
  {
  }

  lemma {:induction false} ForestsNeedTheirSize(stream: seq<byte>, limit: int, ts: seq<Tree>)
    requires ReadsAllAs(stream, limit, ts)
    ensures |stream| >= |EncodeAll(ts)|
    decreases ts, 0
  {
    if ts != [] {
      var rest := ReadElement(stream, limit).1;
      TreesNeedTheirSize(stream, limit, ts[0], rest);
      ForestsNeedTheirSize(rest, limit, ts[1..]);
    }
  }

  /** A nested value reads back exactly when its outermost content has at most 65535 octets and
      respects the limit. */
  lemma TreeReadsBack(t: Tree, suffix: seq<byte>, limit: int)
    ensures ReadsAs(Encode(t) + suffix, limit, t, suffix) <==> |Body(t)| <= 65535 && |Body(t)| <= limit
  {
    if |Body(t)| <= 65535 && |Body(t)| <= limit {
      SmallTreesRead(t, suffix, limit);
    } else if ReadsAs(Encode(t) + suffix, limit, t, suffix) {
      ReadWrapped(t.tag, Body(t), suffix, limit);
      TreesNeedTheirSize(Encode(t) + suffix, limit, t, suffix);
    }
  }
}
