/** The DNS message walker of internal/probe/dns.go, against the name encoding of sections 2.3.4
    and 4.1.4 and the record layout of section 4.1.3 of RFC 1035. */
module DnsMessage {
  import opened Common

  // ---------------------------------------------------------------- names, as the standard has them

  /** One step of reading a name: a label of some length, or a compression pointer. */
  datatype Chunk = Label(length: nat) | Jump(target: nat)

  // The 14 low bits of a two-octet pointer.
  function PointerAt(message: seq<byte>, offset: nat): nat
    requires offset + 1 < |message|
  {
    message[offset] as int % 64 * 256 + message[offset + 1] as int
  }

  /** The octet at `offset` starts this chunk. The two high bits tell a label (00) from a
      pointer (11); pointers go strictly backwards. */
  predicate ChunkAt(message: seq<byte>, offset: nat, chunk: Chunk) {
    && offset < |message|
    && match chunk
       case Label(n) => 1 <= n <= 63 && message[offset] == n && offset + 1 + n <= |message|
       case Jump(p) =>
         message[offset] >= 192 && offset + 1 < |message| &&
         p == PointerAt(message, offset) && p < offset
  }

  function NextOffset(offset: nat, chunk: Chunk): nat {
    match chunk
    case Label(n) => offset + 1 + n
    case Jump(p) => p
  }

  /** Reading a name at `offset` meets these chunks and then the root label. */
  predicate Spells(message: seq<byte>, offset: nat, chunks: seq<Chunk>)
    decreases chunks
  {
    if chunks == [] then offset < |message| && message[offset] == 0
    else ChunkAt(message, offset, chunks[0]) && Spells(message, NextOffset(offset, chunks[0]), chunks[1..])
  }

  /** The length of the expanded name: every label with its length octet, and the root. */
  function Octets(chunks: seq<Chunk>): nat {
    if chunks == [] then 1
    else Octets(chunks[1..]) + if chunks[0].Label? then chunks[0].length + 1 else 0
  }

  /** Where the field that holds the name ends: after the root label or after the first pointer. */
  function EndOf(offset: nat, chunks: seq<Chunk>): nat
    decreases chunks
  {
    if chunks == [] then offset + 1
    else match chunks[0]
      case Label(n) => EndOf(offset + 1 + n, chunks[1..])
      case Jump(_) => offset + 2
  }

  ghost predicate ValidName(message: seq<byte>, offset: nat, chunks: seq<Chunk>) {
    Spells(message, offset, chunks) && Octets(chunks) <= 255
  }

  lemma {:induction false} SpellingIsUnique(message: seq<byte>, offset: nat, a: seq<Chunk>, b: seq<Chunk>)
    requires Spells(message, offset, a) && Spells(message, offset, b)
    ensures a == b
    decreases a
  {
    if a != [] && b != [] {
      assert a[0] == b[0];
      SpellingIsUnique(message, NextOffset(offset, a[0]), a[1..], b[1..]);
      assert a == [a[0]] + a[1..] && b == [b[0]] + b[1..];
    }
  }

  /** The offsets that reading the name visits. */
  function Visited(offset: nat, chunks: seq<Chunk>): seq<nat>
    decreases chunks
  {
    [offset] + if chunks == [] then [] else Visited(NextOffset(offset, chunks[0]), chunks[1..])
  }

  lemma {:induction false} VisitedSpells(message: seq<byte>, offset: nat, chunks: seq<Chunk>, i: nat)
    requires Spells(message, offset, chunks) && i <= |chunks|
    ensures |Visited(offset, chunks)| == |chunks| + 1
    ensures Spells(message, Visited(offset, chunks)[i], chunks[i..])
    decreases chunks
  {
    if chunks != [] {
      VisitedSpells(message, NextOffset(offset, chunks[0]), chunks[1..], if i == 0 then 0 else i - 1);
      if i > 0 { assert chunks[1..][i - 1..] == chunks[i..]; }
    }
  }

  /** A name that can be read visits no offset twice, so it takes no more steps than the message
      has octets. */
  lemma NameVisitsEachOffsetOnce(message: seq<byte>, offset: nat, chunks: seq<Chunk>)
    requires Spells(message, offset, chunks)
    ensures forall i, j :: 0 <= i < j < |Visited(offset, chunks)| ==>
              Visited(offset, chunks)[i] != Visited(offset, chunks)[j]
    ensures |chunks| + 1 <= |message|
  {
    var visited := Visited(offset, chunks);
    VisitedSpells(message, offset, chunks, 0);
    forall i | 0 <= i < |visited| ensures visited[i] < |message| {
      VisitedSpells(message, offset, chunks, i);
    }
    forall i, j | 0 <= i < j < |visited| ensures visited[i] != visited[j] {
      VisitedSpells(message, offset, chunks, i);
      VisitedSpells(message, offset, chunks, j);
      if visited[i] == visited[j] {
        SpellingIsUnique(message, visited[i], chunks[i..], chunks[j..]);
      }
    }
    Pigeonhole(visited, |message|);
  }

  // ---------------------------------------------------------------- dnsNameEnd

  datatype NameError =
    | NameTruncated | PointerTruncated | PointerNotBackwards | UnsupportedLabel | LabelTruncated
    | NameTooLong | ChainTooLong

  /** The walk without its step cap. It ends because every label uses up some of the 254 octets
      and every pointer goes back. The result is the end of the field and the chunks met. */
  function Walk(message: seq<byte>, offset: nat, expanded: nat, consumedEnd: Option<nat>)
    : Result<(nat, seq<Chunk>), NameError>
    requires expanded <= 254
    decreases 254 - expanded, offset
  {
    if offset >= |message| then Err(NameTruncated)
    else if message[offset] == 0 then Ok((if consumedEnd.Some? then consumedEnd.value else offset + 1, []))
    else if message[offset] >= 192 then
      if offset + 1 >= |message| then Err(PointerTruncated)
      else
        var pointer := PointerAt(message, offset);
        if pointer >= offset then Err(PointerNotBackwards)
        else Prepend(Jump(pointer),
                     Walk(message, pointer, expanded, if consumedEnd.Some? then consumedEnd else Some(offset + 2)))
    else if message[offset] >= 64 then Err(UnsupportedLabel)
    else
      var n := message[offset];
      if offset + 1 + n > |message| then Err(LabelTruncated)
      else if expanded + n + 1 > 254 then Err(NameTooLong)
      else Prepend(Label(n), Walk(message, offset + 1 + n, expanded + n + 1, consumedEnd))
  }

  function Prepend(chunk: Chunk, r: Result<(nat, seq<Chunk>), NameError>): Result<(nat, seq<Chunk>), NameError> {
    match r
    case Ok((end, chunks)) => Ok((end, [chunk] + chunks))
    case Err(e) => Err(e)
  }

  /** The uncapped walk succeeds exactly on the names of at most 255 octets, and finds their end. */
  lemma {:induction false} WalkReadsNames(message: seq<byte>, offset: nat, expanded: nat, consumedEnd: Option<nat>)
    requires expanded <= 254
    ensures var r := Walk(message, offset, expanded, consumedEnd);
            r.Ok? ==> && Spells(message, offset, r.value.1) && expanded + Octets(r.value.1) <= 255
                      && r.value.0 == if consumedEnd.Some? then consumedEnd.value else EndOf(offset, r.value.1)
    decreases 254 - expanded, offset
  {
    if offset < |message| && message[offset] != 0 {
      if message[offset] >= 192 {
        if offset + 1 < |message| {
          var pointer := PointerAt(message, offset);
          if pointer < offset {
            WalkReadsNames(message, pointer, expanded, if consumedEnd.Some? then consumedEnd else Some(offset + 2));
          }
        }
      } else if message[offset] < 64 && expanded + message[offset] + 1 <= 254 {
        WalkReadsNames(message, offset + 1 + message[offset], expanded + message[offset] + 1, consumedEnd);
      }
    }
  }

  lemma {:induction false} NamesAreWalked(message: seq<byte>, offset: nat, expanded: nat, consumedEnd: Option<nat>,
                                          chunks: seq<Chunk>)
    requires expanded <= 254 && Spells(message, offset, chunks) && expanded + Octets(chunks) <= 255
    ensures Walk(message, offset, expanded, consumedEnd).Ok?
    ensures Walk(message, offset, expanded, consumedEnd).value.1 == chunks
    decreases chunks
  {
    if chunks != [] {
      OctetsPositive(chunks[1..]);
      match chunks[0] {
        case Label(n) => NamesAreWalked(message, offset + 1 + n, expanded + n + 1, consumedEnd, chunks[1..]);
        case Jump(p) =>
          NamesAreWalked(message, p, expanded, if consumedEnd.Some? then consumedEnd else Some(offset + 2), chunks[1..]);
      }
    }
  }

  lemma OctetsPositive(chunks: seq<Chunk>)
    ensures Octets(chunks) >= 1
  {
  }

  // After `steps` chunks of the whole walk, `rest` is what remains of it.
  ghost predicate Remains(whole: Result<(nat, seq<Chunk>), NameError>, steps: nat,
                          rest: Result<(nat, seq<Chunk>), NameError>) {
    match whole
    case Ok((end, chunks)) => steps <= |chunks| && rest == Ok((end, chunks[steps..]))
    case Err(e) => rest == Err(e)
  }

  lemma RemainsAfterChunk(whole: Result<(nat, seq<Chunk>), NameError>, steps: nat, chunk: Chunk,
                          rest: Result<(nat, seq<Chunk>), NameError>)
    requires Remains(whole, steps, Prepend(chunk, rest))
    ensures Remains(whole, steps + 1, rest)
  {
    if whole.Ok? && rest.Ok? {
      var chunks := whole.value.1;
      assert chunks[steps..] == [chunk] + rest.value.1;
      assert chunks[steps + 1..] == chunks[steps..][1..] == rest.value.1;
    }
  }

  // Any spelling at `start` continues at `offset` after its first `steps` chunks.
  ghost predicate Continues(message: seq<byte>, start: nat, steps: nat, offset: nat) {
    forall chunks :: Spells(message, start, chunks) ==> steps <= |chunks| && Spells(message, offset, chunks[steps..])
  }

  lemma ContinuesAfterChunk(message: seq<byte>, start: nat, steps: nat, offset: nat, chunk: Chunk)
    requires Continues(message, start, steps, offset) && ChunkAt(message, offset, chunk)
    ensures Continues(message, start, steps + 1, NextOffset(offset, chunk))
  {
    forall chunks | Spells(message, start, chunks)
      ensures steps + 1 <= |chunks| && Spells(message, NextOffset(offset, chunk), chunks[steps + 1..]) {
      var rest := chunks[steps..];
      assert Spells(message, offset, rest) && rest != [] && rest[0] == chunk;
      assert rest[1..] == chunks[steps + 1..];
    }
  }

  /** The uncapped walk finds a name exactly when one of at most 255 octets is encoded at `start`,
      and that name and the end of its field are the only ones. */
  lemma WalkIsValidName(message: seq<byte>, start: nat)
    ensures var whole := Walk(message, start, 0, None);
            && (whole.Ok? <==> exists chunks :: ValidName(message, start, chunks))
            && (forall chunks :: ValidName(message, start, chunks) ==> whole == Ok((EndOf(start, chunks), chunks)))
  {
    var whole := Walk(message, start, 0, None);
    WalkReadsNames(message, start, 0, None);
    forall chunks | ValidName(message, start, chunks) ensures whole == Ok((EndOf(start, chunks), chunks)) {
      NamesAreWalked(message, start, 0, None, chunks);
    }
    if whole.Ok? { assert ValidName(message, start, whole.value.1); }
  }

  // No spelling takes as many steps as the cap allows.
  lemma CapIsNeverReachedByAName(message: seq<byte>, start: nat, steps: nat, offset: nat)
    requires Continues(message, start, steps, offset) && steps > |message|
    ensures forall chunks :: !Spells(message, start, chunks)
  {
    forall chunks ensures !Spells(message, start, chunks) {
      if Spells(message, start, chunks) { NameVisitsEachOffsetOnce(message, start, chunks); }
    }
  }

  /** The capped walk gives the uncapped walk's end and errors; the one error it adds, for a chain
      that is too long, only ever meets what reaches no root label at all. */
  method DnsNameEnd(message: seq<byte>, start: nat) returns (r: Result<nat, NameError>)
    ensures r == Err(ChainTooLong) ==> forall chunks :: !Spells(message, start, chunks)
    ensures match Walk(message, start, 0, None)
            case Ok(walked) => r == Ok(walked.0)
            case Err(e) => r == Err(e) || r == Err(ChainTooLong)
  {
    ghost var whole := Walk(message, start, 0, None);
    var offset: nat, consumedEnd: Option<nat>, expanded: nat := start, None, 0;
    assert Continues(message, start, 0, offset) by {
      forall chunks: seq<Chunk> ensures chunks[0..] == chunks {}
    }
    for steps := 0 to |message| + 1
      invariant expanded <= 254
      invariant Remains(whole, steps, Walk(message, offset, expanded, consumedEnd))
      invariant Continues(message, start, steps, offset)
    {
      if offset >= |message| {
        return Err(NameTruncated);
      }
      var length := message[offset];
      if length == 0 {
        return Ok(if consumedEnd.Some? then consumedEnd.value else offset + 1);
      }
      if length >= 192 {
        if offset + 1 >= |message| {
          return Err(PointerTruncated);
        }
        var pointer := PointerAt(message, offset);
        if pointer >= offset {
          return Err(PointerNotBackwards);
        }
        ContinuesAfterChunk(message, start, steps, offset, Jump(pointer));
        if consumedEnd.None? {
          consumedEnd := Some(offset + 2);
        }
        RemainsAfterChunk(whole, steps, Jump(pointer), Walk(message, pointer, expanded, consumedEnd));
        offset := pointer;
      } else {
        if length >= 64 {
          return Err(UnsupportedLabel);
        }
        if offset + 1 + length > |message| {
          return Err(LabelTruncated);
        }
        expanded := expanded + length + 1;
        if expanded > 254 {
          return Err(NameTooLong);
        }
        ContinuesAfterChunk(message, start, steps, offset, Label(length));
        offset := offset + 1 + length;
        RemainsAfterChunk(whole, steps, Label(length), Walk(message, offset, expanded, consumedEnd));
      }
    }
    CapIsNeverReachedByAName(message, start, |message| + 1, offset);
    WalkIsValidName(message, start);
    r := Err(ChainTooLong);
  }

  // ---------------------------------------------------------------- validateDNSResourceRecords

  /** One resource record of a message: its name and the stated length of its RDATA. */
  datatype Record = Record(name: seq<Chunk>, dataLength: nat)

  /** The octets from `offset` to the end of the message are exactly these records: a valid name,
      ten octets of which the last two state the length of the RDATA, and that many octets. */
  ghost predicate Tiles(message: seq<byte>, offset: nat, records: seq<Record>)
    decreases records
  {
    if records == [] then offset == |message|
    else
      var fixed := EndOf(offset, records[0].name);
      && ValidName(message, offset, records[0].name)
      && fixed + 10 <= |message|
      && records[0].dataLength == Uint16At(message, fixed + 8)
      && Tiles(message, fixed + 10 + records[0].dataLength, records[1..])
  }

  lemma {:induction false} TilingIsUnique(message: seq<byte>, offset: nat, a: seq<Record>, b: seq<Record>)
    requires Tiles(message, offset, a) && Tiles(message, offset, b)
    ensures a == b
    decreases a
  {
    if a != [] && b != [] {
      SpellingIsUnique(message, offset, a[0].name, b[0].name);
      assert a[0] == b[0];
      TilingIsUnique(message, EndOf(offset, a[0].name) + 10 + a[0].dataLength, a[1..], b[1..]);
      assert a == [a[0]] + a[1..] && b == [b[0]] + b[1..];
    } else if a != [] {
      RecordsTakeSpace(message, offset, a);
    } else if b != [] {
      RecordsTakeSpace(message, offset, b);
    }
  }

  lemma {:induction false} EndIsAfter(offset: nat, chunks: seq<Chunk>)
    ensures EndOf(offset, chunks) >= offset + 1
    decreases chunks
  {
    if chunks != [] && chunks[0].Label? { EndIsAfter(offset + 1 + chunks[0].length, chunks[1..]); }
  }

  /** A message that tiles into records has at least eleven octets for each. */
  lemma {:induction false} RecordsTakeSpace(message: seq<byte>, offset: nat, records: seq<Record>)
    requires Tiles(message, offset, records)
    ensures offset <= |message| && 11 * |records| <= |message| - offset
    decreases records
  {
    if records != [] {
      EndIsAfter(offset, records[0].name);
      RecordsTakeSpace(message, EndOf(offset, records[0].name) + 10 + records[0].dataLength, records[1..]);
    }
  }

  datatype RecordsError =
    | BadName(record: nat, error: NameError) | HeaderTruncated(record: nat) | DataTruncated(record: nat)
    | TrailingBytes

  ghost predicate Tileable(message: seq<byte>, start: nat, count: nat) {
    exists records :: Tiles(message, start, records) && |records| == count
  }

  // `next` follows the record that starts at `offset`.
  ghost predicate RecordAt(message: seq<byte>, offset: nat, name: seq<Chunk>, next: nat) {
    && ValidName(message, offset, name) && EndOf(offset, name) + 10 <= |message|
    && next == EndOf(offset, name) + 10 + Uint16At(message, EndOf(offset, name) + 8)
  }

  lemma OneRecordLess(message: seq<byte>, offset: nat, count: nat, name: seq<Chunk>, next: nat)
    requires count > 0 && RecordAt(message, offset, name, next)
    ensures Tileable(message, offset, count) <==> Tileable(message, next, count - 1)
  {
    if Tileable(message, offset, count) {
      var records: seq<Record> :| Tiles(message, offset, records) && |records| == count;
      SpellingIsUnique(message, offset, name, records[0].name);
      assert Tiles(message, next, records[1..]);
    }
    if Tileable(message, next, count - 1) {
      var rest: seq<Record> :| Tiles(message, next, rest) && |rest| == count - 1;
      var records := [Record(name, next - EndOf(offset, name) - 10)] + rest;
      assert records[1..] == rest;
      assert Tiles(message, offset, records);
    }
  }

  lemma FirstRecordFits(message: seq<byte>, offset: nat, count: nat)
    requires count > 0 && Tileable(message, offset, count)
    ensures exists name, next: nat :: RecordAt(message, offset, name, next) && next <= |message|
  {
    var records: seq<Record> :| Tiles(message, offset, records) && |records| == count;
    var name := records[0].name;
    var next := EndOf(offset, name) + 10 + records[0].dataLength;
    assert RecordAt(message, offset, name, next);
    RecordsTakeSpace(message, next, records[1..]);
  }

  /** The records are accepted exactly when the rest of the message tiles into `count` of them. */
  method ValidateDNSResourceRecords(message: seq<byte>, start: nat, count: nat)
    returns (r: Result<(), RecordsError>)
    ensures r.Ok? <==> exists records :: Tiles(message, start, records) && |records| == count
    ensures r.Ok? ==> start <= |message| && 11 * count <= |message| - start
  {
    var offset: nat := start;
    for record := 0 to count
      invariant Tileable(message, start, count) <==> Tileable(message, offset, count - record)
    {
      if Tileable(message, offset, count - record) { FirstRecordFits(message, offset, count - record); }
      var nameEnd := DnsNameEnd(message, offset);
      WalkIsValidName(message, offset);
      if nameEnd.Err? {
        return Err(BadName(record, nameEnd.error));
      }
      ghost var name :| ValidName(message, offset, name);
      ghost var at := offset;
      forall other | ValidName(message, at, other) ensures other == name { SpellingIsUnique(message, at, other, name); }
      offset := nameEnd.value;
      if offset + 10 > |message| {
        return Err(HeaderTruncated(record));
      }
      var dataLength := Uint16At(message, offset + 8);
      offset := offset + 10;
      OneRecordLess(message, at, count - record, name, offset + dataLength);
      if offset + dataLength > |message| {
        return Err(DataTruncated(record));
      }
      offset := offset + dataLength;
    }
    assert Tileable(message, offset, 0) <==> offset == |message| by { assert Tiles(message, |message|, []); }
    if offset != |message| {
      return Err(TrailingBytes);
    }
    ghost var records :| Tiles(message, start, records) && |records| == count;
    RecordsTakeSpace(message, start, records);
    r := Ok(());
  }

  // ---------------------------------------------------------------- every legal reply is accepted

  /** A name as section 4.1.4 of RFC 1035 has it written: labels, then the root or a pointer. */
  datatype Name = Name(labels: seq<seq<byte>>, pointer: Option<nat>)

  datatype ResourceRecord = ResourceRecord(name: Name, typeClassTtl: seq<byte>, data: seq<byte>)

  function Uint16(n: nat): seq<byte>
    requires n < 65536
  {
    [n / 256, n % 256]
  }

  function EncodeLabels(labels: seq<seq<byte>>): seq<byte>
    requires forall i :: 0 <= i < |labels| ==> 1 <= |labels[i]| <= 63
  {
    if labels == [] then [] else [|labels[0]|] + labels[0] + EncodeLabels(labels[1..])
  }

  function LabelChunks(labels: seq<seq<byte>>): seq<Chunk> {
    if labels == [] then [] else [Label(|labels[0]|)] + LabelChunks(labels[1..])
  }

  predicate Writable(r: ResourceRecord) {
    && (forall i :: 0 <= i < |r.name.labels| ==> 1 <= |r.name.labels[i]| <= 63)
    && (r.name.pointer.Some? ==> r.name.pointer.value < 16384)
    && |r.typeClassTtl| == 8 && |r.data| < 65536
  }

  predicate AllWritable(records: seq<ResourceRecord>) {
    forall i :: 0 <= i < |records| ==> Writable(records[i])
  }

  function Tail(n: Name): seq<byte>
    requires n.pointer.Some? ==> n.pointer.value < 16384
  {
    match n.pointer
    case None => [0]
    case Some(p) => [192 + p / 256, p % 256]
  }

  function EncodeRecord(r: ResourceRecord): seq<byte>
    requires Writable(r)
  {
    EncodeLabels(r.name.labels) + Tail(r.name) + r.typeClassTtl + Uint16(|r.data|) + r.data
  }

  function EncodeRecords(records: seq<ResourceRecord>): seq<byte>
    requires AllWritable(records)
  {
    if records == [] then [] else EncodeRecord(records[0]) + EncodeRecords(records[1..])
  }

  // What is read of the name from its tail on: a pointer leads back to a name before the tail.
  ghost predicate Completes(message: seq<byte>, tail: nat, n: Name, rest: seq<Chunk>) {
    match n.pointer
    case None => rest == []
    case Some(p) => p < tail && rest != [] && rest[0] == Jump(p) && Spells(message, p, rest[1..])
  }

  // A name written at `offset` is legal: its pointer, if any, leads to a name, and it has at most
  // 255 octets in all.
  ghost predicate LegalNameAt(message: seq<byte>, offset: nat, n: Name)
    requires forall i :: 0 <= i < |n.labels| ==> 1 <= |n.labels[i]| <= 63
  {
    exists rest :: Completes(message, offset + |EncodeLabels(n.labels)|, n, rest)
                   && Octets(LabelChunks(n.labels) + rest) <= 255
  }

  ghost predicate LegalRecordsAt(message: seq<byte>, offset: nat, records: seq<ResourceRecord>)
    requires AllWritable(records)
    decreases records
  {
    records != [] ==> && LegalNameAt(message, offset, records[0].name)
                      && LegalRecordsAt(message, offset + |EncodeRecord(records[0])|, records[1..])
  }

  // The octets of `part` stand in the message at `offset`.
  predicate Has(message: seq<byte>, offset: nat, part: seq<byte>) {
    offset + |part| <= |message| && message[offset..offset + |part|] == part
  }

  lemma HasSplit(message: seq<byte>, offset: nat, a: seq<byte>, b: seq<byte>)
    requires Has(message, offset, a + b)
    ensures Has(message, offset, a) && Has(message, offset + |a|, b)
  {
    var whole := message[offset..offset + |a + b|];
    assert message[offset..offset + |a|] == whole[..|a|] == a;
    assert message[offset + |a|..offset + |a| + |b|] == whole[|a|..] == b;
  }

  lemma HasByte(message: seq<byte>, offset: nat, part: seq<byte>, i: nat)
    requires Has(message, offset, part) && i < |part|
    ensures message[offset + i] == part[i]
  {
    assert message[offset..offset + |part|][i] == part[i];
  }

  lemma PrependLabel(message: seq<byte>, offset: nat, n: nat, rest: seq<Chunk>)
    requires ChunkAt(message, offset, Label(n)) && Spells(message, offset + 1 + n, rest)
    ensures Spells(message, offset, [Label(n)] + rest)
    ensures EndOf(offset, [Label(n)] + rest) == EndOf(offset + 1 + n, rest)
  {
    assert ([Label(n)] + rest)[1..] == rest;
  }

  lemma LabelChunksCons(labels: seq<seq<byte>>, tail: seq<Chunk>)
    requires labels != []
    ensures LabelChunks(labels) + tail == [Label(|labels[0]|)] + (LabelChunks(labels[1..]) + tail)
  {
  }

  lemma {:induction false} OctetsOfLabels(labels: seq<seq<byte>>, tail: seq<Chunk>)
    ensures Octets(LabelChunks(labels) + tail) == Octets(LabelChunks(labels)) - 1 + Octets(tail)
  {
    if labels == [] {
      assert LabelChunks(labels) + tail == tail;
    } else {
      var later := LabelChunks(labels[1..]);
      OctetsOfLabels(labels[1..], tail);
      LabelChunksCons(labels, tail);
      assert (LabelChunks(labels) + tail)[1..] == later + tail;
      assert LabelChunks(labels)[1..] == later;
    }
  }

  lemma FirstLabel(message: seq<byte>, offset: nat, labels: seq<seq<byte>>)
    requires (forall i :: 0 <= i < |labels| ==> 1 <= |labels[i]| <= 63) && labels != []
    requires Has(message, offset, EncodeLabels(labels))
    ensures var n := |labels[0]|;
            && ChunkAt(message, offset, Label(n))
            && Has(message, offset + 1 + n, EncodeLabels(labels[1..]))
            && |EncodeLabels(labels)| == 1 + n + |EncodeLabels(labels[1..])|
  {
    var first, rest := [|labels[0]|] + labels[0], EncodeLabels(labels[1..]);
    assert EncodeLabels(labels) == first + rest;
    HasSplit(message, offset, first, rest);
    HasByte(message, offset, first, 0);
  }

  lemma {:induction false} LabelsAreSpelled(message: seq<byte>, offset: nat, labels: seq<seq<byte>>, tail: seq<Chunk>)
    requires forall i :: 0 <= i < |labels| ==> 1 <= |labels[i]| <= 63
    requires Has(message, offset, EncodeLabels(labels))
    requires Spells(message, offset + |EncodeLabels(labels)|, tail)
    ensures Spells(message, offset, LabelChunks(labels) + tail)
    ensures EndOf(offset, LabelChunks(labels) + tail) == EndOf(offset + |EncodeLabels(labels)|, tail)
    decreases labels
  {
    if labels == [] {
      assert LabelChunks(labels) + tail == tail;
    } else {
      FirstLabel(message, offset, labels);
      LabelsAreSpelled(message, offset + 1 + |labels[0]|, labels[1..], tail);
      PrependLabel(message, offset, |labels[0]|, LabelChunks(labels[1..]) + tail);
      LabelChunksCons(labels, tail);
    }
  }

  lemma TailIsSpelled(message: seq<byte>, offset: nat, n: Name, rest: seq<Chunk>)
    requires n.pointer.Some? ==> n.pointer.value < 16384
    requires Has(message, offset, Tail(n)) && Completes(message, offset, n, rest)
    ensures Spells(message, offset, rest) && EndOf(offset, rest) == offset + |Tail(n)|
  {
    HasByte(message, offset, Tail(n), 0);
    if n.pointer.Some? {
      HasByte(message, offset, Tail(n), 1);
      assert PointerAt(message, offset) == n.pointer.value;
    }
  }

  lemma EncodedNameIsValid(message: seq<byte>, offset: nat, n: Name, rest: seq<Chunk>)
    requires forall i :: 0 <= i < |n.labels| ==> 1 <= |n.labels[i]| <= 63
    requires n.pointer.Some? ==> n.pointer.value < 16384
    requires Has(message, offset, EncodeLabels(n.labels) + Tail(n))
    requires Completes(message, offset + |EncodeLabels(n.labels)|, n, rest)
    ensures Spells(message, offset, LabelChunks(n.labels) + rest)
    ensures EndOf(offset, LabelChunks(n.labels) + rest) == offset + |EncodeLabels(n.labels) + Tail(n)|
  {
    HasSplit(message, offset, EncodeLabels(n.labels), Tail(n));
    TailIsSpelled(message, offset + |EncodeLabels(n.labels)|, n, rest);
    LabelsAreSpelled(message, offset, n.labels, rest);
  }

  // What stands after the name of a written record.
  lemma RecordAfterName(message: seq<byte>, offset: nat, r: ResourceRecord)
    requires Writable(r) && Has(message, offset, EncodeRecord(r))
    ensures var name := EncodeLabels(r.name.labels) + Tail(r.name);
            && Has(message, offset, name) && offset + |name| + 10 <= |message|
            && Uint16At(message, offset + |name| + 8) == |r.data|
            && |EncodeRecord(r)| == |name| + 10 + |r.data|
  {
    var name, size := EncodeLabels(r.name.labels) + Tail(r.name), Uint16(|r.data|);
    var fixed := r.typeClassTtl + size;
    assert EncodeRecord(r) == name + (fixed + r.data);
    HasSplit(message, offset, name, fixed + r.data);
    HasSplit(message, offset + |name|, fixed, r.data);
    HasByte(message, offset + |name|, fixed, 8);
    HasByte(message, offset + |name|, fixed, 9);
  }

  lemma EncodedRecordFits(message: seq<byte>, offset: nat, r: ResourceRecord) returns (chunks: seq<Chunk>)
    requires Writable(r) && Has(message, offset, EncodeRecord(r)) && LegalNameAt(message, offset, r.name)
    ensures RecordAt(message, offset, chunks, offset + |EncodeRecord(r)|)
  {
    var rest :| Completes(message, offset + |EncodeLabels(r.name.labels)|, r.name, rest)
                && Octets(LabelChunks(r.name.labels) + rest) <= 255;
    chunks := LabelChunks(r.name.labels) + rest;
    assert ValidName(message, offset, chunks)
           && EndOf(offset, chunks) == offset + |EncodeLabels(r.name.labels) + Tail(r.name)| by {
      assert Has(message, offset, EncodeLabels(r.name.labels) + Tail(r.name)) by { RecordAfterName(message, offset, r); }
      EncodedNameIsValid(message, offset, r.name, rest);
    }
    RecordAfterName(message, offset, r);
  }

  lemma TakeAndDrop(message: seq<byte>, offset: nat, a: seq<byte>, b: seq<byte>)
    requires offset <= |message| && message[offset..] == a + b
    ensures Has(message, offset, a) && message[offset + |a|..] == b
  {
    assert message[offset..offset + |a|] == message[offset..][..|a|] == a;
    assert message[offset + |a|..] == message[offset..][|a|..] == b;
  }

  /** Any list of records tiles whose names are written out or end in a pointer to any earlier
      name of the message, that of the question or of another record included. */
  lemma {:induction false} EncodedRecordsTile(message: seq<byte>, offset: nat, records: seq<ResourceRecord>)
    requires AllWritable(records) && offset <= |message| && message[offset..] == EncodeRecords(records)
    requires LegalRecordsAt(message, offset, records)
    ensures Tileable(message, offset, |records|)
    decreases records
  {
    if records == [] {
      assert Tiles(message, offset, []);
    } else {
      TakeAndDrop(message, offset, EncodeRecord(records[0]), EncodeRecords(records[1..]));
      var next := offset + |EncodeRecord(records[0])|;
      var chunks := EncodedRecordFits(message, offset, records[0]);
      EncodedRecordsTile(message, next, records[1..]);
      OneRecordLess(message, offset, |records|, chunks, next);
    }
  }

  lemma OnePointerTail(message: seq<byte>, tail: nat, n: Name, rest: seq<Chunk>, whole: seq<Chunk>)
    requires Completes(message, tail, n, rest) && n.pointer.Some? && Spells(message, n.pointer.value, whole)
    ensures rest == [Jump(n.pointer.value)] + whole
  {
    SpellingIsUnique(message, n.pointer.value, rest[1..], whole);
  }

  /** A pointer may lead to any name written before it, in an owner name or inside RDATA: if that
      one is legal, so is a name that points to it, as long as it has at most 255 octets. */
  lemma EarlierNamesCanBePointedTo(message: seq<byte>, offset: nat, n: Name, target: nat, earlier: Name)
    requires (forall i :: 0 <= i < |n.labels| ==> 1 <= |n.labels[i]| <= 63) && n.pointer == Some(target)
    requires forall i :: 0 <= i < |earlier.labels| ==> 1 <= |earlier.labels[i]| <= 63
    requires earlier.pointer.Some? ==> earlier.pointer.value < 16384
    requires Has(message, target, EncodeLabels(earlier.labels) + Tail(earlier)) && target < offset
    requires LegalNameAt(message, target, earlier)
    ensures exists whole ::
              (ValidName(message, target, whole) &&
               (LegalNameAt(message, offset, n) <==> Octets(LabelChunks(n.labels)) - 1 + Octets(whole) <= 255))
  {
    var rest :| Completes(message, target + |EncodeLabels(earlier.labels)|, earlier, rest)
                && Octets(LabelChunks(earlier.labels) + rest) <= 255;
    EncodedNameIsValid(message, target, earlier, rest);
    var whole, tail := LabelChunks(earlier.labels) + rest, offset + |EncodeLabels(n.labels)|;
    var chunks := [Jump(target)] + whole;
    assert chunks[1..] == whole;
    forall other | Completes(message, tail, n, other) ensures other == chunks {
      OnePointerTail(message, tail, n, other, whole);
    }
    assert Completes(message, tail, n, chunks);
    OctetsOfLabels(n.labels, chunks);
    assert ValidName(message, target, whole);
  }

  // ---------------------------------------------------------------- the checks of dnsProbe.Probe

  const TRANSACTION_ID := 0x4753
  const ROOT_NS_QUESTION: seq<byte> := [0, 0, 2, 0, 1]

  datatype Summary = Summary(responseCode: nat, answers: nat, authority: nat, additional: nat)

  datatype ResponseError =
    | BadLength | BadTransaction | NotAResponse | BadOpcode | BadQuestionCount | BadQuestion
    | BadRecords(error: RecordsError)

  /** What a response must look like to be taken for an answer to the probe's query. */
  ghost predicate Answers(response: seq<byte>, summary: Summary) {
    && |response| >= 17
    && Uint16At(response, 0) == 0x4753         // the id of the query
    && response[2] >= 128                      // QR
    && response[2] as int / 8 % 16 == 0        // OPCODE
    && Uint16At(response, 4) == 1
    && response[12..17] == [0, 0, 2, 0, 1]     // root, NS, IN
    && summary == Summary(response[3] as int % 16, Uint16At(response, 6), Uint16At(response, 8), Uint16At(response, 10))
    && Tileable(response, 17, summary.answers + summary.authority + summary.additional)
  }

  /** The probe accepts exactly the responses that answer its query, and reports their counts. */
  method CheckResponse(response: seq<byte>) returns (r: Result<Summary, ResponseError>)
    ensures r.Ok? <==> exists summary :: Answers(response, summary)
    ensures r.Ok? ==> Answers(response, r.value)
  {
    if |response| < 17 { return Err(BadLength); }
    if Uint16At(response, 0) != TRANSACTION_ID { return Err(BadTransaction); }
    if response[2] < 128 { return Err(NotAResponse); }
    if response[2] as int / 8 % 16 != 0 { return Err(BadOpcode); }
    if Uint16At(response, 4) != 1 { return Err(BadQuestionCount); }
    if response[12..17] != ROOT_NS_QUESTION { return Err(BadQuestion); }
    var summary := Summary(response[3] as int % 16, Uint16At(response, 6), Uint16At(response, 8), Uint16At(response, 10));
    var records := ValidateDNSResourceRecords(response, 17, summary.answers + summary.authority + summary.additional);
    if records.Err? {
      assert !Tileable(response, 17, summary.answers + summary.authority + summary.additional);
      return Err(BadRecords(records.error));
    }
    assert Answers(response, summary);
    r := Ok(summary);
  }

  /** A reply as a server writes it: header, the question again, and three sections of records. */
  ghost function EncodeReply(flags: seq<byte>, answers: seq<ResourceRecord>, authority: seq<ResourceRecord>,
                             additional: seq<ResourceRecord>): seq<byte>
    requires |flags| == 2 && |answers| < 65536 && |authority| < 65536 && |additional| < 65536
    requires AllWritable(answers + authority + additional)
  {
    Header(flags, |answers|, |authority|, |additional|) + ROOT_NS_QUESTION
    + EncodeRecords(answers + authority + additional)
  }

  function Header(flags: seq<byte>, answers: nat, authority: nat, additional: nat): (h: seq<byte>)
    requires |flags| == 2 && answers < 65536 && authority < 65536 && additional < 65536
    ensures |h| == 12 && h[2..4] == flags && Uint16At(h, 0) == TRANSACTION_ID && Uint16At(h, 4) == 1
    ensures Uint16At(h, 6) == answers && Uint16At(h, 8) == authority && Uint16At(h, 10) == additional
  {
    [TRANSACTION_ID / 256, TRANSACTION_ID % 256, flags[0], flags[1], 0, 1, answers / 256, answers % 256,
     authority / 256, authority % 256, additional / 256, additional % 256]
  }

  /** Every such reply with the response bit set and opcode 0, its names compressed in any legal way,
      answers the probe, with the counts and the response code that the server put in it. */
  lemma EveryLegalReplyAnswers(flags: seq<byte>, answers: seq<ResourceRecord>, authority: seq<ResourceRecord>,
                               additional: seq<ResourceRecord>)
    requires |flags| == 2 && |answers| < 65536 && |authority| < 65536 && |additional| < 65536
    requires AllWritable(answers + authority + additional)
    requires LegalRecordsAt(EncodeReply(flags, answers, authority, additional), 17, answers + authority + additional)
    requires flags[0] >= 128 && flags[0] as int / 8 % 16 == 0
    ensures Answers(EncodeReply(flags, answers, authority, additional),
                    Summary(flags[1] as int % 16, |answers|, |authority|, |additional|))
  {
    var header, records := Header(flags, |answers|, |authority|, |additional|), answers + authority + additional;
    var reply := EncodeReply(flags, answers, authority, additional);
    ReplyParts(header, EncodeRecords(records));
    assert flags == header[2..4];
    EncodedRecordsTile(reply, 17, records);
  }

  lemma ReplyParts(header: seq<byte>, tail: seq<byte>)
    requires |header| == 12
    ensures var reply := header + ROOT_NS_QUESTION + tail;
            && |reply| >= 17 && reply[12..17] == ROOT_NS_QUESTION && reply[17..] == tail
            && reply[2] == header[2..4][0] && reply[3] == header[2..4][1]
            && Uint16At(reply, 0) == Uint16At(header, 0) && Uint16At(reply, 4) == Uint16At(header, 4)
            && Uint16At(reply, 6) == Uint16At(header, 6) && Uint16At(reply, 8) == Uint16At(header, 8)
            && Uint16At(reply, 10) == Uint16At(header, 10)
  {
    var reply := header + ROOT_NS_QUESTION + tail;
    assert forall i :: 0 <= i < 12 ==> reply[i] == header[i];
  }
}
