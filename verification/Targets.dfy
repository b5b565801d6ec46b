/** Target and port expansion: internal/config/targets.go and the port ranges of
    internal/config/config.go. Parsing text is left to the entries; an address stands for its
    canonical string. */
module Targets {
  import opened Common
  import opened Dedupe

  // ---------------------------------------------------------------- addresses

  function Pow2(n: nat): (r: nat)
    ensures r > 0
  {
    if n == 0 then 1 else 2 * Pow2(n - 1)
  }

  datatype Addr = Addr(width: nat, zone: string, value: nat)

  // The widths are 32 and 128; all that is needed of them is that they hold an octet and that
  // Is4 tells them apart.
  predicate Is4(a: Addr) {
    a.width <= 32
  }

  ghost predicate ValidAddr(a: Addr) {
    8 <= a.width && a.value < Pow2(a.width) && (Is4(a) ==> a.zone == "")
  }

  /** The next address, or None at the top of the address space. */
  function Next(a: Addr): Option<Addr> {
    if a.value + 1 == Pow2(a.width) then None else Some(a.(value := a.value + 1))
  }

  datatype Prefix = Prefix(addr: Addr, bits: nat)

  // Parsed prefixes have no zone.
  ghost predicate ValidPrefix(p: Prefix) {
    ValidAddr(p.addr) && p.addr.zone == "" && p.bits <= p.addr.width
  }

  /** The number of addresses in a block of this prefix length. */
  function BlockSize(p: Prefix): (n: nat)
    requires p.bits <= p.addr.width
    ensures n > 0
  {
    Pow2(p.addr.width - p.bits)
  }

  // Shifting n bits out on the right, and clearing them.
  function HighBits(value: nat, n: nat): nat {
    if n == 0 then value else HighBits(value / 2, n - 1)
  }

  function ClearLow(value: nat, n: nat): nat {
    if n == 0 then value else 2 * ClearLow(value / 2, n - 1)
  }

  function Masked(p: Prefix): Prefix
    requires p.bits <= p.addr.width
  {
    p.(addr := p.addr.(value := ClearLow(p.addr.value, p.addr.width - p.bits)))
  }

  /** Same family, no zone, and the same leading bits. */
  predicate Contains(p: Prefix, a: Addr)
    requires p.bits <= p.addr.width
  {
    && a.width == p.addr.width && a.zone == ""
    && HighBits(a.value, a.width - p.bits) == HighBits(p.addr.value, a.width - p.bits)
  }

  /** What a target list may hold after expansion. */
  datatype Target = Address(addr: Addr) | Hostname(name: string)

  function Addresses(base: Addr, count: nat): seq<Target> {
    seq(count, i requires 0 <= i < count => Address(base.(value := base.value + i)))
  }

  // ---------------------------------------------------------------- ranges

  datatype RangeError = BadEnd | BadOctet | FamilyMismatch | ZoneMismatch | Descending

  /** "a.b.c.d-n": the end shares the first three octets. */
  function ParseIPv4RangeEnd(start: Addr, number: Option<int>): (r: Result<Addr, RangeError>)
    ensures r.Ok? <==> number.Some? && 0 <= number.value <= 255
    ensures r.Ok? ==> r.value.value / 256 == start.value / 256 && r.value.value % 256 == number.value
                      && r.value.width == start.width && r.value.zone == start.zone
  {
    if number.None? then Err(BadEnd)
    else if number.value < 0 || number.value > 255 then Err(BadOctet)
    else Ok(start.(value := start.value - start.value % 256 + number.value))
  }

  /** "start-end" stands for the addresses from s to e: the end is written as an address or, for
      IPv4, as its last octet; both are of one family and zone, and in order. */
  ghost predicate IsRange(s: Addr, e: Addr, start: Option<Addr>, end: Option<Addr>, number: Option<int>) {
    && start == Some(s)
    && (if end.Some? then e == end.value
        else Is4(s) && number.Some? && 0 <= number.value <= 255
             && e.width == s.width && e.zone == s.zone
             && e.value / 256 == s.value / 256 && e.value % 256 == number.value)
    && s.width == e.width && s.zone == e.zone && s.value <= e.value
  }

  /** start, end and number are what parsing the text before and after the dash gives: as an
      address, and for the end also as a decimal number. */
  function ParseIPRange(start: Option<Addr>, end: Option<Addr>, number: Option<int>)
    : (r: Result<Option<(Addr, Addr)>, RangeError>)
    ensures start.None? <==> r == Ok(None)
    ensures r.Ok? && r.value.Some? ==> IsRange(r.value.value.0, r.value.value.1, start, end, number)
    ensures r.Err? ==> start.Some? && forall e :: !IsRange(start.value, e, start, end, number)
  {
    if start.None? then Ok(None)
    else
      var s := start.value;
      var parsed := if end.Some? then Ok(end.value)
                    else if Is4(s) then ParseIPv4RangeEnd(s, number)
                    else Err(BadEnd);
      if parsed.Err? then Err(parsed.error)
      else
        var e := parsed.value;
        if s.width != e.width then Err(FamilyMismatch)
        else if s.zone != e.zone then Err(ZoneMismatch)
        else if s.value > e.value then Err(Descending)
        else Ok(Some((s, e)))
  }

  // Replacing the last octet stays inside the address space.
  lemma LastOctetStaysInside(value: nat, octet: nat, n: nat)
    requires value < Pow2(n + 8) && octet < 256
    ensures value - value % 256 + octet < Pow2(n + 8)
  {
    assert Pow2(n + 8) == 2 * Pow2(n + 7) == 4 * Pow2(n + 6) == 8 * Pow2(n + 5) == 16 * Pow2(n + 4);
    assert Pow2(n + 4) == 2 * Pow2(n + 3) == 4 * Pow2(n + 2) == 8 * Pow2(n + 1) == 16 * Pow2(n);
  }

  lemma ParsedRangeIsValid(start: Option<Addr>, end: Option<Addr>, number: Option<int>)
    requires (start.Some? ==> ValidAddr(start.value)) && (end.Some? ==> ValidAddr(end.value))
    ensures var r := ParseIPRange(start, end, number);
            r.Ok? && r.value.Some? ==> ValidAddr(r.value.value.0) && ValidAddr(r.value.value.1)
  {
    if start.Some? && end.None? && Is4(start.value) && number.Some? && 0 <= number.value <= 255 {
      LastOctetStaysInside(start.value.value, number.value, start.value.width - 8);
    }
  }

  // ---------------------------------------------------------------- what each entry stands for

  /** A configured target, trimmed, with what its text parses to. */
  datatype Entry =
    | Slashed(prefix: Option<Prefix>)
    | Literal(addr: Addr)
    | Dashed(text: string, start: Option<Addr>, end: Option<Addr>, number: Option<int>)
    | Plain(text: string)

  ghost predicate ValidEntry(e: Entry) {
    match e
    case Slashed(p) => p.Some? ==> ValidPrefix(p.value)
    case Literal(a) => ValidAddr(a)
    case Dashed(_, s, e, _) => (s.Some? ==> ValidAddr(s.value)) && (e.Some? ==> ValidAddr(e.value))
    case Plain(_) => true
  }

  datatype EntryError = InvalidPrefix | InvalidRange(error: RangeError) | TooManyTargets

  /** The targets an entry stands for, in order: a prefix is its whole block, a range everything
      between its ends. */
  ghost function Expansion(e: Entry): Result<seq<Target>, EntryError> {
    match e
    case Slashed(p) =>
      if p.None? || p.value.bits > p.value.addr.width then Err(InvalidPrefix)
      else Ok(Addresses(Masked(p.value).addr, BlockSize(p.value)))
    case Literal(a) => Ok([Address(a)])
    case Plain(text) => Ok([Hostname(text)])
    case Dashed(text, start, end, number) =>
      match ParseIPRange(start, end, number)
      case Err(error) => Err(InvalidRange(error))
      case Ok(None) => Ok([Hostname(text)])
      case Ok(Some((s, e))) => Ok(Addresses(s, e.value - s.value + 1))
  }

  ghost predicate AllParse(entries: seq<Entry>) {
    forall i :: 0 <= i < |entries| ==> Expansion(entries[i]).Ok?
  }

  ghost function Concatenated(entries: seq<Entry>): seq<Target>
    requires AllParse(entries)
  {
    if entries == [] then []
    else Concatenated(entries[..|entries| - 1]) + Expansion(entries[|entries| - 1]).value
  }

  // ---------------------------------------------------------------- block arithmetic

  lemma {:induction false} ClearLowKeepsHighBits(value: nat, n: nat, i: nat)
    requires i <= Pow2(n)
    ensures HighBits(ClearLow(value, n) + i, n) == HighBits(value, n) <==> i < Pow2(n)
  {
    if n > 0 {
      var half := ClearLow(value / 2, n - 1);
      assert (2 * half + i) / 2 == half + i / 2;
      ClearLowKeepsHighBits(value / 2, n - 1, i / 2);
    }
  }

  lemma {:induction false} ClearLowEndsInside(value: nat, n: nat, bits: nat)
    requires value < Pow2(bits + n)
    ensures ClearLow(value, n) <= value && ClearLow(value, n) + Pow2(n) <= Pow2(bits + n)
  {
    if n > 0 { ClearLowEndsInside(value / 2, n - 1, bits); }
  }

  /** A masked prefix contains exactly the block of addresses that starts at its base, and that
      block ends within the address space. */
  lemma PrefixIsBlock(p: Prefix, i: nat)
    requires ValidPrefix(p) && i <= BlockSize(p)
    ensures Masked(p).addr.value + BlockSize(p) <= Pow2(p.addr.width)
    ensures Contains(Masked(p), Masked(p).addr.(value := Masked(p).addr.value + i)) <==> i < BlockSize(p)
  {
    var n := p.addr.width - p.bits;
    ClearLowEndsInside(p.addr.value, n, p.bits);
    ClearLowKeepsHighBits(p.addr.value, n, i);
    ClearLowKeepsHighBits(p.addr.value, n, 0);
  }

  lemma {:induction false} ClearLowIsBase(value: nat, n: nat)
    ensures ClearLow(value, n) <= value < ClearLow(value, n) + Pow2(n)
  {
    if n > 0 { ClearLowIsBase(value / 2, n - 1); }
  }

  lemma {:induction false} SameHighBitsSameBase(a: nat, b: nat, n: nat)
    requires HighBits(a, n) == HighBits(b, n)
    ensures ClearLow(a, n) == ClearLow(b, n)
  {
    if n > 0 { SameHighBitsSameBase(a / 2, b / 2, n - 1); }
  }

  /** The block is the whole prefix: an address shares the prefix exactly when it is in the block. */
  lemma BlockIsThePrefix(p: Prefix, a: Addr)
    requires ValidPrefix(p)
    ensures Contains(p, a) <==> Address(a) in Addresses(Masked(p).addr, BlockSize(p))
  {
    var n, base := p.addr.width - p.bits, Masked(p).addr;
    if Contains(p, a) {
      ClearLowIsBase(a.value, n);
      SameHighBitsSameBase(a.value, p.addr.value, n);
      assert Addresses(base, BlockSize(p))[a.value - base.value] == Address(a);
    }
    if Address(a) in Addresses(base, BlockSize(p)) {
      var i :| 0 <= i < BlockSize(p) && Addresses(base, BlockSize(p))[i] == Address(a);
      ClearLowKeepsHighBits(p.addr.value, n, i);
    }
  }

  /** An entry stands for this target: a prefix for every address that shares it, a range for
      everything between its ends, anything else for itself. */
  ghost predicate StandsFor(entry: Entry, t: Target) {
    match entry
    case Slashed(p) => p.Some? && p.value.bits <= p.value.addr.width && t.Address? && Contains(p.value, t.addr)
    case Literal(a) => t == Address(a)
    case Plain(text) => t == Hostname(text)
    case Dashed(text, start, end, number) =>
      if start.None? then t == Hostname(text)
      else exists e :: IsRange(start.value, e, start, end, number) && t.Address? && Between(start.value, t.addr, e)
  }

  predicate Between(s: Addr, a: Addr, e: Addr) {
    a.width == s.width && a.zone == s.zone && s.value <= a.value <= e.value
  }

  /** An entry can be expanded: only prefixes and ranges can be malformed. */
  ghost predicate Parses(entry: Entry) {
    match entry
    case Slashed(p) => p.Some?
    case Dashed(_, start, end, number) => start.Some? ==> exists e :: IsRange(start.value, e, start, end, number)
    case _ => true
  }

  lemma AddressesAre(base: Addr, count: nat, t: Target)
    ensures t in Addresses(base, count) <==>
            t.Address? && t.addr.width == base.width && t.addr.zone == base.zone
            && base.value <= t.addr.value < base.value + count
  {
    if t.Address? && t.addr.width == base.width && t.addr.zone == base.zone
       && base.value <= t.addr.value < base.value + count {
      assert Addresses(base, count)[t.addr.value - base.value] == t;
    }
  }

  ghost predicate Ascends(targets: seq<Target>) {
    forall i, j :: 0 <= i < j < |targets| ==>
      targets[i].Address? && targets[j].Address? && targets[i].addr.value < targets[j].addr.value
  }

  /** The expansion of an entry exists exactly when the entry parses, and holds exactly what the entry
      stands for, in ascending order. */
  lemma ExpansionMeans(entry: Entry, t: Target)
    requires ValidEntry(entry)
    ensures Expansion(entry).Ok? <==> Parses(entry)
    ensures Expansion(entry).Err? ==> if entry.Slashed? then Expansion(entry).error == InvalidPrefix
                                      else entry.Dashed? && Expansion(entry).error.InvalidRange?
    ensures Expansion(entry).Ok? ==>
              && (t in Expansion(entry).value <==> StandsFor(entry, t))
              && Ascends(Expansion(entry).value) && Distinct(Expansion(entry).value)
  {
    match entry {
      case Slashed(p) =>
        if p.Some? && t.Address? { BlockIsThePrefix(p.value, t.addr); }
      case Dashed(_, start, end, number) =>
        var r := ParseIPRange(start, end, number);
        if r.Ok? && r.value.Some? {
          var (s, e) := r.value.value;
          OneEnd(s, e, start, end, number);
          AddressesAre(s, e.value - s.value + 1, t);
        }
      case _ =>
    }
  }

  lemma OneEnd(s: Addr, e: Addr, start: Option<Addr>, end: Option<Addr>, number: Option<int>)
    requires IsRange(s, e, start, end, number)
    ensures forall other :: IsRange(s, other, start, end, number) ==> other == e
  {
    forall other | IsRange(s, other, start, end, number) ensures other == e {
      if end.None? { assert other.value == other.value / 256 * 256 + other.value % 256 == e.value; }
    }
  }

  lemma {:induction false} ConcatenatedHolds(entries: seq<Entry>, t: Target)
    requires AllParse(entries)
    ensures t in Concatenated(entries) <==> exists i :: 0 <= i < |entries| && t in Expansion(entries[i]).value
  {
    if entries != [] {
      var init, last := entries[..|entries| - 1], entries[|entries| - 1];
      assert forall i :: 0 <= i < |init| ==> init[i] == entries[i];
      ConcatenatedHolds(init, t);
      if t in Concatenated(init) {
        var i :| 0 <= i < |init| && t in Expansion(init[i]).value;
        assert t in Expansion(entries[i]).value;
      }
      if i :| 0 <= i < |entries| && t in Expansion(entries[i]).value && i < |init| {
        assert t in Expansion(init[i]).value;
      }
    }
  }

  /** The expanded list holds exactly what some entry stands for, each once. */
  lemma ExpandedHolds(entries: seq<Entry>, t: Target)
    requires (forall i :: 0 <= i < |entries| ==> ValidEntry(entries[i])) && AllParse(entries)
    ensures var list := Merge([], Concatenated(entries));
            Distinct(list) && (t in list <==> exists i :: 0 <= i < |entries| && StandsFor(entries[i], t))
  {
    MergeIsFirstOccurrences(Concatenated(entries));
    ConcatenatedHolds(entries, t);
    forall i | 0 <= i < |entries| ensures t in Expansion(entries[i]).value <==> StandsFor(entries[i], t) {
      ExpansionMeans(entries[i], t);
    }
  }

  // ---------------------------------------------------------------- the expansion itself

  lemma OneMoreAddress(acc: seq<Target>, base: Addr, count: nat)
    ensures var t := Address(base.(value := base.value + count));
            && Addresses(base, count + 1) == Addresses(base, count) + [t]
            && Merge(acc, Addresses(base, count + 1)) == Merge(Merge(acc, Addresses(base, count)), [t])
  {
    var t := Address(base.(value := base.value + count));
    assert Addresses(base, count + 1) == Addresses(base, count) + [t];
    MergeConcat(acc, Addresses(base, count), [t]);
  }

  // Adding more never shrinks the list.
  lemma MoreAddressesMoreTargets(acc: seq<Target>, base: Addr, few: nat, many: nat)
    requires few <= many
    ensures |Merge(acc, Addresses(base, few))| <= |Merge(acc, Addresses(base, many))|
  {
    assert Addresses(base, many) == Addresses(base, few) + Addresses(base, many)[few..];
    MergeConcat(acc, Addresses(base, few), Addresses(base, many)[few..]);
    MergeGrows(Merge(acc, Addresses(base, few)), Addresses(base, many)[few..]);
  }

  // Addresses that were all added without reaching the limit are no more than the limit.
  lemma OffersFit(acc: seq<Target>, base: Addr, count: nat)
    ensures count <= |Merge(acc, Addresses(base, count))|
  {
    MergeGrows(acc, Addresses(base, count));
    DistinctFits(Addresses(base, count), Merge(acc, Addresses(base, count)));
  }

  /** ExpandedTargets' local state: what was added so far and the set that `add` looks it up in. */
  class Expander {
    const maxTargets: int
    var targets: seq<Target>
    var seen: set<Target>
    ghost var offered: seq<Target>   // every argument that add was called with

    ghost predicate Valid()
      reads this
    {
      && (forall t :: t in seen <==> t in targets)
      && Distinct(targets) && |targets| <= Limit()
    }

    ghost function Limit(): nat {
      if maxTargets < 0 then 0 else maxTargets
    }

    constructor (maxTargets: int)
      ensures Valid() && this.maxTargets == maxTargets && targets == [] && offered == []
    {
      this.maxTargets, targets, seen, offered := maxTargets, [], {}, [];
    }

    method Add(t: Target) returns (ok: bool)
      requires Valid()
      modifies this
      ensures Valid() && offered == old(offered) + [t]
      ensures ok <==> |Merge(old(targets), [t])| <= Limit()
      ensures targets == if ok then Merge(old(targets), [t]) else old(targets)
    {
      MergeOne(targets, [], t);
      assert [] + [t] == [t];
      offered := offered + [t];
      if t in seen { return true; }
      if |targets| >= maxTargets { return false; }
      seen := seen + {t};
      targets := targets + [t];
      ok := true;
    }

    // The list holds what the first `count` addresses from `base` add to `targets0`.
    ghost predicate Progress(targets0: seq<Target>, offered0: seq<Target>, base: Addr, count: nat)
      reads this
    {
      Valid() && offered == offered0 + Addresses(base, count) && targets == Merge(targets0, Addresses(base, count))
    }

    // One call of add in a loop that is to offer `total` addresses.
    method Offer(address: Addr, ghost targets0: seq<Target>, ghost offered0: seq<Target>, ghost base: Addr,
                 ghost count: nat, ghost total: nat)
      returns (ok: bool)
      requires Progress(targets0, offered0, base, count) && count < total
      requires address == base.(value := base.value + count)
      modifies this
      ensures ok ==> Progress(targets0, offered0, base, count + 1)
      ensures !ok ==> |Merge(targets0, Addresses(base, total))| > Limit()
      ensures Valid() && offered == offered0 + Addresses(base, count + 1) && count + 1 <= Limit() + 1
    {
      OffersFit(targets0, base, count);
      OneMoreAddress(targets0, base, count);
      MoreAddressesMoreTargets(targets0, base, count + 1, total);
      ok := Add(Address(address));
    }

    /** Offers the block's addresses in ascending order, once each, from the masked base, and stops
        without wrapping at the top of the address space; a full list stops it after at most
        Limit() + 1 offers, however wide the prefix. */
    method AddPrefix(p: Prefix) returns (ok: bool, ghost count: nat)
      requires Valid() && ValidPrefix(p)
      modifies this
      ensures Valid()
      ensures ok <==> |Merge(old(targets), Addresses(Masked(p).addr, BlockSize(p)))| <= Limit()
      ensures ok ==> targets == Merge(old(targets), Addresses(Masked(p).addr, BlockSize(p)))
      ensures offered == old(offered) + Addresses(Masked(p).addr, count)
      ensures count <= BlockSize(p) && count <= Limit() + 1 && (ok ==> count == BlockSize(p))
    {
      var address := Masked(p).addr;
      ghost var base, size := address, BlockSize(p);
      count := 0;
      assert Addresses(base, 0) == [];
      PrefixIsBlock(p, 0);
      while Contains(Masked(p), address)
        invariant Progress(old(targets), old(offered), base, count) && count <= size
        invariant address == base.(value := base.value + count)
        invariant Contains(Masked(p), address) <==> count < size
        decreases size - count
      {
        var added := Offer(address, old(targets), old(offered), base, count, size);
        count := count + 1;
        if !added { return false, count; }
        PrefixIsBlock(p, count);
        var next := Next(address);
        if next.None? { break; }
        address := next.value;
      }
      OffersFit(old(targets), base, count);
      ok := true;
    }

    /** Offers every address from start to end, in ascending order, and never steps past the end. */
    method AddRange(start: Addr, end: Addr) returns (ok: bool, ghost count: nat)
      requires Valid() && ValidAddr(start) && ValidAddr(end)
      requires start.width == end.width && start.zone == end.zone && start.value <= end.value
      modifies this
      ensures Valid()
      ensures ok <==> |Merge(old(targets), Addresses(start, end.value - start.value + 1))| <= Limit()
      ensures ok ==> targets == Merge(old(targets), Addresses(start, end.value - start.value + 1))
      ensures offered == old(offered) + Addresses(start, count)
      ensures count <= end.value - start.value + 1 && count <= Limit() + 1
      ensures ok ==> count == end.value - start.value + 1
    {
      var address := start;
      ghost var total: nat := end.value - start.value + 1;
      count := 0;
      assert Addresses(start, 0) == [];
      while true
        invariant Progress(old(targets), old(offered), start, count) && count < total
        invariant address == start.(value := start.value + count)
        decreases total - count
      {
        var added := Offer(address, old(targets), old(offered), start, count, total);
        count := count + 1;
        if !added { return false, count; }
        if address == end {
          OffersFit(old(targets), start, count);
          return true, count;
        }
        address := Next(address).value;
      }
    }
  }

  // What processing an entry must report for a list that holds `targets` already.
  ghost function EntryOutcome(targets: seq<Target>, entry: Entry, limit: nat): Result<seq<Target>, EntryError> {
    match Expansion(entry)
    case Err(e) => Err(e)
    case Ok(ts) => if |Merge(targets, ts)| <= limit then Ok(Merge(targets, ts)) else Err(TooManyTargets)
  }

  // The body of the loop over the entries.
  method AddEntry(expander: Expander, entry: Entry) returns (error: Option<EntryError>)
    requires expander.Valid() && ValidEntry(entry)
    modifies expander
    ensures expander.Valid()
    ensures match EntryOutcome(old(expander.targets), entry, expander.Limit())
            case Ok(targets) => error == None && expander.targets == targets
            case Err(e) => error == Some(e)
    ensures |expander.offered| <= |old(expander.offered)| + expander.Limit() + 1
  {
    var ok;
    ghost var count;
    match entry {
      case Slashed(prefix) =>
        if prefix.None? { return Some(InvalidPrefix); }
        ok, count := expander.AddPrefix(prefix.value);
      case Literal(addr) =>
        ok := expander.Add(Address(addr));
      case Dashed(text, start, end, number) =>
        var range := ParseIPRange(start, end, number);
        if range.Err? { return Some(InvalidRange(range.error)); }
        if range.value.None? {
          ok := expander.Add(Hostname(text));
        } else {
          ParsedRangeIsValid(start, end, number);
          ok, count := expander.AddRange(range.value.value.0, range.value.value.1);
        }
      case Plain(text) =>
        ok := expander.Add(Hostname(text));
    }
    error := if ok then None else Some(TooManyTargets);
  }

  /** Every entry parses and the different targets respect the limit. */
  ghost predicate Fits(entries: seq<Entry>, limit: nat) {
    AllParse(entries) && |Merge([], Concatenated(entries))| <= limit
  }

  lemma FitsAppend(entries: seq<Entry>, i: nat, limit: nat)
    requires i < |entries| && Fits(entries[..i], limit)
    ensures var outcome := EntryOutcome(Merge([], Concatenated(entries[..i])), entries[i], limit);
            && (Fits(entries[..i + 1], limit) <==> outcome.Ok?)
            && (outcome.Ok? ==> outcome.value == Merge([], Concatenated(entries[..i + 1])))
  {
    assert entries[..i + 1][..i] == entries[..i] && entries[..i + 1][i] == entries[i];
    if Expansion(entries[i]).Ok? {
      assert forall k :: 0 <= k < i ==> entries[..i + 1][k] == entries[..i][k];
      assert AllParse(entries[..i + 1]);
      MergeConcat([], Concatenated(entries[..i]), Expansion(entries[i]).value);
    }
  }

  /** The expansion succeeds exactly when every entry parses and the different targets respect the
      limit; it is then the first-occurrence list of all expansions. Otherwise the error names the
      first entry at which one of the two fails. No entry makes more than limit + 1 calls of add. */
  method ExpandedTargets(entries: seq<Entry>, maxTargets: int) returns (r: Result<seq<Target>, (nat, EntryError)>)
    requires forall i :: 0 <= i < |entries| ==> ValidEntry(entries[i])
    ensures var limit: nat := if maxTargets < 0 then 0 else maxTargets;
            && (r.Ok? <==> Fits(entries, limit))
            && (r.Ok? ==> r.value == Merge([], Concatenated(entries)))
            && (r.Err? ==> && r.error.0 < |entries|
                           && Fits(entries[..r.error.0], limit) && !Fits(entries[..r.error.0 + 1], limit)
                           && r.error.1 == match Expansion(entries[r.error.0])
                                           case Err(e) => e
                                           case Ok(_) => TooManyTargets)
  {
    var expander := new Expander(maxTargets);
    ghost var limit := expander.Limit();
    for index := 0 to |entries|
      invariant expander.Valid() && expander.maxTargets == maxTargets
      invariant Fits(entries[..index], limit)
      invariant expander.targets == Merge([], Concatenated(entries[..index]))
    {
      FitsAppend(entries, index, limit);
      var error := AddEntry(expander, entries[index]);
      if error.Some? {
        NotAll(entries, index, limit);
        return Err((index, error.value));
      }
    }
    assert entries[..|entries|] == entries;
    r := Ok(expander.targets);
  }

  lemma FitsShrinks(entries: seq<Entry>, i: nat, limit: nat)
    requires i < |entries| && Fits(entries[..i + 1], limit)
    ensures Fits(entries[..i], limit)
  {
    var longer := entries[..i + 1];
    assert longer[..i] == entries[..i];
    assert forall k :: 0 <= k < i ==> entries[..i][k] == longer[k];
    MergeConcat([], Concatenated(entries[..i]), Expansion(longer[i]).value);
    MergeGrows(Merge([], Concatenated(entries[..i])), Expansion(longer[i]).value);
  }

  // Once a prefix of the entries fails, all of them do.
  lemma {:induction false} NotAll(entries: seq<Entry>, index: nat, limit: nat)
    requires index < |entries| && !Fits(entries[..index + 1], limit)
    ensures !Fits(entries, limit)
    decreases |entries| - index
  {
    if index + 1 == |entries| {
      assert entries[..index + 1] == entries;
    } else {
      if Fits(entries[..index + 2], limit) { FitsShrinks(entries, index + 1, limit); }
      NotAll(entries, index + 1, limit);
    }
  }

  // ---------------------------------------------------------------- ports

  datatype PortRange = PortRange(start: int, end: int)

  function Ports(range: PortRange): seq<int> {
    if range.start > range.end then []
    else seq(range.end - range.start + 1, i requires 0 <= i < range.end - range.start + 1 => range.start + i)
  }

  function AllPorts(ranges: seq<PortRange>): seq<int> {
    if ranges == [] then [] else AllPorts(ranges[..|ranges| - 1]) + Ports(ranges[|ranges| - 1])
  }

  /** The ports of all ranges by first occurrence; overlapping ranges repeat nothing. */
  method ExpandPortRanges(ranges: seq<PortRange>) returns (ports: seq<int>)
    ensures ports == Merge([], AllPorts(ranges)) && Distinct(ports)
    ensures forall p :: p in ports <==> exists k :: 0 <= k < |ranges| && ranges[k].start <= p <= ranges[k].end
  {
    ports := [];
    var seen: set<int> := {};
    for k := 0 to |ranges|
      invariant ports == Merge([], AllPorts(ranges[..k])) && forall p :: p in seen <==> p in ports
    {
      assert ranges[..k + 1][..k] == ranges[..k] && ranges[..k + 1][k] == ranges[k];
      ghost var before, range := ports, Ports(ranges[k]);
      MergeConcat([], AllPorts(ranges[..k]), range);
      assert range[..0] == [];
      var port := ranges[k].start;
      while port <= ranges[k].end
        invariant ranges[k].start <= port && (port <= ranges[k].end + 1 || ranges[k].start > ranges[k].end)
        invariant ports == Merge(before, range[..if port - ranges[k].start <= |range| then port - ranges[k].start else |range|])
        invariant forall p :: p in seen <==> p in ports
      {
        var i := port - ranges[k].start;
        assert range[..i + 1] == range[..i] + [port];
        MergeOne(before, range[..i], port);
        if port !in seen {
          seen := seen + {port};
          ports := ports + [port];
        }
        port := port + 1;
      }
      assert range[..|range|] == range;
    }
    assert ranges[..|ranges|] == ranges;
    MergeIsFirstOccurrences(AllPorts(ranges));
    PortsOfRanges(ranges);
  }

  lemma {:induction false} PortsOfRanges(ranges: seq<PortRange>)
    ensures forall p :: p in AllPorts(ranges) <==> exists k :: 0 <= k < |ranges| && ranges[k].start <= p <= ranges[k].end
  {
    if ranges != [] {
      var init, last := ranges[..|ranges| - 1], ranges[|ranges| - 1];
      PortsOfRanges(init);
      forall p ensures p in AllPorts(ranges) <==> exists k :: 0 <= k < |ranges| && ranges[k].start <= p <= ranges[k].end {
        if last.start <= p <= last.end { assert Ports(last)[p - last.start] == p; }
        if k :| 0 <= k < |init| && init[k].start <= p <= init[k].end { assert ranges[k] == init[k]; }
        if k :| 0 <= k < |ranges| && ranges[k].start <= p <= ranges[k].end && k < |init| { assert init[k] == ranges[k]; }
      }
    }
  }
}
