/**
Routes to networks behind a peer.  The table is sorted by masked destination, greatest first, and a
lookup takes the first entry that matches.  How far this finds the longest matching prefix (section
5.1 of RFC 4632) is what the lemmas say.
*/
module ExternalRoutes {
  import opened Wrappers
  import opened Net
  import opened Bits
  import opened StableSorts

  const BITS := 32

  /** An IPv4 address or mask as a number. */
  type u32 = x: int | 0 <= x < 0x1_0000_0000

  lemma Pow2OfBits()
    ensures Pow2(16) == 0x1_0000 && Pow2(24) == 0x100_0000 && Pow2(BITS) == 0x1_0000_0000
  {
    assert Pow2(8) == 0x100;
    assert Pow2(16) == 0x100 * Pow2(8);
    assert Pow2(24) == 0x100 * Pow2(16);
    assert Pow2(32) == 0x100 * Pow2(24);
  }

  /** The number whose bytes, greatest first, are the octets. */
  function Number(ip: Ipv4Addr): u32 {
    var a: int, b: int, c: int, d: int := ip.o0, ip.o1, ip.o2, ip.o3;
    ((a * 0x100 + b) * 0x100 + c) * 0x100 + d
  }

  lemma NumberOctets(ip: Ipv4Addr)
    ensures var n := Number(ip);
      n / 0x100_0000 == ip.o0 && n / 0x1_0000 % 0x100 == ip.o1 && n / 0x100 % 0x100 == ip.o2 && n % 0x100 == ip.o3
  {
    var a: int, b: int, c: int, d: int := ip.o0, ip.o1, ip.o2, ip.o3;
    QuotientIs(Number(ip), 0x100_0000, a, (b * 0x100 + c) * 0x100 + d);
    QuotientIs(Number(ip), 0x1_0000, a * 0x100 + b, c * 0x100 + d);
    QuotientIs(Number(ip), 0x100, (a * 0x100 + b) * 0x100 + c, d);
    QuotientIs(a * 0x100 + b, 0x100, a, b);
    QuotientIs((a * 0x100 + b) * 0x100 + c, 0x100, a * 0x100 + b, c);
  }

  function And(a: u32, b: u32): u32 {
    AndBits(BITS, a, b)
  }

  function Or(a: u32, b: u32): u32 {
    Pow2OfBits();
    OrBits(BITS, a, b)
  }

  // ----- masks

  /** The mask of a prefix of `len` bits. */
  function PrefixMask(len: nat): (mask: u32)
    requires len <= BITS
    ensures mask == Pow2(BITS) - Pow2(BITS - len)
  {
    Pow2OfBits();
    Pow2Grows(BITS - len, BITS);
    Pow2(BITS) - Pow2(BITS - len)
  }

  ghost predicate Contiguous(mask: u32) {
    exists len: nat :: len <= BITS && mask == PrefixMask(len)
  }

  lemma {:induction false} LongerIsGreater(len: nat, longer: nat)
    requires len < longer <= BITS
    ensures PrefixMask(len) < PrefixMask(longer)
  {
    Pow2Grows(BITS - longer, BITS - len - 1);
  }

  /** Masking clears the bits behind the prefix. */
  lemma AndPrefix(len: nat, ip: u32)
    requires len <= BITS
    ensures And(PrefixMask(len), ip) == ip - LowBits(BITS - len, ip)
  {
    Pow2OfBits();
    var bits: nat := BITS;
    AndHighOnes(bits, bits - len, ip);
  }

  /** Under a longer prefix an address keeps more of its bits. */
  lemma LongerKeepsMore(a: u32, b: u32, ip: u32)
    requires Contiguous(a) && Contiguous(b) && a < b
    ensures And(a, ip) <= And(b, ip)
  {
    var m: nat :| m <= BITS && a == PrefixMask(m);
    var n: nat :| n <= BITS && b == PrefixMask(n);
    if n < m {
      LongerIsGreater(n, m);
    }
    AndPrefix(m, ip);
    AndPrefix(n, ip);
    LowBitsGrow(BITS - n, BITS - m, ip);
  }

  lemma SetNextBit(i: nat)
    requires i < BITS
    ensures Pow2(BITS - 1 - i) < 0x1_0000_0000
    ensures Or(PrefixMask(i), Pow2(BITS - 1 - i)) == PrefixMask(i + 1)
  {
    var k := BITS - 1 - i;
    Pow2OfBits();
    Pow2Grows(k, BITS - 1);
    LowBitsOfHighOnes(BITS, k + 1);
    OrNewBit(BITS, PrefixMask(i), k);
  }

  /** The mask for a prefix length that has been parsed. */
  method ToIp(m: nat) returns (r: Option<u32>)
    ensures r == if m <= BITS then Some(PrefixMask(m)) else None
  {
    if m > BITS {
      return None;
    }
    var mask: u32 := 0;
    for i := 0 to m
      invariant mask == PrefixMask(i)
    {
      SetNextBit(i);
      mask := Or(mask, Pow2(BITS - 1 - i));
    }
    return Some(mask);
  }

  // ----- the table

  datatype Entry = Entry(dest: u32, mask: u32, gateway: Ipv4Addr) {
    predicate Matches(ip: u32) {
      And(mask, ip) == dest
    }

    function Masked(): Entry {
      this.(dest := And(mask, dest))
    }
  }

  function MaskAll(raw: seq<Entry>): (r: seq<Entry>)
    ensures |r| == |raw| && forall i :: 0 <= i < |r| ==> r[i] == raw[i].Masked()
  {
    if raw == [] then [] else [raw[0].Masked()] + MaskAll(raw[1..])
  }

  predicate Higher(a: Entry, b: Entry) {
    a.dest > b.dest
  }

  lemma HigherOrders()
    ensures WeakOrder(Higher)
  {
  }

  /** The table a lookup scans: masked, greatest destination first, ties as they were given. */
  function Table(raw: seq<Entry>): (r: seq<Entry>)
    ensures |r| == |raw|
  {
    Sort(Higher, MaskAll(raw))
  }

  /** The position of the first entry that matches, or the length. */
  function FirstMatch(s: seq<Entry>, ip: u32): (i: nat)
    ensures i <= |s|
    ensures forall j :: 0 <= j < i ==> !s[j].Matches(ip)
    ensures i < |s| ==> s[i].Matches(ip)
  {
    if s == [] || s[0].Matches(ip) then 0 else 1 + FirstMatch(s[1..], ip)
  }

  /** The gateway of the first match. */
  function Lookup(table: seq<Entry>, ip: u32): Option<Ipv4Addr> {
    var i := FirstMatch(table, ip);
    if i < |table| then Some(table[i].gateway) else None
  }

  /** What both constructors do: mask in place, then sort. */
  method MaskAndSort(raw: seq<Entry>) returns (table: seq<Entry>)
    ensures table == Table(raw)
  {
    table := raw;
    for i := 0 to |raw|
      invariant |table| == |raw|
      invariant forall j :: 0 <= j < |raw| ==> table[j] == if j < i then raw[j].Masked() else raw[j]
    {
      table := table[i := table[i].Masked()];
    }
    assert table == MaskAll(raw);
    table := Sort(Higher, table);
  }

  class ExternalRoute {
    const routeTable: seq<Entry>

    constructor (raw: seq<Entry>)
      ensures routeTable == Table(raw)
    {
      var table := MaskAndSort(raw);
      routeTable := table;
    }

    /** The gateway for an address. */
    method Route(ip: u32) returns (gateway: Option<Ipv4Addr>)
      ensures gateway == Lookup(routeTable, ip)
    {
      for i := 0 to |routeTable|
        invariant forall j :: 0 <= j < i ==> !routeTable[j].Matches(ip)
      {
        if routeTable[i].Matches(ip) {
          return Some(routeTable[i].gateway);
        }
      }
      return None;
    }
  }

  // ----- what a lookup finds

  /** The hit has the greatest destination of all entries that match, */
  lemma HitIsGreatest(raw: seq<Entry>, ip: u32)
    requires FirstMatch(Table(raw), ip) < |raw|
    ensures var hit := Table(raw)[FirstMatch(Table(raw), ip)];
            hit.Matches(ip) && forall e :: e in Table(raw) && e.Matches(ip) ==> !Higher(e, hit)
  {
    HigherOrders();
    SortSorts(Higher, MaskAll(raw));
    assert Sorted(Higher, Table(raw));
  }

  /** and among those with the same destination it is the one that was given first. */
  lemma HitIsFirst(raw: seq<Entry>, ip: u32) returns (i: nat)
    requires FirstMatch(Table(raw), ip) < |raw|
    ensures i < |raw| && raw[i].Masked() == Table(raw)[FirstMatch(Table(raw), ip)]
    ensures forall k :: 0 <= k < i && raw[k].Masked().dest == raw[i].Masked().dest ==> !raw[k].Masked().Matches(ip)
  {
    var masked := MaskAll(raw);
    HigherOrders();
    i := SortOrigin(Higher, masked, FirstMatch(Table(raw), ip));
    forall k | 0 <= k < i && masked[k].dest == masked[i].dest ensures !masked[k].Matches(ip) {
      TiesKeepOrder(Higher, masked, k, i);
      SortPlaces(Higher, masked, k);
    }
  }

  lemma InTable(raw: seq<Entry>, e: Entry)
    ensures e in Table(raw) <==> exists k :: 0 <= k < |raw| && raw[k].Masked() == e
  {
    HigherOrders();
    if e in Table(raw) {
      var j: nat :| j < |raw| && Table(raw)[j] == e;
      var k := SortOrigin(Higher, MaskAll(raw), j);
      assert raw[k].Masked() == e;
    }
    if k :| 0 <= k < |raw| && raw[k].Masked() == e {
      SortPlaces(Higher, MaskAll(raw), k);
    }
  }

  /** The network of an entry as it was given contains the address. */
  predicate Contains(e: Entry, ip: u32) {
    And(e.mask, ip) == And(e.mask, e.dest)
  }

  lemma MaskedMatches(e: Entry, ip: u32)
    ensures e.Masked().Matches(ip) <==> Contains(e, ip)
  {
  }

  /** A lookup fails exactly if no network that was given contains the address. */
  lemma MissExactly(raw: seq<Entry>, ip: u32)
    ensures FirstMatch(Table(raw), ip) == |raw| <==> forall k :: 0 <= k < |raw| ==> !Contains(raw[k], ip)
  {
    var i := FirstMatch(Table(raw), ip);
    if i == |raw| {
      forall k | 0 <= k < |raw| ensures !Contains(raw[k], ip) {
        InTable(raw, raw[k].Masked());
        MaskedMatches(raw[k], ip);
      }
    } else {
      InTable(raw, Table(raw)[i]);
      var k :| 0 <= k < |raw| && raw[k].Masked() == Table(raw)[i];
      MaskedMatches(raw[k], ip);
    }
  }

  /** The network `dest`/`len` contains exactly the addresses that agree with it in the first `len` bits. */
  lemma ContainsPrefix(len: nat, dest: u32, gateway: Ipv4Addr, ip: u32)
    requires len <= BITS
    ensures Pow2(BITS - len) > 0
    ensures Contains(Entry(dest, PrefixMask(len), gateway), ip) <==> ip / Pow2(BITS - len) == dest / Pow2(BITS - len)
  {
    AndPrefix(len, ip);
    AndPrefix(len, dest);
    LowBitsAreRemainder(BITS - len, ip);
    LowBitsAreRemainder(BITS - len, dest);
    MultiplesDiffer(ip, dest, Pow2(BITS - len));
  }

  lemma MultiplesDiffer(a: nat, b: nat, d: nat)
    requires d > 0
    ensures a - a % d == b - b % d <==> a / d == b / d
  {
    assert a - a % d == a / d * d && b - b % d == b / d * d;
    if a / d < b / d {
      TimesGrows(a / d + 1, b / d, d);
    } else if a / d > b / d {
      TimesGrows(b / d + 1, a / d, d);
    }
  }

  /** A lookup gives the gateway of a network that contains the address: of those with the greatest masked
      destination, the one that was given first. */
  lemma LookupFinds(raw: seq<Entry>, ip: u32)
    ensures Lookup(Table(raw), ip).None? <==>
      forall k :: 0 <= k < |raw| ==> And(raw[k].mask, ip) != And(raw[k].mask, raw[k].dest)
    ensures Lookup(Table(raw), ip).Some? ==>
      exists i :: && 0 <= i < |raw| && Lookup(Table(raw), ip) == Some(raw[i].gateway)
                  && And(raw[i].mask, ip) == And(raw[i].mask, raw[i].dest)
                  && forall k :: 0 <= k < |raw| && And(raw[k].mask, ip) == And(raw[k].mask, raw[k].dest) ==>
                       || And(raw[k].mask, raw[k].dest) < And(raw[i].mask, raw[i].dest)
                       || (And(raw[k].mask, raw[k].dest) == And(raw[i].mask, raw[i].dest) && i <= k)
  {
    MissExactly(raw, ip);
    if FirstMatch(Table(raw), ip) < |raw| {
      var i := HitIsFirst(raw, ip);
      MaskedMatches(raw[i], ip);
      HitIsGreatest(raw, ip);
      forall k | 0 <= k < |raw| && Contains(raw[k], ip)
        ensures || raw[k].Masked().dest < raw[i].Masked().dest
                || (raw[k].Masked().dest == raw[i].Masked().dest && i <= k)
      {
        MaskedMatches(raw[k], ip);
        InTable(raw, raw[k].Masked());
      }
    }
  }

  // ----- longest prefixes

  ghost predicate ContiguousMasks(raw: seq<Entry>) {
    forall k :: 0 <= k < |raw| ==> Contiguous(raw[k].mask)
  }

  lemma NestedMatch(e: Entry, hit: Entry, ip: u32)
    requires e.Matches(ip) && hit.Matches(ip) && Contiguous(e.mask) && Contiguous(hit.mask) && e.mask > hit.mask
    requires !Higher(e, hit)
    ensures e.dest == hit.dest
  {
    LongerKeepsMore(hit.mask, e.mask, ip);
  }

  lemma TableMask(raw: seq<Entry>, e: Entry)
    requires ContiguousMasks(raw) && e in Table(raw)
    ensures Contiguous(e.mask)
  {
    InTable(raw, e);
  }

  /** A longer prefix that matches as well has the same destination as the hit. */
  lemma LongerSharesDestination(raw: seq<Entry>, ip: u32, e: Entry)
    requires ContiguousMasks(raw) && FirstMatch(Table(raw), ip) < |raw|
    requires e in Table(raw) && e.Matches(ip)
    ensures var hit := Table(raw)[FirstMatch(Table(raw), ip)]; e.mask > hit.mask ==> e.dest == hit.dest
  {
    var hit := Table(raw)[FirstMatch(Table(raw), ip)];
    HitIsGreatest(raw, ip);
    TableMask(raw, e);
    TableMask(raw, hit);
    if e.mask > hit.mask {
      NestedMatch(e, hit, ip);
    }
  }

  /** No network that was given and contains the address has a longer prefix than `hit`. */
  ghost predicate IsLongest(raw: seq<Entry>, ip: u32, hit: Entry) {
    forall k :: 0 <= k < |raw| && Contains(raw[k], ip) ==> raw[k].mask <= hit.mask
  }

  /** The i-th entry has the longest prefix around the address, and no entry given before it that
      contains the address has the same destination. */
  ghost predicate LongestComesFirst(raw: seq<Entry>, ip: u32, i: nat) {
    && i < |raw| && Contains(raw[i], ip)
    && IsLongest(raw, ip, raw[i])
    && forall k :: 0 <= k < i && Contains(raw[k], ip) ==> raw[k].Masked().dest != raw[i].Masked().dest
  }

  /** Two entries with the same mask around the same address are the same network. */
  lemma SameMaskSameDestination(a: Entry, b: Entry, ip: u32)
    requires Contains(a, ip) && Contains(b, ip) && a.mask == b.mask
    ensures a.Masked().dest == b.Masked().dest
  {
  }

  lemma HitIsLongest(raw: seq<Entry>, ip: u32, i: nat)
    requires ContiguousMasks(raw) && LongestComesFirst(raw, ip, i) && FirstMatch(Table(raw), ip) < |raw|
    ensures Table(raw)[FirstMatch(Table(raw), ip)] == raw[i].Masked()
  {
    var j := HitIsFirst(raw, ip);
    MaskedMatches(raw[i], ip);
    MaskedMatches(raw[j], ip);
    InTable(raw, raw[i].Masked());
    LongerSharesDestination(raw, ip, raw[i].Masked());
    if raw[i].mask == raw[j].mask {
      SameMaskSameDestination(raw[i], raw[j], ip);
    }
  }

  /** The lookup finds the longest prefix around an address exactly if among the entries around it some
      longest one is given before all others of its destination. */
  lemma LongestExactly(raw: seq<Entry>, ip: u32)
    requires ContiguousMasks(raw) && FirstMatch(Table(raw), ip) < |raw|
    ensures IsLongest(raw, ip, Table(raw)[FirstMatch(Table(raw), ip)]) <==> exists i :: LongestComesFirst(raw, ip, i)
  {
    if IsLongest(raw, ip, Table(raw)[FirstMatch(Table(raw), ip)]) {
      var j := HitIsFirst(raw, ip);
      MaskedMatches(raw[j], ip);
      forall k | 0 <= k < j && Contains(raw[k], ip) ensures raw[k].Masked().dest != raw[j].Masked().dest {
        MaskedMatches(raw[k], ip);
      }
      assert LongestComesFirst(raw, ip, j);
    }
    if i: nat :| LongestComesFirst(raw, ip, i) {
      HitIsLongest(raw, ip, i);
    }
  }

  /** So a table is right for every address if longer prefixes of the same destination come first. */
  ghost predicate LongerFirst(raw: seq<Entry>) {
    forall i, j :: 0 <= i < j < |raw| && raw[i].Masked().dest == raw[j].Masked().dest ==> raw[i].mask >= raw[j].mask
  }

  lemma LongerFirstIsRight(raw: seq<Entry>, ip: u32)
    requires ContiguousMasks(raw) && LongerFirst(raw) && FirstMatch(Table(raw), ip) < |raw|
    ensures IsLongest(raw, ip, Table(raw)[FirstMatch(Table(raw), ip)])
  {
    var i := HitIsFirst(raw, ip);
    forall k | 0 <= k < |raw| && Contains(raw[k], ip) ensures raw[k].mask <= raw[i].mask {
      MaskedMatches(raw[k], ip);
      InTable(raw, raw[k].Masked());
      LongerSharesDestination(raw, ip, raw[k].Masked());
    }
  }

  /** It goes wrong when a network is given before a longer prefix of the same destination, */
  lemma ShorterFirstHides(short: Entry, long: Entry, ip: u32)
    requires short.Masked() == short && long.Masked() == long && short.dest == long.dest && short.mask < long.mask
    requires short.Matches(ip) && long.Matches(ip)
    ensures Table([short, long]) == [short, long]
    ensures FirstMatch(Table([short, long]), ip) == 0 && !IsLongest([short, long], ip, short)
  {
    var raw := [short, long];
    assert raw[1..] == [long] && MaskAll([long]) == [long] && MaskAll(raw) == raw;
    assert raw[..1] == [short] && [short][..0] == [];
    assert Sort(Higher, [short]) == [short];
    assert Table(raw) == [short, long];
    assert raw[1] == long && Contains(long, ip);
  }

  /** A network and its first host, under a prefix of that network. */
  lemma FirstHost(len: nat, m: nat, net: u32)
    requires len < BITS && net == m * Pow2(BITS - len) < 0xffff_ffff
    ensures And(PrefixMask(len), net) == net == And(PrefixMask(len), net + 1)
  {
    LowBitsOfMultiple(BITS - len, m);
    LowBitsOfNext(BITS - len, net);
    AndPrefix(len, net);
    AndPrefix(len, net + 1);
  }

  /** as 10.0.0.0/8 before 10.0.0.0/16. */
  lemma TenNetHides(a: Ipv4Addr, b: Ipv4Addr)
    ensures var raw := [Entry(0x0a00_0000, PrefixMask(8), a), Entry(0x0a00_0000, PrefixMask(16), b)];
            && FirstMatch(Table(raw), 0x0a00_0001) == 0
            && !IsLongest(raw, 0x0a00_0001, Table(raw)[0])
  {
    Pow2OfBits();
    FirstHost(8, 0x0a, 0x0a00_0000);
    FirstHost(16, 0x0a00, 0x0a00_0000);
    LongerIsGreater(8, 16);
    ShorterFirstHides(Entry(0x0a00_0000, PrefixMask(8), a), Entry(0x0a00_0000, PrefixMask(16), b), 0x0a00_0001);
  }

  // ----- the networks this peer serves for others

  class AllowExternalRoute {
    const routeTable: seq<Entry>

    constructor (raw: seq<Entry>)
      ensures routeTable == Table(raw)
    {
      var table := MaskAndSort(raw);
      routeTable := table;
    }

    /** Allows an address exactly if some network of the table contains it; the order is irrelevant. */
    method Allow(ip: u32) returns (allowed: bool)
      ensures allowed <==> exists e :: e in routeTable && Contains(e, ip)
    {
      for i := 0 to |routeTable|
        invariant forall j :: 0 <= j < i ==> !Contains(routeTable[j], ip)
      {
        if Contains(routeTable[i], ip) {
          return true;
        }
      }
      return false;
    }
  }

  /** Masking the table does not change what it contains. */
  lemma AllowsExactly(raw: seq<Entry>, ip: u32)
    ensures (exists e :: e in Table(raw) && Contains(e, ip)) <==> exists e :: e in raw && Contains(e, ip)
  {
    forall e: Entry ensures Contains(e.Masked(), ip) <==> Contains(e, ip) {
      AndAgain(BITS, e.mask, e.dest);
    }
    if e :| e in Table(raw) && Contains(e, ip) {
      InTable(raw, e);
      var k :| 0 <= k < |raw| && raw[k].Masked() == e;
      assert raw[k] in raw;
    }
    if e :| e in raw && Contains(e, ip) {
      InTable(raw, e.Masked());
      var k :| 0 <= k < |raw| && raw[k] == e;
      assert raw[k].Masked() == e.Masked();
    }
  }
}
