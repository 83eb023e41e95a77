/** The name service: answers kept for a while, and their form on the wire. */
module NameService {
  import opened Options
  import opened Strings
  import opened Ipv4Text
  import opened Sequences
  import Network

  type Name = string

  datatype Record = Record(data: Option<string>, ttl: Option<int>)

  /** What the DNS-over-HTTPS server answers. */
  datatype Answer = NoStatus | Failed | Unanswered | Answered(records: seq<Record>)

  /** What resolving gives: nothing, a list, or another name to be resolved instead. */
  datatype Resolution = Nothing | Addresses(addresses: seq<string>) | Follow(name: string)

  const NANOSECONDS := 1_000_000_000
  const LONGEST_TTL := 3600
  const SHORTEST_TTL := 30
  const CACHE_LIMIT := 512

  /** An address as the number the block list works with. */
  function Number(x: Address): Network.Address {
    x.a * 0x100_0000 + x.b * 0x1_0000 + x.c * 0x100 + x.d
  }

  /** Addresses are ordered as their numbers are, the first that differs deciding. */
  lemma NumberOrdered(x: Address, y: Address)
    ensures Number(x) < Number(y) <==>
            || x.a < y.a
            || (x.a == y.a && (x.b < y.b || (x.b == y.b && (x.c < y.c || (x.c == y.c && x.d < y.d)))))
  {
  }

  function Numbers(x: Address): seq<Octet> {
    [x.a, x.b, x.c, x.d]
  }

  /** The number that the first `k` numbers make. */
  function Front(x: Address, k: nat): nat
    requires k <= 4
  {
    if k == 0 then 0
    else if k == 1 then x.a
    else if k == 2 then x.a * 0x100 + x.b
    else if k == 3 then x.a * 0x1_0000 + x.b * 0x100 + x.c
    else Number(x)
  }

  lemma FrontExactly(x: Address, y: Address, k: nat)
    requires k <= 4
    ensures Front(x, k) == Front(y, k) <==> Numbers(x)[..k] == Numbers(y)[..k]
  {
    var xs, ys := Numbers(x)[..k], Numbers(y)[..k];
    assert forall i :: 0 <= i < k ==> xs[i] == Numbers(x)[i] && ys[i] == Numbers(y)[i];
    assert k > 0 ==> xs[0] == x.a && ys[0] == y.a;
    assert k > 1 ==> xs[1] == x.b && ys[1] == y.b;
    assert k > 2 ==> xs[2] == x.c && ys[2] == y.c;
    assert k > 3 ==> xs[3] == x.d && ys[3] == y.d;
    if k == 4 {
      NumberOrdered(x, y);
      NumberOrdered(y, x);
    }
  }

  lemma FrontSize(x: Address, k: nat)
    requires k <= 4
    ensures 0 <= Number(x) - Network.Size(8 * k) * Front(x, k) < Network.Size(8 * k)
  {
    Network.Sizes();
    hide Network.Size;
    assert Network.Size(8 * k) == if k == 0 then 0x1_0000_0000 else if k == 1 then 0x100_0000
                                  else if k == 2 then 0x1_0000 else if k == 3 then 0x100 else 1;
  }

  /** A block with a length of 8 times `k` covers just the addresses with the same first `k` numbers. */
  lemma BlockExactly(x: Address, y: Address, k: nat)
    requires k <= 4
    ensures Network.Covers(Network.Block(Number(x), 8 * k), Number(y)) <==> Numbers(x)[..k] == Numbers(y)[..k]
  {
    hide Number, Front, Numbers;
    FrontSize(x, k);
    FrontSize(y, k);
    FrontExactly(x, y, k);
    Network.CoversMultiple(Network.Block(Number(x), 8 * k), Number(y), Front(x, k), Front(y, k));
  }

  /** `IsAddressInBlacklist`: a text that is no address is in no block. */
  predicate InBlacklist(blocks: seq<Network.Block>, text: string) {
    Parse(text).Some? && Network.Blocked(blocks, Number(Parse(text).value))
  }

  /** The text is that of an address in one of the blocks. */
  ghost predicate NamesBlocked(blocks: seq<Network.Block>, text: string) {
    exists x :: text == Text(x) && exists i :: 0 <= i < |blocks| && Network.Covers(blocks[i], Number(x))
  }

  lemma InBlacklistExactly(blocks: seq<Network.Block>, text: string)
    ensures InBlacklist(blocks, text) <==> NamesBlocked(blocks, text)
    ensures Parse(text).Some? <==> exists x :: text == Text(x)
  {
    hide Network.Covers, Number, Text, Parse;
    forall x
      ensures Parse(text) == Some(x) <==> text == Text(x)
    {
      ParseExactly(text, x);
    }
  }

  /** The text of an address is in a block of such a length exactly if it starts with the numbers of the block. */
  lemma TextBlockedExactly(x: Address, y: Address, k: nat)
    requires k <= 4
    ensures InBlacklist([Network.Block(Number(x), 8 * k)], Text(y)) <==> Numbers(x)[..k] == Numbers(y)[..k]
  {
    hide Network.Covers, Number, Numbers, Text, Parse;
    BlockExactly(x, y, k);
    ParseExactly(Text(y), y);
    var blocks := [Network.Block(Number(x), 8 * k)];
    assert Network.Blocked(blocks, Number(y)) <==> Network.Covers(blocks[0], Number(y));
  }

  predicate Unblocked(blocks: seq<Network.Block>, text: string) {
    Parse(text).Some? && !InBlacklist(blocks, text)
  }

  /** A record that is looked at. */
  predicate Considered(blocks: seq<Network.Block>, r: Record) {
    r.data.Some? && r.ttl.Some? && !InBlacklist(blocks, r.data.value)
  }

  predicate Accepted(blocks: seq<Network.Block>, r: Record) {
    Considered(blocks, r) && Parse(r.data.value).Some?
  }

  /** Looked at is what has data and a time, and is no address in a block; accepted is that which is an address. */
  lemma AcceptedMeans(blocks: seq<Network.Block>, r: Record)
    ensures Considered(blocks, r) <==> r.data.Some? && r.ttl.Some? && !NamesBlocked(blocks, r.data.value)
    ensures Accepted(blocks, r) <==> Considered(blocks, r) && exists x :: r.data.value == Text(x)
  {
    if r.data.Some? {
      InBlacklistExactly(blocks, r.data.value);
    }
  }

  /** The addresses of the records accepted, in order. */
  function AcceptedOf(blocks: seq<Network.Block>, records: seq<Record>): seq<string> {
    if records == [] then []
    else
      var last := records[|records| - 1];
      AcceptedOf(blocks, records[..|records| - 1]) + if Accepted(blocks, last) then [last.data.value] else []
  }

  /** For whatever test says that a record is accepted: the addresses are those of the records that pass it, in order. */
  lemma {:induction false} AcceptedExactly(blocks: seq<Network.Block>, records: seq<Record>, keep: Record -> bool)
    requires forall r :: keep(r) <==> Accepted(blocks, r)
    ensures exists kept :: Keeps(records, keep, kept) && DataOf(kept, AcceptedOf(blocks, records))
  {
    hide Accepted, Keeps;
    if records == [] {
      KeepsNone(keep);
      assert DataOf([], AcceptedOf(blocks, records));
    } else {
      var front, last := records[..|records| - 1], records[|records| - 1];
      AcceptedExactly(blocks, front, keep);
      var kept :| Keeps(front, keep, kept) && DataOf(kept, AcceptedOf(blocks, front));
      KeepsNext(keep, front, kept, last);
      assert records == front + [last];
      if keep(last) {
        HasData(blocks, last);
        assert DataOf(kept + [last], AcceptedOf(blocks, records));
      } else {
        assert DataOf(kept, AcceptedOf(blocks, records));
      }
    }
  }

  lemma HasData(blocks: seq<Network.Block>, r: Record)
    ensures Accepted(blocks, r) ==> r.data.Some?
  {
  }

  /** The texts are what the records hold. */
  predicate DataOf(records: seq<Record>, texts: seq<string>) {
    |records| == |texts| && forall i :: 0 <= i < |records| ==> records[i].data == Some(texts[i])
  }

  /** The shortest time an accepted record allows, an hour at most. */
  function ShortestTtl(blocks: seq<Network.Block>, records: seq<Record>): int {
    if records == [] then LONGEST_TTL
    else
      var rest, last := ShortestTtl(blocks, records[..|records| - 1]), records[|records| - 1];
      if Accepted(blocks, last) && last.ttl.value < rest then last.ttl.value else rest
  }

  lemma {:induction false} ShortestTtlBounds(blocks: seq<Network.Block>, records: seq<Record>)
    ensures var ttl := ShortestTtl(blocks, records);
            && ttl <= LONGEST_TTL
            && (forall i :: 0 <= i < |records| && Accepted(blocks, records[i]) ==> ttl <= records[i].ttl.value)
            && (ttl == LONGEST_TTL ||
                  exists i :: 0 <= i < |records| && Accepted(blocks, records[i]) && records[i].ttl.value == ttl)
  {
    if records != [] {
      var n := |records| - 1;
      ShortestTtlBounds(blocks, records[..n]);
      assert forall i :: 0 <= i < n ==> records[..n][i] == records[i];
      var rest := ShortestTtl(blocks, records[..n]);
      if rest != LONGEST_TTL && ShortestTtl(blocks, records) == rest {
        var i :| 0 <= i < n && Accepted(blocks, records[..n][i]) && records[..n][i].ttl.value == rest;
        assert Accepted(blocks, records[i]);
      }
    }
  }

  /** The last name among the records looked at. */
  function LastName(blocks: seq<Network.Block>, records: seq<Record>): Option<string> {
    if records == [] then None
    else
      var last := records[|records| - 1];
      if Considered(blocks, last) then last.data else LastName(blocks, records[..|records| - 1])
  }

  /** The name is that of the record looked at that no other one looked at comes after. */
  lemma {:induction false} LastNameExactly(blocks: seq<Network.Block>, records: seq<Record>, i: nat)
    ensures LastName(blocks, records).None? <==> forall j :: 0 <= j < |records| ==> !Considered(blocks, records[j])
    ensures i < |records| && Considered(blocks, records[i])
            && (forall j :: i < j < |records| ==> !Considered(blocks, records[j])) ==>
              LastName(blocks, records) == records[i].data
  {
    if records != [] {
      var n := |records| - 1;
      LastNameExactly(blocks, records[..n], i);
      assert forall j :: 0 <= j < n ==> records[..n][j] == records[j];
    }
  }

  lemma {:induction false} AcceptedUnblocked(blocks: seq<Network.Block>, records: seq<Record>)
    ensures forall a :: a in AcceptedOf(blocks, records) ==> Unblocked(blocks, a)
  {
    if records != [] {
      AcceptedUnblocked(blocks, records[..|records| - 1]);
    }
  }

  datatype Entry = Entry(expireAt: int, result: seq<string>)

  class DnsOverHttpsResolver {
    var cache: map<Name, Entry>
    const blocks: seq<Network.Block>

    // for each name in the cache, the answer its entry came from and when
    ghost var origins: map<Name, (seq<Record>, int)>

    ghost predicate Valid()
      reads this
    {
      && |cache| <= CACHE_LIMIT
      && cache.Keys == origins.Keys
      && forall n :: n in cache ==> Sound(cache[n], origins[n].0, origins[n].1)
    }

    /** An entry holds the addresses of its answer, for as long as each of them may be kept, and no longer than an hour. */
    ghost predicate Sound(entry: Entry, records: seq<Record>, at: int)
    {
      && entry.result == AcceptedOf(blocks, records)
      && ShortestTtl(blocks, records) > SHORTEST_TTL
      && entry.expireAt == at + ShortestTtl(blocks, records) * NANOSECONDS
    }

    constructor (blocks: seq<Network.Block>)
      ensures Valid() && cache == map[] && this.blocks == blocks
    {
      this.blocks := blocks;
      cache, origins := map[], map[];
    }

    /** Looks a name up; an entry that has expired is dropped. */
    method Lookup(name: Name, domainBlocked: bool, now: int) returns (done: bool, resolution: Resolution)
      requires Valid()
      modifies this
      ensures Valid()
      ensures domainBlocked ==> done && resolution == Nothing && cache == old(cache)
      ensures !domainBlocked ==> (done <==> name in old(cache) && now < old(cache)[name].expireAt)
      ensures !domainBlocked && done ==> resolution == Addresses(old(cache)[name].result) && cache == old(cache)
      ensures !done ==> cache == old(cache) - {name}
      ensures !domainBlocked && done ==> HitSound(resolution.addresses, old(origins)[name].0, now - old(origins)[name].1)
      ensures cache == old(cache) ==> origins == old(origins)
    {
      done, resolution := true, Nothing;
      if domainBlocked {
        return;
      }
      if name in cache {
        if now < cache[name].expireAt {
          resolution := Addresses(cache[name].result);
          AcceptedUnblocked(blocks, origins[name].0);
          ShortestTtlBounds(blocks, origins[name].0);
          return;
        }
        cache := cache - {name};
        origins := origins - {name};
      }
      assert cache == old(cache) - {name};
      done := false;
    }

    /** What a hit promises: unblocked IPv4 addresses of an answer not older than any of them may be kept. */
    ghost predicate HitSound(addresses: seq<string>, records: seq<Record>, age: int) {
      && addresses == AcceptedOf(blocks, records)
      && (forall a :: a in addresses ==> Unblocked(blocks, a))
      && age < LONGEST_TTL * NANOSECONDS
      && (forall i :: 0 <= i < |records| && Accepted(blocks, records[i]) ==> age < records[i].ttl.value * NANOSECONDS)
    }

    /** The loop over the records of an answer. */
    method ReadRecords(records: seq<Record>) returns (result: seq<string>, shortest: int, cname: Option<string>)
      ensures result == AcceptedOf(blocks, records)
      ensures shortest == ShortestTtl(blocks, records)
      ensures cname == LastName(blocks, records)
    {
      result, shortest, cname := [], LONGEST_TTL, None;
      for i := 0 to |records|
        invariant result == AcceptedOf(blocks, records[..i])
        invariant shortest == ShortestTtl(blocks, records[..i])
        invariant cname == LastName(blocks, records[..i])
      {
        var record := records[i];
        assert records[..i + 1][..i] == records[..i];
        if record.data.None? || record.ttl.None? {
          continue;
        }
        var address := record.data.value;
        if InBlacklist(blocks, address) {
          continue;
        }
        cname := Some(address);
        if Parse(address).Some? {
          result := result + [address];
          shortest := if record.ttl.value < shortest then record.ttl.value else shortest;
        }
      }
      assert records[..|records|] == records;
    }

    /** The cache after an answer for a name: its addresses are kept if they may be for long enough, and there is room. */
    function Keeping(cache: map<Name, Entry>, name: Name, records: seq<Record>, now: int): map<Name, Entry> {
      var ttl := ShortestTtl(blocks, records);
      if ttl > SHORTEST_TTL && |cache| < CACHE_LIMIT
      then cache[name := Entry(now + ttl * NANOSECONDS, AcceptedOf(blocks, records))]
      else cache
    }

    /**
     * An answer is kept exactly if each of its addresses may be for over 30 seconds and less than 512 names are; its
     * addresses then are, for as long as the first of them may be or an hour.
     */
    lemma KeepingExactly(cache: map<Name, Entry>, name: Name, records: seq<Record>, now: int)
      ensures var after := Keeping(cache, name, records, now);
              if |cache| < 512
                 && forall i :: 0 <= i < |records| && Accepted(blocks, records[i]) ==> records[i].ttl.value > 30
              then && name in after && after == cache[name := after[name]]
                   && after[name].result == AcceptedOf(blocks, records)
                   && ExpiresFirst(records, now, after[name].expireAt)
              else after == cache
    {
      hide Accepted;
      ShortestTtlBounds(blocks, records);
    }

    /** An hour after `now`, or the first time after it that one of the addresses may be kept no longer. */
    predicate ExpiresFirst(records: seq<Record>, now: int, time: int) {
      && time <= now + 3_600_000_000_000
      && (forall i :: 0 <= i < |records| && Accepted(blocks, records[i]) ==>
            time <= now + records[i].ttl.value * 1_000_000_000)
      && (time == now + 3_600_000_000_000 ||
            exists i :: 0 <= i < |records| && Accepted(blocks, records[i])
                        && time == now + records[i].ttl.value * 1_000_000_000)
    }

    /** What is made of an answer; `now` is the time it is kept from, `nameStack` the names asked for so far. */
    method Digest(nameStack: seq<Name>, answer: Answer, now: int) returns (resolution: Resolution)
      requires Valid() && nameStack != []
      modifies this
      ensures Valid()
      ensures !answer.Answered? ==> resolution == Nothing && cache == old(cache)
      ensures answer.Answered? ==>
        var list, last := AcceptedOf(blocks, answer.records), LastName(blocks, answer.records);
        if list == [] && last.Some? && last.value != [] then
          && cache == old(cache)
          && resolution == if last.value in nameStack then Addresses([]) else Follow(last.value)
        else
          && cache == Keeping(old(cache), nameStack[|nameStack| - 1], answer.records, now)
          && resolution == Addresses(list)
    {
      if !answer.Answered? {
        return Nothing;
      }
      var name := nameStack[|nameStack| - 1];
      var result, shortest, cname := ReadRecords(answer.records);
      if result == [] && cname.Some? && cname.value != [] {
        if cname.value !in nameStack {
          return Follow(cname.value);
        }
        return Addresses(result);
      }
      if shortest > SHORTEST_TTL {
        Keep(name, Entry(now + shortest * NANOSECONDS, result), answer.records, now);
      }
      return Addresses(result);
    }

    /** Keeps an entry while there is room. */
    method Keep(name: Name, entry: Entry, ghost records: seq<Record>, ghost now: int)
      requires Valid() && Sound(entry, records, now)
      modifies this
      ensures Valid()
      ensures cache == if |old(cache)| < CACHE_LIMIT then old(cache)[name := entry] else old(cache)
    {
      if |cache| > CACHE_LIMIT {
        assert false;  // the eviction of an expired entry is never reached
      }
      if |cache| < CACHE_LIMIT {
        cache := cache[name := entry];
        origins := origins[name := (records, now)];
      }
    }
  }

  // ---- the answer on the wire

  /** `name_resolved`: the addresses joined with NULs, or one NUL when there are none. */
  function Reply(resolution: Resolution): string
    requires !resolution.Follow?
  {
    if resolution.Nothing? || resolution.addresses == [] then "\0" else Join(resolution.addresses, '\0')
  }

  datatype AnyAddress = FourParts(four: Address) | SixParts(six: string)

  /** `make_address`; `six` says which other texts are IPv6 addresses. */
  function MakeAddress(six: string -> Option<string>, entry: string): Option<AnyAddress> {
    if Parse(entry).Some? then Some(FourParts(Parse(entry).value))
    else if six(entry).Some? then Some(SixParts(six(entry).value))
    else None
  }

  function AddressesIn(six: string -> Option<string>, entries: seq<string>): seq<AnyAddress> {
    if entries == [] then []
    else
      OneAddress(six, entries[0]) + AddressesIn(six, entries[1..])
  }

  /** C++ `DecodeResult`: the addresses among what stands between the NULs. */
  method DecodeResult(buffer: string, six: string -> Option<string>) returns (output: seq<AnyAddress>)
    requires six([]).None?
    ensures output == AddressesIn(six, Split(buffer, '\0'))
  {
    hide AddressesFrom, AddressesIn, MakeAddress, Find, Split;
    output := [];
    var offset := 0;
    DecodeStart(buffer, six);
    while offset < |buffer|
      invariant AddressesIn(six, Split(buffer, '\0')) == output + AddressesFrom(six, buffer, offset)
      decreases |buffer| - offset
    {
      var length := Find(buffer[offset..], '\0');
      DecodeStep(buffer, offset, six);
      var address := MakeAddress(six, buffer[offset..offset + length]);
      Regrouped(output, OneAddress(six, buffer[offset..offset + length]), AddressesFrom(six, buffer, offset + length + 1));
      if address.Some? {
        output := output + [address.value];
      }
      offset := offset + length + 1;
    }
    DecodeEnd(buffer, offset, six);
    assert output + [] == output;
  }

  /** A text stands for the address of version 4 it is the text of, or else for one of version 6, if for any. */
  lemma OneAddressExactly(six: string -> Option<string>, entry: string)
    ensures forall x :: entry == Text(x) ==> OneAddress(six, entry) == [FourParts(x)]
    ensures (forall x :: entry != Text(x)) ==>
              OneAddress(six, entry) == if six(entry).Some? then [SixParts(six(entry).value)] else []
  {
    hide Text, Parse;
    forall x
      ensures Parse(entry) == Some(x) <==> entry == Text(x)
    {
      ParseExactly(entry, x);
    }
  }

  /** What is decoded are the addresses of the entries that stand for one, in order. */
  lemma {:induction false} AddressesExactly(six: string -> Option<string>, entries: seq<string>, keep: string -> bool)
    requires forall entry :: keep(entry) <==> OneAddress(six, entry) != []
    ensures exists kept :: Keeps(entries, keep, kept) && StandFor(six, kept, AddressesIn(six, entries))
  {
    hide Keeps, OneAddress, AddressesIn, StandFor;
    if entries == [] {
      NoAddresses(six);
      KeepsNone(keep);
    } else {
      var first, rest := entries[0], entries[1..];
      FirstOfEntries(six, first, rest);
      AddressesExactly(six, rest, keep);
      var kept :| Keeps(rest, keep, kept) && StandFor(six, kept, AddressesIn(six, rest));
      KeepsFirst(keep, first, rest, kept);
      assert entries == [first] + rest;
      assert [] + AddressesIn(six, rest) == AddressesIn(six, rest);
      if keep(first) {
        OneMoreStands(six, first, OneAddress(six, first)[0], kept, AddressesIn(six, rest));
      }
    }
  }

  lemma NoAddresses(six: string -> Option<string>)
    ensures AddressesIn(six, []) == [] && StandFor(six, [], [])
  {
  }

  lemma OneMoreStands(six: string -> Option<string>, entry: string, address: AnyAddress,
                      entries: seq<string>, addresses: seq<AnyAddress>)
    requires OneAddress(six, entry) == [address] && StandFor(six, entries, addresses)
    ensures StandFor(six, [entry] + entries, [address] + addresses)
  {
    hide OneAddress;
  }

  lemma FirstOfEntries(six: string -> Option<string>, first: string, rest: seq<string>)
    ensures AddressesIn(six, [first] + rest) == OneAddress(six, first) + AddressesIn(six, rest)
    ensures |OneAddress(six, first)| <= 1
  {
    hide MakeAddress;
  }

  /** Each entry is the text of the address. */
  predicate StandFor(six: string -> Option<string>, entries: seq<string>, addresses: seq<AnyAddress>) {
    |entries| == |addresses| && forall i :: 0 <= i < |entries| ==> OneAddress(six, entries[i]) == [addresses[i]]
  }

  lemma DecodeStart(buffer: string, six: string -> Option<string>)
    ensures [] + AddressesFrom(six, buffer, 0) == AddressesIn(six, Split(buffer, '\0'))
  {
  }

  lemma DecodeEnd(buffer: string, offset: nat, six: string -> Option<string>)
    requires offset >= |buffer| && six([]).None?
    ensures AddressesFrom(six, buffer, offset) == []
  {
  }

  lemma Regrouped<T>(a: seq<T>, b: seq<T>, c: seq<T>)
    ensures (a + b) + c == a + (b + c)
    ensures a + [] == a && [] + a == a
  {
  }

  /** The addresses in a text are that of its first entry, if it has one, and those after it. */
  lemma FirstAddress(s: string, six: string -> Option<string>)
    ensures var n := Find(s, '\0');
            AddressesIn(six, Split(s, '\0'))
            == OneAddress(six, s[..n]) + if n < |s| then AddressesIn(six, Split(s[n + 1..], '\0')) else []
  {
    SplitOnce(s, '\0');
    var parts := Split(s, '\0');
    assert AddressesIn(six, parts) == OneAddress(six, parts[0]) + AddressesIn(six, parts[1..]);
  }

  function OneAddress(six: string -> Option<string>, entry: string): seq<AnyAddress> {
    var address := MakeAddress(six, entry);
    if address.Some? then [address.value] else []
  }

  lemma DecodeStep(buffer: string, offset: nat, six: string -> Option<string>)
    requires offset < |buffer|
    ensures var n := Find(buffer[offset..], '\0');
            && offset + n <= |buffer|
            && AddressesFrom(six, buffer, offset)
               == OneAddress(six, buffer[offset..offset + n]) + AddressesFrom(six, buffer, offset + n + 1)
  {
    var s, n := buffer[offset..], Find(buffer[offset..], '\0');
    FirstAddress(s, six);
    assert s[..n] == buffer[offset..offset + n];
    if offset + n < |buffer| {
      assert s[n + 1..] == buffer[offset + n + 1..];
    }
  }

  /** The addresses from `offset` on; none behind the end. */
  function AddressesFrom(six: string -> Option<string>, buffer: string, offset: nat): seq<AnyAddress> {
    if offset <= |buffer| then AddressesIn(six, Split(buffer[offset..], '\0')) else []
  }

  lemma EmptyEntry(six: string -> Option<string>)
    requires six([]).None?
    ensures AddressesIn(six, Split([], '\0')) == []
  {
  }

  lemma SplitOnce(s: string, sep: char)
    ensures var n := Find(s, sep);
            Split(s, sep)[0] == s[..n] && Split(s, sep)[1..] == if n == |s| then [] else Split(s[n + 1..], sep)
  {
  }

  lemma AllFour(six: string -> Option<string>, texts: seq<string>)
    requires forall t :: t in texts ==> Parse(t).Some?
    ensures AddressesIn(six, texts) == seq(|texts|, i requires 0 <= i < |texts| => FourParts(Parse(texts[i]).value))
  {
  }

  lemma NoNul(texts: seq<string>)
    requires forall t :: t in texts ==> Parse(t).Some?
    ensures forall t :: t in texts ==> '\0' !in t && |t| >= 7
  {
    forall t | t in texts
      ensures '\0' !in t && |t| >= 7
    {
      ParseExactly(t, Parse(t).value);
      TextShape(Parse(t).value);
    }
  }

  /** The proxy gets from a reply exactly the addresses it was made of, in order. */
  lemma ReplyDecoded(texts: seq<string>, six: string -> Option<string>)
    requires six([]).None? && forall t :: t in texts ==> Parse(t).Some?
    ensures AddressesIn(six, Split(Reply(Addresses(texts)), '\0'))
         == seq(|texts|, i requires 0 <= i < |texts| => FourParts(Parse(texts[i]).value))
  {
    NoNul(texts);
    if texts == [] {
      SplitOnce("\0", '\0');
      EmptyEntry(six);
      var parts := Split("\0", '\0');
      assert parts == [[]] + Split([], '\0');
      assert AddressesIn(six, parts) == AddressesIn(six, parts[1..]);
    } else {
      SplitOfJoin(texts, '\0');
      AllFour(six, texts);
    }
  }

  /** The Python client: a reply of up to seven bytes counts as empty. */
  function Received(data: string): seq<string> {
    if |data| <= 7 then [] else Split(data, '\0')
  }

  /** It gets the list back unless that is a single address of seven characters. */
  lemma ReceivedExactly(texts: seq<string>)
    requires forall t :: t in texts ==> Parse(t).Some?
    ensures Received(Reply(Addresses(texts))) == texts <==> !(|texts| == 1 && |texts[0]| == 7)
  {
    NoNul(texts);
    if texts != [] {
      SplitOfJoin(texts, '\0');
      if |texts| > 1 {
        assert texts[0] in texts;
      }
    }
  }

  /** One such address is that of a server this service itself asks. */
  lemma OneOneOneOneLost()
    ensures Parse("1.1.1.1") == Some(Address(1, 1, 1, 1))
    ensures Received(Reply(Addresses(["1.1.1.1"]))) == []
  {
    var x := Address(1, 1, 1, 1);
    TextParts(x);
    assert Text(x) == "1.1.1.1";
    ParseExactly("1.1.1.1", x);
  }
}
