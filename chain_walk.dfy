/**
  The walk over the cache's hash chains: from a bucket's address, read the
  entry the address points at in its block file, then follow the entry's
  `next` address, until the chain ends, 64 entries have been read, or the
  address names no opened block file. A chain that stops where the source
  raises (no block offset, a short record) ends the walk over all buckets.
*/
module ChainWalk {
  import opened Bytes
  import opened Wrappers
  import opened CacheAddresses
  import opened DataBlockFiles
  import IndexFiles

  /** Longest chain the walk follows. */
  const MAXIMUM_CHAIN_LENGTH: nat := 64

  /** Why the walk of one chain stopped. */
  datatype ChainStop =
    | EndOfChain         // the current address is 0
    | ChainTooLong       // 64 entries were read and the chain goes on
    | MissingDataFile    // the address names no file, or a file that was not opened
    | NoBlockOffset      // the address names a separate file, which has no block offset
    | ReadFailed(error: Error) // the entry record at the offset is incomplete

  /** The entries read, in chain order, and why the walk stopped. */
  datatype Walk = Walk(entries: seq<CacheEntry>, stop: ChainStop)

  /**
    How an entry is read from a block file's bytes at a block offset. The
    walk uses ReadCacheEntryAt; the properties below hold for any reader.
  */
  type EntryReader = (seq<byte>, nat) -> Result<CacheEntry>

  /** The opened block files' bytes, by filename. */
  function Contents(files: map<string, DataBlockFile>): map<string, seq<byte>>
    reads files.Values`contents
  {
    map k | k in files :: files[k].contents
  }

  /** The bytes under a filename are the bytes of the block file opened under it. */
  lemma ContentsAt(files: map<string, DataBlockFile>, k: string)
    requires k in files
    ensures k in Contents(files) && Contents(files)[k] == files[k].contents
  {
  }

  /** Only the opened block files have bytes. */
  lemma ContentsKeys(files: map<string, DataBlockFile>)
    ensures Contents(files).Keys == files.Keys
  {
  }

  /**
    The walk from `address` after `hops` entries have already been read: the
    checks come in the source's order (end of chain, then the hop limit, then
    the file lookup), and every entry read continues from its `next` address.
  */
  function Chain(address: CacheAddress, files: map<string, seq<byte>>, hops: nat, read: EntryReader): Walk
    decreases MAXIMUM_CHAIN_LENGTH - hops
  {
    if address.value == 0 then Walk([], EndOfChain)
    else if hops >= MAXIMUM_CHAIN_LENGTH then Walk([], ChainTooLong)
    else if address.filename.None? || address.filename.value !in files then Walk([], MissingDataFile)
    else if address.blockOffset.None? then Walk([], NoBlockOffset)
    else
      match read(files[address.filename.value], address.blockOffset.value)
      case Err(e) => Walk([], ReadFailed(e))
      case Ok(entry) =>
        var rest := Chain(entry.next, files, hops + 1, read);
        Walk([entry] + rest.entries, rest.stop)
  }

  /** The address the walk looks at after reading `entries`: the last `next`, or the start. */
  function Current(address: CacheAddress, entries: seq<CacheEntry>): CacheAddress
  {
    if entries == [] then address else entries[|entries| - 1].next
  }

  /** Entry i of a chain is read at the address the chain holds before it. */
  predicate ReadAtLink(address: CacheAddress, files: map<string, seq<byte>>, read: EntryReader, entry: CacheEntry)
  {
    && address.value != 0
    && address.filename.Some? && address.filename.value in files
    && address.blockOffset.Some?
    && read(files[address.filename.value], address.blockOffset.value) == Ok(entry)
  }

  /** Each entry was read at the address the walk held before it: the start, then each `next` in turn. */
  predicate Linked(address: CacheAddress, files: map<string, seq<byte>>, read: EntryReader, entries: seq<CacheEntry>)
  {
    forall i :: 0 <= i < |entries| ==> ReadAtLink(Current(address, entries[..i]), files, read, entries[i])
  }

  /** The walk never reads more entries than the hops it has left. */
  lemma {:induction false} ChainBounded(address: CacheAddress, files: map<string, seq<byte>>, hops: nat, read: EntryReader)
    requires hops <= MAXIMUM_CHAIN_LENGTH
    ensures |Chain(address, files, hops, read).entries| <= MAXIMUM_CHAIN_LENGTH - hops
    decreases MAXIMUM_CHAIN_LENGTH - hops
  {
    if address.value != 0 && hops < MAXIMUM_CHAIN_LENGTH && address.filename.Some?
       && address.filename.value in files && address.blockOffset.Some?
    {
      var r := read(files[address.filename.value], address.blockOffset.value);
      if r.Ok? {
        ChainBounded(r.value.next, files, hops + 1, read);
      }
    }
  }

  /** An entry read at the address, followed by a chain linked from its `next`, is linked from the address. */
  lemma LinkedCons(address: CacheAddress, files: map<string, seq<byte>>, read: EntryReader,
                   entry: CacheEntry, rest: seq<CacheEntry>)
    requires ReadAtLink(address, files, read, entry) && Linked(entry.next, files, read, rest)
    ensures Linked(address, files, read, [entry] + rest)
  {
    var entries := [entry] + rest;
    forall i | 0 <= i < |entries|
      ensures ReadAtLink(Current(address, entries[..i]), files, read, entries[i])
    {
      if i == 0 {
        assert entries[..i] == [];
      } else {
        assert entries[..i] == [entry] + rest[..i - 1];
        assert Current(address, entries[..i]) == Current(entry.next, rest[..i - 1]);
      }
    }
  }

  /**
    Every entry of the walk was read at the address before it: the start for
    the first, the previous entry's `next` for the others.
  */
  lemma {:induction false} ChainLinks(address: CacheAddress, files: map<string, seq<byte>>, hops: nat, read: EntryReader)
    ensures Linked(address, files, read, Chain(address, files, hops, read).entries)
    decreases MAXIMUM_CHAIN_LENGTH - hops
  {
    if address.value != 0 && hops < MAXIMUM_CHAIN_LENGTH && address.filename.Some?
       && address.filename.value in files && address.blockOffset.Some?
    {
      var r := read(files[address.filename.value], address.blockOffset.value);
      if r.Ok? {
        ChainLinks(r.value.next, files, hops + 1, read);
        LinkedCons(address, files, read, r.value, Chain(r.value.next, files, hops + 1, read).entries);
      }
    }
  }

  /** The address after the last entry read is the one the walk stopped at, for the reason it gives. */
  lemma {:induction false} ChainStopReason(address: CacheAddress, files: map<string, seq<byte>>, hops: nat, read: EntryReader)
    requires hops <= MAXIMUM_CHAIN_LENGTH
    ensures var w := Chain(address, files, hops, read);
      var last := Current(address, w.entries);
      && (w.stop == EndOfChain <==> last.value == 0)
      && (w.stop == ChainTooLong <==> last.value != 0 && hops + |w.entries| == MAXIMUM_CHAIN_LENGTH)
      && (w.stop == MissingDataFile ==> last.filename.None? || last.filename.value !in files)
      && (w.stop == NoBlockOffset ==> last.filename.Some? && last.blockOffset.None?)
      && (w.stop.ReadFailed? ==>
            last.blockOffset.Some? && last.filename.Some? && last.filename.value in files
            && read(files[last.filename.value], last.blockOffset.value) == Err(w.stop.error))
    decreases MAXIMUM_CHAIN_LENGTH - hops
  {
    if address.value != 0 && hops < MAXIMUM_CHAIN_LENGTH && address.filename.Some?
       && address.filename.value in files && address.blockOffset.Some?
    {
      var r := read(files[address.filename.value], address.blockOffset.value);
      if r.Ok? {
        var entry := r.value;
        var rest := Chain(entry.next, files, hops + 1, read);
        ChainStopReason(entry.next, files, hops + 1, read);
        ChainBounded(entry.next, files, hops + 1, read);
        assert Chain(address, files, hops, read) == Walk([entry] + rest.entries, rest.stop);
        assert Current(address, [entry] + rest.entries) == Current(entry.next, rest.entries);
      }
    }
  }

  /**
    An entry whose `next` is its own address makes the walk read it again
    and again until the hop limit: a cycle cannot keep the walk going.
  */
  lemma {:induction false} SelfLoop(address: CacheAddress, files: map<string, seq<byte>>, hops: nat, read: EntryReader, entry: CacheEntry)
    requires hops <= MAXIMUM_CHAIN_LENGTH
    requires ReadAtLink(address, files, read, entry) && entry.next == address
    ensures Chain(address, files, hops, read) == Walk(seq(MAXIMUM_CHAIN_LENGTH - hops, _ => entry), ChainTooLong)
    decreases MAXIMUM_CHAIN_LENGTH - hops
  {
    if hops < MAXIMUM_CHAIN_LENGTH {
      SelfLoop(address, files, hops + 1, read, entry);
      assert seq(MAXIMUM_CHAIN_LENGTH - hops, _ => entry) == [entry] + seq(MAXIMUM_CHAIN_LENGTH - hops - 1, _ => entry);
    }
  }

  /**
    A set of addresses the walk can never leave: each one names an opened
    file and a block offset, its entry reads successfully, and the entry's
    `next` is again in the set.
  */
  ghost predicate Trap(cycle: set<CacheAddress>, files: map<string, seq<byte>>, read: EntryReader)
  {
    forall x :: x in cycle ==>
      && x.value != 0 && x.filename.Some? && x.filename.value in files && x.blockOffset.Some?
      && read(files[x.filename.value], x.blockOffset.value).Ok?
      && read(files[x.filename.value], x.blockOffset.value).value.next in cycle
  }

  /**
    A walk that enters a cycle of any length (A to B and back to A, say)
    reads every remaining hop's entry and stops at the hop limit.
  */
  lemma {:induction false} TrapHitsLimit(cycle: set<CacheAddress>, address: CacheAddress,
                                         files: map<string, seq<byte>>, hops: nat, read: EntryReader)
    requires hops <= MAXIMUM_CHAIN_LENGTH
    requires Trap(cycle, files, read) && address in cycle
    ensures Chain(address, files, hops, read).stop == ChainTooLong
    ensures |Chain(address, files, hops, read).entries| == MAXIMUM_CHAIN_LENGTH - hops
    decreases MAXIMUM_CHAIN_LENGTH - hops
  {
    if hops < MAXIMUM_CHAIN_LENGTH {
      var entry := read(files[address.filename.value], address.blockOffset.value).value;
      TrapHitsLimit(cycle, entry.next, files, hops + 1, read);
    }
  }

  /** One hop of the walk: an entry read at the address, then the walk from its `next`. */
  lemma ChainStep(address: CacheAddress, files: map<string, seq<byte>>, hops: nat, read: EntryReader, entry: CacheEntry)
    requires hops < MAXIMUM_CHAIN_LENGTH && ReadAtLink(address, files, read, entry)
    ensures var rest := Chain(entry.next, files, hops + 1, read);
      Chain(address, files, hops, read) == Walk([entry] + rest.entries, rest.stop)
  {
  }

  /** A walk with `entries` already read in front of it. */
  function After(entries: seq<CacheEntry>, w: Walk): Walk
  {
    Walk(entries + w.entries, w.stop)
  }

  /** Nothing after `entries`: the walk is `entries` and its stop. */
  lemma AfterNothing(entries: seq<CacheEntry>, stop: ChainStop)
    ensures After(entries, Walk([], stop)) == Walk(entries, stop)
  {
    assert entries + [] == entries;
  }

  /** Moving the next entry read from the remaining walk to the entries already read. */
  lemma AfterOne(entries: seq<CacheEntry>, entry: CacheEntry, w: Walk)
    ensures After(entries, Walk([entry] + w.entries, w.stop)) == After(entries + [entry], w)
  {
    assert entries + ([entry] + w.entries) == (entries + [entry]) + w.entries;
  }

  /** Where a walk stops at once, by the first check that fails. */
  lemma ChainHalts(address: CacheAddress, files: map<string, seq<byte>>, hops: nat, read: EntryReader)
    ensures address.value == 0 ==> Chain(address, files, hops, read) == Walk([], EndOfChain)
    ensures address.value != 0 && hops >= MAXIMUM_CHAIN_LENGTH ==>
      Chain(address, files, hops, read) == Walk([], ChainTooLong)
    ensures (address.value != 0 && hops < MAXIMUM_CHAIN_LENGTH
             && (address.filename.None? || address.filename.value !in files)) ==>
      Chain(address, files, hops, read) == Walk([], MissingDataFile)
    ensures (address.value != 0 && hops < MAXIMUM_CHAIN_LENGTH
             && address.filename.Some? && address.filename.value in files && address.blockOffset.None?) ==>
      Chain(address, files, hops, read) == Walk([], NoBlockOffset)
    ensures (address.value != 0 && hops < MAXIMUM_CHAIN_LENGTH
             && address.filename.Some? && address.filename.value in files && address.blockOffset.Some?
             && read(files[address.filename.value], address.blockOffset.value).Err?) ==>
      Chain(address, files, hops, read)
        == Walk([], ReadFailed(read(files[address.filename.value], address.blockOffset.value).error))
  {
  }

  /**
    The loop over one bucket's chain: look up the block file by the address's
    filename, read the entry at the address's block offset, follow `next`.
    Reading moves the files' cursors and nothing else. `data` holds the
    bytes of the files, by filename, as Contents gives them.
  */
  method WalkChain(bucket: CacheAddress, files: map<string, DataBlockFile>, ghost data: map<string, seq<byte>>)
      returns (entries: seq<CacheEntry>, stop: ChainStop)
    requires data.Keys == files.Keys && forall k :: k in files ==> files[k].contents == data[k]
    modifies files.Values`position
    ensures Walk(entries, stop) == Chain(bucket, data, 0, ReadCacheEntryAt)
    ensures |entries| <= MAXIMUM_CHAIN_LENGTH
  {
    ghost var whole := Chain(bucket, data, 0, ReadCacheEntryAt);
    var cacheAddress := bucket;
    var cacheAddressChainLength := 0;
    entries := [];
    AfterNothing([], whole.stop);
    assert whole == After(entries, Chain(cacheAddress, data, cacheAddressChainLength, ReadCacheEntryAt));
    while cacheAddress.value != 0
      invariant cacheAddressChainLength <= MAXIMUM_CHAIN_LENGTH && |entries| == cacheAddressChainLength
      invariant whole == After(entries, Chain(cacheAddress, data, cacheAddressChainLength, ReadCacheEntryAt))
      decreases MAXIMUM_CHAIN_LENGTH - cacheAddressChainLength
    {
      if cacheAddressChainLength >= MAXIMUM_CHAIN_LENGTH {
        stop := ChainTooLong;
        ChainHalts(cacheAddress, data, cacheAddressChainLength, ReadCacheEntryAt);
        AfterNothing(entries, stop);
        return;
      }
      if cacheAddress.filename.None? || cacheAddress.filename.value !in files {
        stop := MissingDataFile;
        ChainHalts(cacheAddress, data, cacheAddressChainLength, ReadCacheEntryAt);
        AfterNothing(entries, stop);
        return;
      }
      var dataFile := files[cacheAddress.filename.value];
      assert dataFile.contents == old(dataFile.contents) == data[cacheAddress.filename.value];
      if cacheAddress.blockOffset.None? {
        stop := NoBlockOffset;
        ChainHalts(cacheAddress, data, cacheAddressChainLength, ReadCacheEntryAt);
        AfterNothing(entries, stop);
        return;
      }
      var cacheEntry := dataFile.ReadCacheEntry(cacheAddress.blockOffset.value);
      if cacheEntry.Err? {
        stop := ReadFailed(cacheEntry.error);
        ChainHalts(cacheAddress, data, cacheAddressChainLength, ReadCacheEntryAt);
        AfterNothing(entries, stop);
        return;
      }
      ChainStep(cacheAddress, data, cacheAddressChainLength, ReadCacheEntryAt, cacheEntry.value);
      AfterOne(entries, cacheEntry.value, Chain(cacheEntry.value.next, data, cacheAddressChainLength + 1, ReadCacheEntryAt));
      entries := entries + [cacheEntry.value];
      cacheAddress := cacheEntry.value.next;
      cacheAddressChainLength := cacheAddressChainLength + 1;
    }
    stop := EndOfChain;
    ChainHalts(cacheAddress, data, cacheAddressChainLength, ReadCacheEntryAt);
    AfterNothing(entries, stop);
  }

  /**
    A stop at which the source raises instead of leaving the chain:
    `seek(None)` for an address with no block offset, and the `IOError` of a
    record that is too short. Nothing in the bucket loop catches either, so
    the walk over the remaining buckets ends there too.
  */
  predicate Raises(stop: ChainStop)
  {
    stop.NoBlockOffset? || stop.ReadFailed?
  }

  /** What the walk over all buckets reads, and the stop that ended it early, if one did. */
  datatype Outcome = Outcome(entries: seq<CacheEntry>, raised: Option<ChainStop>)

  /**
    All chains, one bucket after the other in the order given, until a chain
    stops where the source raises; the entries read before that point, in
    that chain too, are kept.
  */
  function AllChains(buckets: seq<CacheAddress>, files: map<string, seq<byte>>, read: EntryReader): (r: Outcome)
    ensures r.raised.Some? ==> Raises(r.raised.value)
  {
    if buckets == [] then Outcome([], None)
    else
      var done := AllChains(buckets[..|buckets| - 1], files, read);
      if done.raised.Some? then done
      else
        var w := Chain(buckets[|buckets| - 1], files, 0, read);
        Outcome(done.entries + w.entries, if Raises(w.stop) then Some(w.stop) else None)
  }

  /** However the chains end, the whole walk reads at most 64 entries per bucket. */
  lemma {:induction false} AllChainsBounded(buckets: seq<CacheAddress>, files: map<string, seq<byte>>, read: EntryReader)
    ensures |AllChains(buckets, files, read).entries| <= MAXIMUM_CHAIN_LENGTH * |buckets|
  {
    if buckets != [] {
      AllChainsBounded(buckets[..|buckets| - 1], files, read);
      ChainBounded(buckets[|buckets| - 1], files, 0, read);
    }
  }

  /** The walk runs to the last bucket exactly when no chain raises. */
  lemma {:induction false} AllChainsNoRaise(buckets: seq<CacheAddress>, files: map<string, seq<byte>>, read: EntryReader)
    ensures AllChains(buckets, files, read).raised.None? <==> NoneRaise(buckets, files, read)
  {
    if buckets != [] {
      var n := |buckets| - 1;
      var front := buckets[..n];
      AllChainsNoRaise(front, files, read);
      NoneRaiseSnoc(front, buckets[n], files, read);
      assert front + [buckets[n]] == buckets;
    }
  }

  /** No bucket's chain stops where the source raises. */
  ghost predicate NoneRaise(buckets: seq<CacheAddress>, files: map<string, seq<byte>>, read: EntryReader)
  {
    forall i :: 0 <= i < |buckets| ==> !Raises(Chain(buckets[i], files, 0, read).stop)
  }

  lemma NoneRaiseSnoc(front: seq<CacheAddress>, last: CacheAddress, files: map<string, seq<byte>>, read: EntryReader)
    ensures NoneRaise(front + [last], files, read) <==>
      NoneRaise(front, files, read) && !Raises(Chain(last, files, 0, read).stop)
  {
    var buckets := front + [last];
    if NoneRaise(buckets, files, read) {
      forall i | 0 <= i < |front|
        ensures !Raises(Chain(front[i], files, 0, read).stop)
      {
        assert buckets[i] == front[i];
      }
      assert buckets[|front|] == last;
    }
  }

  /**
    A walk that ends early ends in the first chain that raises, with that
    chain's stop, after every chain before it and the entries that chain
    read before raising.
  */
  lemma {:induction false} AllChainsFirstRaise(buckets: seq<CacheAddress>, files: map<string, seq<byte>>, read: EntryReader)
    requires AllChains(buckets, files, read).raised.Some?
    ensures exists i :: 0 <= i < |buckets| && FirstRaise(buckets, files, read, i)
  {
    var n := |buckets| - 1;
    var front := buckets[..n];
    assert buckets[..n] == front;
    if AllChains(front, files, read).raised.Some? {
      AllChainsFirstRaise(front, files, read);
      var i :| 0 <= i < n && FirstRaise(front, files, read, i);
      assert front[..i] == buckets[..i];
      assert forall j :: 0 <= j <= i ==> front[j] == buckets[j];
      RaisedStays(buckets, n, files, read);
      assert FirstRaise(buckets, files, read, i);
    } else {
      AllChainsNoRaise(front, files, read);
      NoneRaiseSnoc(front, buckets[n], files, read);
      assert front + [buckets[n]] == buckets;
      assert FirstRaise(buckets, files, read, n);
    }
  }

  /** Bucket i is the first whose chain raises, and the walk ends inside it. */
  ghost predicate FirstRaise(buckets: seq<CacheAddress>, files: map<string, seq<byte>>, read: EntryReader, i: nat)
    requires i < |buckets|
  {
    var w := Chain(buckets[i], files, 0, read);
    && Raises(w.stop)
    && (forall j :: 0 <= j < i ==> !Raises(Chain(buckets[j], files, 0, read).stop))
    && AllChains(buckets[..i], files, read).raised.None?
    && AllChains(buckets, files, read) == Outcome(AllChains(buckets[..i], files, read).entries + w.entries, Some(w.stop))
  }

  /** One more bucket, when no chain has raised yet: its chain is appended, and it may raise. */
  lemma AllChainsStep(buckets: seq<CacheAddress>, b: nat, files: map<string, seq<byte>>, read: EntryReader)
    requires b < |buckets| && AllChains(buckets[..b], files, read).raised.None?
    ensures var w := Chain(buckets[b], files, 0, read);
      AllChains(buckets[..b + 1], files, read)
        == Outcome(AllChains(buckets[..b], files, read).entries + w.entries, if Raises(w.stop) then Some(w.stop) else None)
  {
    assert buckets[..b + 1][..b] == buckets[..b];
  }

  /** Once a chain has raised, the buckets after it change nothing. */
  lemma {:induction false} RaisedStays(buckets: seq<CacheAddress>, b: nat, files: map<string, seq<byte>>, read: EntryReader)
    requires b <= |buckets| && AllChains(buckets[..b], files, read).raised.Some?
    ensures AllChains(buckets, files, read) == AllChains(buckets[..b], files, read)
    decreases |buckets| - b
  {
    if b < |buckets| {
      var front := buckets[..|buckets| - 1];
      assert front[..b] == buckets[..b];
      RaisedStays(front, b, files, read);
    } else {
      assert buckets[..b] == buckets;
    }
  }

  /**
    `order` lists every bucket index of `table` exactly once: one of the
    orders in which `index_table.values()` may enumerate the table.
  */
  predicate ListsKeysOnce(order: seq<nat>, table: map<nat, CacheAddress>)
  {
    && (forall i :: 0 <= i < |order| ==> order[i] in table)
    && (forall k :: k in table ==> k in order)
    && (forall i, j :: 0 <= i < j < |order| ==> order[i] != order[j])
  }

  /** The table's addresses in the order given. */
  function Buckets(table: map<nat, CacheAddress>, order: seq<nat>): seq<CacheAddress>
    requires forall i :: 0 <= i < |order| ==> order[i] in table
  {
    seq(|order|, i requires 0 <= i < |order| => table[order[i]])
  }

  function Elements(order: seq<nat>): set<nat>
  {
    set k | k in order
  }

  /** Distinct elements: as many as the sequence is long. */
  lemma {:induction false} DistinctCount(order: seq<nat>)
    requires forall i, j :: 0 <= i < j < |order| ==> order[i] != order[j]
    ensures |Elements(order)| == |order|
  {
    if order != [] {
      var n := |order| - 1;
      var front := order[..n];
      DistinctCount(front);
      assert order[n] !in Elements(front);
      assert Elements(order) == Elements(front) + {order[n]};
    }
  }

  /**
    Walking the table in such an order visits as many buckets as the table
    has, each bucket index once, and every bucket's address at its position.
  */
  lemma BucketsCoverTable(table: map<nat, CacheAddress>, order: seq<nat>)
    requires ListsKeysOnce(order, table)
    ensures |Buckets(table, order)| == |table|
    ensures forall k :: k in table ==> exists i :: 0 <= i < |order| && order[i] == k && Buckets(table, order)[i] == table[k]
  {
    DistinctCount(order);
    assert Elements(order) == table.Keys;
  }

  /**
    The bucket loop: every bucket of the opened index file's table, in the
    order given, walked chain by chain, until a chain stops where the
    source raises. Reading moves the block files' cursors and nothing else.
  */
  method WalkAllChains(index: IndexFiles.IndexFile, order: seq<nat>, files: map<string, DataBlockFile>)
      returns (entries: seq<CacheEntry>, raised: Option<ChainStop>)
    requires ListsKeysOnce(order, index.indexTable)
    modifies files.Values`position
    ensures Outcome(entries, raised) == AllChains(Buckets(index.indexTable, order), Contents(files), ReadCacheEntryAt)
  {
    ghost var data := Contents(files);
    ghost var buckets := Buckets(index.indexTable, order);
    entries := [];
    raised := None;
    var b := 0;
    ContentsKeys(files);
    while b < |order|
      invariant b <= |order| && Contents(files) == data
      invariant AllChains(buckets[..b], data, ReadCacheEntryAt) == Outcome(entries, None)
    {
      forall k | k in files
        ensures files[k].contents == data[k]
      {
        ContentsAt(files, k);
      }
      var chain, stop := WalkChain(index.indexTable[order[b]], files, data);
      AllChainsStep(buckets, b, data, ReadCacheEntryAt);
      entries := entries + chain;
      b := b + 1;
      if Raises(stop) {
        raised := Some(stop);
        RaisedStays(buckets, b, data, ReadCacheEntryAt);
        return;
      }
    }
    assert buckets[..b] == buckets;
  }
}
