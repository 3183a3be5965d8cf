/** The chains of the file cache's hash table (webserver/server_thread.c): a header in the table, followed
    by linked entries. */
module HashChains {
  import opened LruLists

  /** The djb2 hash of a file name, in 64-bit unsigned arithmetic. */
  function HashFrom(name: string, h: nat): nat {
    if name == "" then h else HashFrom(name[1..], (h * 33 + name[0] as int) % 0x1_0000_0000_0000_0000)
  }

  function Hash(name: string): nat { HashFrom(name, 5381) }

  class Chain {
    const header: CacheEntry
    ghost var entries: seq<CacheEntry>

    ghost function Links(): seq<CacheEntry>
      reads this
    {
      [header] + entries
    }

    ghost function Cells(): (cells: set<CacheEntry>)
      reads this
      ensures header in cells && forall e :: e in entries ==> e in cells
    {
      {header} + set e | e in entries
    }

    /** The links run from the header through the entries in order. */
    ghost predicate Valid()
      reads this, header`next, entries`next
    {
      && header !in entries
      && (forall i, j :: 0 <= i < j < |entries| ==> entries[i] != entries[j])
      && header.next == (if entries == [] then null else entries[0])
      && (forall i :: 0 <= i < |entries| - 1 ==> entries[i].next == entries[i + 1])
      && (entries != [] ==> entries[|entries| - 1].next == null)
    }

    constructor ()
      ensures Valid() && entries == [] && fresh(header)
    {
      header := new CacheEntry(0, "", 0);
      entries := [];
      new;
    }

    lemma NoRepeats()
      requires Valid()
      ensures forall i, j :: 0 <= i < j < |entries| ==> entries[i] != entries[j]
    {}

    lemma LinkIs(i: nat)
      requires Valid() && i < |Links()|
      ensures Links()[i].next == if i < |entries| then entries[i] else null
    {}

    /** The walk for a name, in `cache_lookup` and `cache_exists`. */
    method Find(name: string) returns (found: CacheEntry?, ghost i: nat)
      requires Valid()
      ensures i <= |entries| && (found == null <==> i == |entries|)
      ensures found != null ==> entries[i] == found && found.name == name
      ensures forall k :: 0 <= k < i ==> entries[k].name != name
    {
      var entry := header;
      i := 0;
      LinkIs(0);
      while entry.next != null
        invariant i <= |entries| && entry == Links()[i]
        invariant entry.next == if i < |entries| then entries[i] else null
        invariant forall k :: 0 <= k < i ==> entries[k].name != name
        decreases |entries| - i
      {
        entry := entry.next;
        if entry.name == name {
          return entry, i;
        }
        i := i + 1;
        LinkIs(i);
      }
      found := null;
    }

    /** `remove_from_cache` on the chain: unlinks the entry and tells whether it was there. */
    method Remove(target: CacheEntry) returns (hit: bool)
      requires Valid()
      modifies this, header`next, entries`next
      ensures Valid() && (hit <==> target in old(entries))
      ensures !hit ==> entries == old(entries)
      ensures forall i :: 0 <= i < |old(entries)| && old(entries)[i] == target ==> entries == Dropped(old(entries), i)
    {
      var entry, prev: CacheEntry := header, header;
      ghost var i := 0;
      hit := false;
      LinkIs(0);
      while entry.next != null && !hit
        invariant Valid() && entries == old(entries)
        invariant i <= |entries| && entry == Links()[i]
        invariant entry.next == if i < |entries| then entries[i] else null
        invariant hit ==> i > 0 && entry == target && prev == Links()[i - 1]
        invariant target !in entries[..if hit then i - 1 else i]
        decreases |entries| - i
      {
        prev := entry;
        entry := entry.next;
        i := i + 1;
        LinkIs(i);
        hit := entry == target;
      }
      if hit {
        Unlink(target, prev, i - 1);
      }
    }

    method Unlink(target: CacheEntry, prev: CacheEntry, ghost i: nat)
      requires Valid() && i < |entries| && entries[i] == target && prev == Links()[i]
      modifies this, header`next, entries`next
      ensures Valid() && entries == Dropped(old(entries), i)
    {
      LinkIs(i);
      prev.next := target.next;
      target.next := null;
      entries := Dropped(entries, i);
    }

    /** The end of `cache_insert`: the new entry behind the last link. */
    method Append(added: CacheEntry)
      requires Valid() && added !in entries && added != header && added.next == null
      modifies this, header`next, entries`next
      ensures Valid() && entries == old(entries) + [added]
    {
      var entry := header;
      ghost var i := 0;
      LinkIs(0);
      while entry.next != null
        invariant Valid() && entries == old(entries)
        invariant i <= |entries| && entry == Links()[i]
        invariant entry.next == if i < |entries| then entries[i] else null
        decreases |entries| - i
      {
        entry := entry.next;
        i := i + 1;
        LinkIs(i);
      }
      entry.next := added;
      entries := entries + [added];
    }
  }
}
