/**
 The sets of executor/memcache.h: direct references to memory, replaced in recency order.
 */
module MemCache {
  import opened Common
  import opened UsageList

  /** What an access asks for: the address of its first page, of its second page, and its length. */
  datatype Key = Key(phys1: nat, phys2: nat, len: nat)

  /** A cache entry; pointer 0 means that the entry is invalid. */
  datatype Entry = Entry(key: Key, ptr: nat)

  predicate IsValid(e: Entry, k: Key) {
    e.ptr != 0 && e.key == k
  }

  /** The second page of an access that stays in one page. */
  const NO_SECOND_PAGE: nat := 0xffff_ffff_ffff_f000

  /** The answer of the memory region bus for a page. */
  datatype Region = Region(startPage: nat, count: nat, ptr: nat)

  type Bus = nat -> Option<Region>

  /** A region contains the page it was asked for. */
  ghost predicate WellFormed(bus: Bus) {
    forall page :: bus(page).Some? ==> bus(page).value.startPage <= page
  }

  /** A fresh lookup: the pointer for an access that lies in one memory region. */
  function Direct(bus: Bus, k: Key): (ptr: Option<nat>)
    requires WellFormed(bus)
    ensures ptr.Some? ==> ptr.value != 0
  {
    var page := k.phys1 / 4096;
    if k.phys2 != NO_SECOND_PAGE && page + 1 != k.phys2 / 4096 then None
    else match bus(page)
      case None => None
      case Some(r) =>
        if r.ptr != 0 && k.phys1 + k.len <= (r.startPage + r.count) * 4096
        then Some(r.ptr + (k.phys1 - r.startPage * 4096))
        else None
  }

  /** Region r holds byte j of an access to the guest address a at byte j behind p. */
  predicate Holds(r: Region, a: nat, p: nat, j: nat) {
    && r.startPage * 4096 <= a + j < (r.startPage + r.count) * 4096
    && p + j - r.ptr == a + j - r.startPage * 4096
  }

  /** The access stays in one page, or goes on into the next page. */
  predicate Contiguous(k: Key) { k.phys2 == 0xffff_ffff_ffff_f000 || k.phys2 / 4096 == k.phys1 / 4096 + 1 }

  /** One region has memory for the whole access. */
  predicate InRegion(r: Region, k: Key) {
    r.ptr != 0 && k.phys1 + k.len <= (r.startPage + r.count) * 4096
  }

  /**
   The answer to an access: a reference iff the access is contiguous and the region of its first page has memory
   for all of it; and every byte of the access is then at its place behind the reference.
   */
  ghost predicate IsReference(bus: Bus, k: Key, ptr: Option<nat>) {
    var region := bus(k.phys1 / 4096);
    && (ptr.Some? <==> Contiguous(k) && region.Some? && InRegion(region.value, k))
    && (ptr.Some? ==> forall j: nat :: j < k.len ==> Holds(region.value, k.phys1, ptr.value, j))
  }

  lemma DirectIsReference(bus: Bus, k: Key)
    requires WellFormed(bus)
    ensures IsReference(bus, k, Direct(bus, k))
  {
    var page := k.phys1 / 4096;
    if Direct(bus, k).Some? {
      var r, p := bus(page).value, Direct(bus, k).value;
      PageBegin(r.startPage, k.phys1);
      forall j: nat | j < k.len
        ensures Holds(r, k.phys1, p, j)
      {
      }
    }
  }

  lemma PageBegin(startPage: nat, a: nat)
    requires startPage <= a / 4096
    ensures startPage * 4096 <= a
  {
  }

  /** References into one region lie in it, as far apart as the accesses; its first byte is at its pointer. */
  lemma ReferencesKeepDistance(bus: Bus, a: Key, b: Key)
    requires WellFormed(bus) && Direct(bus, a).Some? && Direct(bus, b).Some?
    requires bus(a.phys1 / 4096) == bus(b.phys1 / 4096)
    ensures Direct(bus, b).value - Direct(bus, a).value == b.phys1 - a.phys1
    ensures var r := bus(a.phys1 / 4096).value;
            && (a.phys1 == r.startPage * 4096 ==> Direct(bus, a).value == r.ptr)
            && r.ptr <= Direct(bus, a).value && Direct(bus, a).value + a.len <= r.ptr + r.count * 4096
  {
    PageBegin(bus(a.phys1 / 4096).value.startPage, a.phys1);
  }

  ghost predicate Slots(order: seq<nat>, n: nat) {
    forall j :: 0 <= j < |order| ==> order[j] < n
  }

  /** The place where the search stops: a hit, or the last place, which is not looked at. */
  ghost function Search(entries: seq<Entry>, order: seq<nat>, k: Key, i: nat): (place: nat)
    requires i < |order| && Slots(order, |entries|)
    ensures i <= place < |order|
    ensures forall j :: i <= j < place ==> !IsValid(entries[order[j]], k)
    ensures place < |order| - 1 ==> IsValid(entries[order[place]], k)
    decreases |order| - i
  {
    if i == |order| - 1 || IsValid(entries[order[i]], k) then i else Search(entries, order, k, i + 1)
  }

  /** At most one valid entry for each key. */
  ghost predicate UniqueKeys(entries: seq<Entry>) {
    forall i, j :: 0 <= i < j < |entries| && entries[i].ptr != 0 && entries[j].ptr != 0
                   ==> entries[i].key != entries[j].key
  }

  /** Every valid entry holds the pointer of a fresh lookup. */
  ghost predicate Coherent(entries: seq<Entry>, bus: Bus)
    requires WellFormed(bus)
  {
    forall i :: 0 <= i < |entries| && entries[i].ptr != 0 ==> Direct(bus, entries[i].key) == Some(entries[i].ptr)
  }

  /** Filling the oldest slot after a miss keeps the keys unique, although that slot was not searched. */
  lemma FillKeepsUnique(entries: seq<Entry>, older: seq<int>, newest: int, order: seq<nat>, e: Entry)
    requires UniqueKeys(entries) && Linked(older, newest, order) && |older| == |entries|
    requires Search(entries, order, e.key, 0) == |order| - 1
    ensures UniqueKeys(entries[order[|order| - 1] := e])
  {
    var last := order[|order| - 1];
    forall i | 0 <= i < |entries| && i != last
      ensures !IsValid(entries[i], e.key)
    {
      SlotHasPlace(older, newest, order, i);
    }
    UpdateKeepsUnique(entries, last, e);
  }

  lemma UpdateKeepsUnique(entries: seq<Entry>, slot: nat, e: Entry)
    requires UniqueKeys(entries) && slot < |entries|
    requires forall i :: 0 <= i < |entries| && i != slot ==> !IsValid(entries[i], e.key)
    ensures UniqueKeys(entries[slot := e])
  {
  }

  lemma FillKeepsCoherent(entries: seq<Entry>, bus: Bus, slot: nat, k: Key)
    requires WellFormed(bus) && Coherent(entries, bus) && slot < |entries| && Direct(bus, k).Some?
    ensures Coherent(entries[slot := Entry(k, Direct(bus, k).value)], bus)
  {
  }

  class CacheSet {
    const entries: array<Entry>
    const older: array<int>
    var newest: int
    ghost var order: seq<nat>

    ghost predicate Valid()
      reads this, entries, older
    {
      && entries.Length == older.Length >= 2
      && Linked(older[..], newest, order)
      && UniqueKeys(entries[..])
    }

    /** The constructor's loop links the slots in descending order. */
    constructor (assoc: nat)
      requires assoc >= 2
      ensures Valid() && fresh(entries) && fresh(older) && entries.Length == assoc
      ensures forall i :: 0 <= i < assoc ==> entries[i].ptr == 0
    {
      entries := new Entry[assoc](_ => Entry(Key(0, 0, 0), 0));
      older := new int[assoc];
      newest := -1;
      order := [];
      new;
      var i := 0;
      while i < assoc
        invariant 0 <= i <= assoc && |order| == i && newest == i - 1
        invariant forall j :: 0 <= j < i ==> order[j] == i - 1 - j && older[j] == j - 1
        invariant forall j :: 0 <= j < assoc ==> entries[j].ptr == 0
      {
        older[i] := newest;
        newest := i;
        order := [i] + order;
        i := i + 1;
      }
      forall j | 0 <= j < |order|
        ensures older[..][order[j]] == At(order, j + 1)
      {
      }
    }

    /** The search loop: the slot where it stops and the slot before it in the list, -1 if there is none. */
    method SearchEntry(k: Key) returns (entry: nat, before: int, ghost place: nat)
      requires Valid()
      ensures place == Search(entries[..], order, k, 0) && entry == order[place] && entry < older.Length
      ensures before == if place == 0 then -1 else order[place - 1]
      ensures older[entry] == -1 <==> place == |order| - 1
    {
      before, entry, place := -1, newest, 0;
      LastHasNoOlder(older[..], newest, order, 0);
      while older[entry] != -1
        invariant place < |order| && entry == order[place]
        invariant before == if place == 0 then -1 else order[place - 1]
        invariant Search(entries[..], order, k, 0) == Search(entries[..], order, k, place)
        invariant older[entry] == -1 <==> place == |order| - 1
        decreases |order| - place
      {
        if IsValid(entries[entry], k) {
          return;
        }
        LastHasNoOlder(older[..], newest, order, place);
        LastHasNoOlder(older[..], newest, order, place + 1);
        before, entry, place := entry, older[entry], place + 1;
      }
    }

    /** Move the slot at a place to the front of the usage list. */
    method UseSlot(entry: nat, before: int, ghost place: nat)
      requires Valid() && place < |order| && entry == order[place]
      requires before == if place == 0 then -1 else order[place - 1]
      modifies this, older
      ensures Valid() && order == Front(old(order), place) && newest == entry
      ensures multiset(order) == multiset(old(order))
    {
      FrontIsPermutation(order, place);
      if before != -1 {
        ghost var links, head := older[..], newest;
        MoveToFront(links, head, order, place);
        older[before] := older[entry];
        older[entry] := newest;
        assert older[..] == links[before := links[entry]][entry := head];
        newest := entry;
      } else {
        FrontOfFirst(order);
      }
      order := Front(order, place);
    }

    /** Overwrite the oldest slot after a miss. */
    method Fill(entry: nat, k: Key, ptr: nat)
      requires Valid() && entry == order[|order| - 1] && Search(entries[..], order, k, 0) == |order| - 1 && ptr != 0
      modifies entries
      ensures Valid() && entries[..] == old(entries[..])[entry := Entry(k, ptr)]
    {
      ghost var contents := entries[..];
      FillKeepsUnique(contents, older[..], newest, order, Entry(k, ptr));
      entries[entry] := Entry(k, ptr);
      assert entries[..] == contents[entry := Entry(k, ptr)];
    }

    /**
     The first half of `get`: a reference from the set, or a new one if the bus has memory there.
     Whatever was asked before, the answer is the one of a fresh lookup. The slot used becomes
     the newest one and all others keep their order.
     */
    method Get(k: Key, bus: Bus) returns (ptr: Option<nat>)
      requires WellFormed(bus) && Valid() && Coherent(entries[..], bus)
      modifies this, entries, older
      ensures Valid() && Coherent(entries[..], bus)
      ensures ptr == Direct(bus, k) && IsReference(bus, k, ptr)
      ensures order == if ptr.None? then old(order) else Front(old(order), old(Search(entries[..], order, k, 0)))
      ensures ptr.Some? ==> entries[newest] == Entry(k, ptr.value)
    {
      DirectIsReference(bus, k);
      var entry, before, place := SearchEntry(k);
      if older[entry] != -1 {
        ptr := Some(entries[entry].ptr);
        assert Direct(bus, entries[..][entry].key) == Some(entries[..][entry].ptr);
        UseSlot(entry, before, place);
      } else {
        ptr := Direct(bus, k);
        if ptr.Some? {
          FillKeepsCoherent(entries[..], bus, entry, k);
          Fill(entry, k, ptr.value);
          UseSlot(entry, before, place);
        }
      }
    }
  }
}
