/**
 The write-back buffers in place: the usage list and the dirty list are linked through the
 buffers, with -1 for the end of a list.
 */
module WriteBuffers {
  import opened Common
  import opened UsageList
  import opened MemCache
  import opened WriteBack

  /** The links of the dirty list, from the oldest to the newest write. */
  ghost predicate DirtyLinked(newer: seq<int>, oldest: int, newest: int, dirty: seq<nat>) {
    && Slots(dirty, |newer|) && Distinct(dirty)
    && oldest == At(dirty, 0)
    && newest == (if dirty == [] then -1 else dirty[|dirty| - 1])
    && (forall i :: 0 <= i < |dirty| ==> newer[dirty[i]] == At(dirty, i + 1))
    && (forall i: nat :: i < |newer| && i !in dirty ==> newer[i] == -1)
  }

  /** Unlinking the oldest write. */
  lemma UnlinkOldest(newer: seq<int>, oldest: int, newest: int, dirty: seq<nat>)
    requires DirtyLinked(newer, oldest, newest, dirty) && dirty != []
    ensures newest == oldest ==> newer[oldest] == -1
    ensures DirtyLinked(newer[oldest := -1], newer[oldest], if newest == oldest then -1 else newest, dirty[1..])
  {
    assert newer[dirty[0]] == At(dirty, 1);
    var rest := dirty[1..];
    forall i | 0 <= i < |rest|
      ensures newer[oldest := -1][rest[i]] == At(rest, i + 1)
    {
      assert newer[dirty[i + 1]] == At(dirty, i + 2);
    }
    forall i: nat | i < |newer| && i !in rest
      ensures newer[oldest := -1][i] == -1
    {
      if i != oldest {
        assert i !in dirty;
      }
    }
  }

  /** Linking a clean buffer as the newest write. */
  lemma LinkNewest(newer: seq<int>, oldest: int, newest: int, dirty: seq<nat>, v: nat)
    requires DirtyLinked(newer, oldest, newest, dirty) && v < |newer| && v !in dirty
    ensures newest != -1 ==> DirtyLinked(newer[newest := v], oldest, v, dirty + [v])
    ensures newest == -1 ==> DirtyLinked(newer, v, v, dirty + [v])
  {
    var more := dirty + [v];
    var linked := if newest == -1 then newer else newer[newest := v];
    forall i | 0 <= i < |more|
      ensures linked[more[i]] == At(more, i + 1)
    {
      if i < |dirty| {
        assert newer[dirty[i]] == At(dirty, i + 1);
      }
    }
    forall i: nat | i < |newer| && i !in more
      ensures linked[i] == -1
    {
      assert i !in dirty;
    }
  }

  lemma MessagesOfOneMore(issued: seq<Access>, a: Access)
    ensures Messages(issued + [a]) == Messages(issued) + Words(a)
  {
    assert (issued + [a])[..|issued|] == issued;
  }

  class Buffers {
    const usage: CacheSet
    const newer: array<int>
    var oldestWrite: int
    var newestWrite: int
    var bus: seq<Message>
    ghost var dirty: seq<nat>
    ghost var issued: seq<Access>

    ghost predicate Valid()
      reads this, usage, usage.entries, usage.older, newer
    {
      && usage.Valid() && newer != usage.older && newer.Length == usage.older.Length
      && DirtyLinked(newer[..], oldestWrite, newestWrite, dirty)
      && bus == Messages(issued)
    }

    ghost function Abs(): State
      reads this, usage, usage.entries
    {
      State(usage.entries[..], usage.order, dirty, issued)
    }

    /** All buffers are empty and linked, nothing is pending. */
    constructor (count: nat)
      requires count >= 2
      ensures Valid() && Fresh(Abs()) && |Abs().entries| == count
      ensures fresh(usage) && fresh(usage.entries) && fresh(usage.older) && fresh(newer)
    {
      var set_ := new CacheSet(count);
      usage := set_;
      newer := new int[count](_ => -1);
      oldestWrite, newestWrite := -1, -1;
      bus, dirty, issued := [], [], [];
      new;
      AbsWellFormed();
    }

    lemma AbsWellFormed()
      requires Valid()
      ensures WellFormedState(Abs())
    {
      forall i: nat | i < usage.entries.Length
        ensures i in usage.order
      {
        SlotHasPlace(usage.older[..], usage.newest, usage.order, i);
      }
    }

    /** One message for each double word of the buffer. */
    method BufferIo(read: bool, index: nat)
      requires Valid() && index < usage.entries.Length
      modifies `bus, `issued
      ensures Valid() && issued == old(issued) + [Access(read, usage.entries[index].key)]
    {
      var key := usage.entries[index].key;
      var words := SendWords(read, key);
      MessagesOfOneMore(issued, Access(read, key));
      bus := bus + words;
      issued := issued + [Access(read, key)];
    }

    /** The loop of `buffer_io`. */
    static method SendWords(read: bool, key: Key) returns (sent: seq<Message>)
      ensures sent == Words(Access(read, key))
    {
      sent := [];
      var address, i := key.phys1, 0;
      ghost var count := (key.len + 3) / 4;
      assert key.len <= 4 * count < key.len + 4;
      ghost var all := Addresses(key.phys1, key.phys2, count);
      ghost var done: nat := 0;
      while i < key.len
        invariant i == 4 * done && done <= count
        invariant all[done..] == Addresses(address, key.phys2, count - done)
        invariant |sent| == done && forall j :: 0 <= j < done ==> sent[j] == Message(read, all[j])
      {
        assert all[done..][0] == address && all[done..][1..] == all[done + 1..];
        sent := sent + [Message(read, address)];
        address := NextAddress(address, key.phys2);
        i, done := i + 4, done + 1;
      }
    }

    /** Issue the oldest write and take it off the dirty list. */
    method InvalidateDirty()
      requires Valid() && oldestWrite != -1 && WellFormedState(Abs())
      modifies this, newer
      ensures Valid() && Abs() == Flush(old(Abs()))
    {
      var i := oldestWrite;
      UnlinkOldest(newer[..], oldestWrite, newestWrite, dirty);
      ghost var links := newer[..];
      oldestWrite := newer[i];
      if newestWrite == i {
        newestWrite := -1;
      }
      newer[i] := -1;
      dirty := dirty[1..];
      assert newer[..] == links[i := -1];
      BufferIo(false, i);
    }

    /** Append a clean buffer to the linked write list. */
    static method LinkWrite(newer: array<int>, oldest: int, newest: int, ghost dirty: seq<nat>, entry: nat)
      returns (first: int)
      requires DirtyLinked(newer[..], oldest, newest, dirty) && entry < newer.Length && entry !in dirty
      modifies newer
      ensures DirtyLinked(newer[..], first, entry, dirty + [entry])
    {
      LinkNewest(newer[..], oldest, newest, dirty, entry);
      if newest != -1 {
        ghost var links := newer[..];
        newer[newest] := entry;
        assert newer[..] == links[newest := entry];
        first := oldest;
      } else {
        first := entry;
      }
    }

    /** Put a clean buffer on the write list. */
    method QueueWrite(entry: nat)
      requires Valid() && entry < newer.Length && entry !in dirty
      modifies `oldestWrite, `newestWrite, `dirty, newer
      ensures Valid() && dirty == old(dirty) + [entry]
    {
      oldestWrite := LinkWrite(newer, oldestWrite, newestWrite, dirty, entry);
      newestWrite := entry;
      dirty := dirty + [entry];
      assert usage.Valid();
    }

    /** Issue the write of the victim; a victim that is not the oldest write has none. */
    method CleanVictim(entry: nat)
      requires Valid() && WellFormedState(Abs()) && !LosesWrite(usage.order, dirty) && entry == Victim(Abs())
      modifies this, newer
      ensures Valid() && Abs() == Cleaned(old(Abs())) && entry !in dirty
    {
      VictimCleaned(Abs());
      if entry == oldestWrite {
        InvalidateDirty();
      }
    }

    /** Give the oldest buffer to a new access and read it if asked to. */
    method Occupy(entry: nat, q: Request)
      requires Valid() && entry == usage.order[|usage.order| - 1]
      requires Search(usage.entries[..], usage.order, q.key, 0) == |usage.order| - 1
      modifies `bus, `issued, usage.entries
      ensures Valid() && Abs() == Occupied(old(Abs()), entry, q)
    {
      usage.Fill(entry, q.key, 1);
      if q.read {
        BufferIo(true, entry);
      }
    }

    /** The part of `get` that replaces a buffer. */
    method Replace(entry: nat, before: int, ghost place: nat, q: Request)
      requires Valid() && WellFormedState(Abs()) && !LosesWrite(usage.order, dirty)
      requires place == |usage.order| - 1 && Search(usage.entries[..], usage.order, q.key, 0) == place
      requires entry == usage.order[place] && before == usage.order[place - 1]
      modifies this, newer, usage, usage.entries, usage.older
      ensures Valid() && Abs() == Taken(old(Abs()), q)
    {
      ghost var s := Abs();
      Prepare(entry, q.write);
      Occupy(entry, q);
      Reuse(entry, before, place);
      TakenParts(s, q, Abs());
    }

    /** The write list gets ready for a new access in a buffer. */
    method Prepare(entry: nat, write: bool)
      requires Valid() && WellFormedState(Abs()) && !LosesWrite(usage.order, dirty) && entry == Victim(Abs())
      modifies this, newer
      ensures Valid() && Abs() == Prepared(old(Abs()), entry, write)
    {
      CleanVictim(entry);
      if write {
        QueueWrite(entry);
      }
    }

    method PutFirst(entry: nat, before: int, ghost place: nat)
      requires Valid() && place < |usage.order| && entry == usage.order[place]
      requires before == if place == 0 then -1 else usage.order[place - 1]
      modifies usage, usage.older
      ensures Valid() && usage.order == Front(old(usage.order), place) && usage.newest == entry
    {
      usage.UseSlot(entry, before, place);
    }

    /**
     The second half of `get`, under the assertion in its middle: the buffer that a miss takes
     holds no pending write, or the oldest one.
     */
    method Get(q: Request) returns (entry: nat)
      requires Valid() && WellFormedState(Abs())
      requires Hits(Abs(), q.key) || !LosesWrite(usage.order, dirty)
      modifies this, newer, usage, usage.entries, usage.older
      ensures Valid() && Abs() == Served(old(Abs()), q)
      ensures entry < usage.entries.Length && IsValid(usage.entries[entry], q.key)
    {
      ghost var s := Abs();
      var found, before, place := usage.SearchEntry(q.key);
      entry := found;
      ServedParts(s, q);
      if usage.older[entry] != -1 {
        Reuse(entry, before, place);
      } else {
        Replace(entry, before, place, q);
        TakenIsValid(s, q, entry);
      }
    }

    /** The part of `get` that finds a buffer. */
    method Reuse(entry: nat, before: int, ghost place: nat)
      requires Valid() && place < |usage.order| && entry == usage.order[place]
      requires before == if place == 0 then -1 else usage.order[place - 1]
      modifies usage, usage.older
      ensures Valid() && Abs() == old(Abs()).(order := Front(old(usage.order), place))
    {
      PutFirst(entry, before, place);
    }

    /** Issue all pending writes. */
    method FlushDirty()
      requires Valid() && WellFormedState(Abs())
      modifies this, newer
      ensures Valid() && dirty == [] && Abs() == FlushAll(old(Abs()))
    {
      while oldestWrite != -1
        invariant Valid() && WellFormedState(Abs()) && usage.entries[..] == old(usage.entries[..])
        invariant FlushAll(Abs()) == FlushAll(old(Abs()))
        decreases |dirty|
      {
        FlushKeepsWellFormed(Abs());
        InvalidateDirty();
      }
    }

    /** The loop over all buffers. */
    method Empty()
      requires usage.Valid() && newer != usage.older && newer.Length == usage.older.Length && bus == Messages(issued)
      requires oldestWrite == newestWrite == -1
      modifies `dirty, newer, usage.entries
      ensures Valid() && dirty == [] && Emptied(usage.entries[..], old(usage.entries[..]))
    {
      ClearAll(usage.entries, newer);
      dirty := [];
    }

    /** The loop itself. */
    static method ClearAll(entries: array<Entry>, newer: array<int>)
      requires entries.Length == newer.Length
      modifies entries, newer
      ensures Emptied(entries[..], old(entries[..]))
      ensures forall j :: 0 <= j < newer.Length ==> newer[j] == -1
    {
      for i := 0 to newer.Length
        invariant forall j :: 0 <= j < i ==> newer[j] == -1 && entries[j] == old(entries[j]).(ptr := 0)
        invariant forall j :: i <= j < newer.Length ==> entries[j] == old(entries[j])
      {
        entries[i] := entries[i].(ptr := 0);
        newer[i] := -1;
      }
    }

    /** Write back all pending writes, or drop them, and empty all buffers. */
    method Invalidate(writeback: bool)
      requires Valid() && WellFormedState(Abs())
      modifies this, newer, usage.entries
      ensures Valid() && dirty == [] && Emptied(usage.entries[..], old(usage.entries[..]))
      ensures writeback ==> Step(old(Abs()), WriteBack.Invalidate, Abs())
      ensures !writeback ==> issued == old(issued)
    {
      if writeback {
        FlushDirty();
      } else {
        oldestWrite, newestWrite := -1, -1;
      }
      Empty();
    }
  }

  lemma ServedParts(s: State, q: Request)
    requires WellFormedState(s)
    ensures Place(s, q.key) < |s.order| - 1 ==> Served(s, q) == s.(order := Front(s.order, Place(s, q.key)))
    ensures Place(s, q.key) == |s.order| - 1 ==> Served(s, q) == Taken(s, q) && !Hits(s, q.key)
  {
  }

  lemma TakenIsValid(s: State, q: Request, entry: nat)
    requires WellFormedState(s) && entry == Victim(s)
    ensures entry < |Taken(s, q).entries| && IsValid(Taken(s, q).entries[entry], q.key)
  {
  }

  lemma VictimCleaned(s: State)
    requires WellFormedState(s) && !LosesWrite(s.order, s.dirty)
    ensures Victim(s) !in Cleaned(s).dirty
  {
    MissKeepsLists(s.order, s.dirty);
  }

  /** The parts of replacing a buffer. */
  ghost function Prepared(s: State, entry: nat, write: bool): State
    requires WellFormedState(s)
  {
    var t := Cleaned(s);
    t.(dirty := if write then t.dirty + [entry] else t.dirty)
  }

  ghost function Occupied(s: State, entry: nat, q: Request): State
    requires entry < |s.entries|
  {
    s.(entries := s.entries[entry := Entry(q.key, 1)],
       issued := if q.read then s.issued + [Access(true, q.key)] else s.issued)
  }

  lemma TakenParts(s: State, q: Request, t: State)
    requires WellFormedState(s)
    requires t == Occupied(Prepared(s, Victim(s), q.write), Victim(s), q).(order := Front(s.order, |s.order| - 1))
    ensures t == Taken(s, q)
  {
  }

  lemma FlushKeepsWellFormed(s: State)
    requires WellFormedState(s) && s.dirty != []
    ensures WellFormedState(Flush(s)) && FlushAll(s) == FlushAll(Flush(s))
  {
  }
}
