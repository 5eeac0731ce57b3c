/**
 The buffers of executor/memcache.h: accesses that are no direct memory references go to one of a
 few buffers. Pending writes are kept in a second list, the dirty list, and issued when their
 buffer is needed again or when the cache is invalidated.
 */
module WriteBack {
  import opened Common
  import opened UsageList
  import opened MemCache

  /** One call of `buffer_io`. */
  datatype Access = Access(read: bool, key: Key)

  /** A double word sent to the memory bus. */
  datatype Message = Message(read: bool, address: nat)

  /** The buffers, the usage order, the dirty list from the oldest to the newest write, and what was issued. */
  datatype State = State(entries: seq<Entry>, order: seq<nat>, dirty: seq<nat>, issued: seq<Access>)

  datatype Request = Request(key: Key, read: bool, write: bool)

  // ---------------------------------------------------------------- bus messages

  /** The address behind a double word; the last one of a page leads to the second page. */
  function NextAddress(address: nat, phys2: nat): nat {
    if address % 4096 != 4092 then address + 4 else phys2
  }

  function Addresses(address: nat, phys2: nat, count: nat): (addresses: seq<nat>)
    ensures |addresses| == count
    decreases count
  {
    if count == 0 then [] else [address] + Addresses(NextAddress(address, phys2), phys2, count - 1)
  }

  /** The messages of one access. */
  function Words(a: Access): seq<Message> {
    var addresses := Addresses(a.key.phys1, a.key.phys2, (a.key.len + 3) / 4);
    seq(|addresses|, i requires 0 <= i < |addresses| => Message(a.read, addresses[i]))
  }

  function Messages(issued: seq<Access>): seq<Message> {
    if issued == [] then [] else Messages(issued[..|issued| - 1]) + Words(issued[|issued| - 1])
  }

  /** The double words of an access run on from the end of the first page into the second page. */
  lemma AddressesSpanPages(address: nat, phys2: nat, count: nat, i: nat)
    requires address % 4 == 0 && phys2 % 4096 == 0 && address % 4096 + 4 * count <= 8192 && i < count
    ensures |Addresses(address, phys2, count)| == count
    ensures Addresses(address, phys2, count)[i] ==
            if address % 4096 + 4 * i < 4096 then address + 4 * i else phys2 + (address % 4096 + 4 * i - 4096)
  {
    var m := OffsetInWords(address, address / 4, address / 4096, address % 4096);
    FromFirstPage(address, address / 4096, m, phys2, count, i);
  }

  /** One message for each double word of the access, of its kind and at its place in the two pages. */
  lemma WordsCoverAccess(a: Access, i: nat)
    requires a.key.phys1 % 4 == 0 && a.key.phys2 % 4096 == 0 && a.key.phys1 % 4096 + a.key.len <= 8189
    ensures a.key.len <= 4 * |Words(a)| < a.key.len + 4
    ensures i < |Words(a)| ==>
              var offset := a.key.phys1 % 4096 + 4 * i;
              && Words(a)[i].read == a.read
              && Words(a)[i].address == if offset < 4096 then a.key.phys1 + 4 * i else a.key.phys2 + (offset - 4096)
  {
    var count := (a.key.len + 3) / 4;
    if i < count {
      AddressesSpanPages(a.key.phys1, a.key.phys2, count, i);
    }
  }

  lemma OffsetInWords(address: nat, words: nat, page: nat, offset: nat) returns (m: nat)
    requires address == 4 * words && address == 4096 * page + offset && offset < 4096
    ensures offset == 4 * m && m < 1024
  {
    m := words - 1024 * page;
  }

  /** From word m of a page on, in numbers without remainders. */
  lemma {:induction false} FromFirstPage(address: nat, page: nat, m: nat, phys2: nat, count: nat, i: nat)
    requires address == 4096 * page + 4 * m && m < 1024 && phys2 % 4096 == 0 && m + count <= 2048 && i < count
    ensures |Addresses(address, phys2, count)| == count
    ensures Addresses(address, phys2, count)[i] == if m + i < 1024 then address + 4 * i else phys2 + 4 * (m + i - 1024)
    decreases count
  {
    NextWord(address, page, m, phys2);
    if count == 1 {
      assert Addresses(NextAddress(address, phys2), phys2, 0) == [];
    } else if m == 1023 {
      InSecondPage(phys2, phys2 / 4096, 0, phys2, count - 1, if i == 0 then 0 else i - 1);
    } else {
      FromFirstPage(address + 4, page, m + 1, phys2, count - 1, if i == 0 then 0 else i - 1);
    }
  }

  lemma {:induction false} InSecondPage(address: nat, page: nat, m: nat, phys2: nat, count: nat, i: nat)
    requires address == 4096 * page + 4 * m && m + count <= 1024 && i < count
    ensures |Addresses(address, phys2, count)| == count && Addresses(address, phys2, count)[i] == address + 4 * i
    decreases count
  {
    NextWord(address, page, m, phys2);
    if count == 1 {
      assert Addresses(NextAddress(address, phys2), phys2, 0) == [];
    } else {
      InSecondPage(address + 4, page, m + 1, phys2, count - 1, if i == 0 then 0 else i - 1);
    }
  }

  lemma NextWord(address: nat, page: nat, m: nat, phys2: nat)
    requires address == 4096 * page + 4 * m && m < 1024
    ensures NextAddress(address, phys2) == if m == 1023 then phys2 else address + 4
  {
    assert address % 4096 == 4 * m;
  }

  // ---------------------------------------------------------------- the two lists

  /** x was used after y. */
  ghost predicate UsedAfter(order: seq<nat>, x: nat, y: nat) {
    exists a, b :: 0 <= a < b < |order| && order[a] == x && order[b] == y
  }

  /** The dirty buffers were last used in the order of their writes. */
  ghost predicate InUseOrder(order: seq<nat>, dirty: seq<nat>) {
    forall i, j :: 0 <= i < j < |dirty| ==> UsedAfter(order, dirty[j], dirty[i])
  }

  /** Every slot has a place in the usage list. */
  ghost predicate Covers(order: seq<nat>, n: nat) {
    forall i: nat :: i < n ==> i in order
  }

  ghost predicate WellFormedLists(order: seq<nat>, dirty: seq<nat>, n: nat) {
    && |order| == n >= 2 && Slots(order, n) && Distinct(order)
    && Slots(dirty, n) && Distinct(dirty)
  }

  /** In use order, a dirty buffer that is the next victim is the oldest write. */
  lemma VictimIsOldestWrite(order: seq<nat>, dirty: seq<nat>, j: nat)
    requires order != [] && Distinct(order) && InUseOrder(order, dirty)
    requires j < |dirty| && dirty[j] == order[|order| - 1]
    ensures j == 0
  {
    assert j > 0 ==> UsedAfter(order, dirty[j], dirty[0]);
  }

  lemma FrontKeepsUsedAfter(order: seq<nat>, k: nat, x: nat, y: nat)
    requires k < |order| && Distinct(order) && UsedAfter(order, x, y) && y != order[k]
    ensures UsedAfter(Front(order, k), x, y)
  {
    var a, b :| 0 <= a < b < |order| && order[a] == x && order[b] == y;
    var r := Front(order, k);
    var a' := if a == k then 0 else if a < k then a + 1 else a;
    var b' := if b < k then b + 1 else b;
    FrontAt(order, k, a');
    FrontAt(order, k, b');
    assert r[a'] == x && r[b'] == y;
  }

  lemma FrontIsUsedLast(order: seq<nat>, k: nat, y: nat)
    requires k < |order| && y in order && y != order[k]
    ensures UsedAfter(Front(order, k), order[k], y)
  {
    var b :| 0 <= b < |order| && order[b] == y;
    var r := Front(order, k);
    var b' := if b < k then b + 1 else b;
    FrontAt(order, k, b');
    assert r[0] == order[k] && r[b'] == y;
  }

  /** What is used after x is not also used before it. */
  lemma UsedAfterIsAntisymmetric(order: seq<nat>, x: nat, y: nat)
    requires Distinct(order) && UsedAfter(order, x, y)
    ensures !UsedAfter(order, y, x)
  {
    var a, b :| 0 <= a < b < |order| && order[a] == x && order[b] == y;
  }

  /** Using a buffer keeps the use order if and only if it is clean or the newest write. */
  lemma HitKeepsUseOrder(order: seq<nat>, dirty: seq<nat>, k: nat)
    requires WellFormedLists(order, dirty, |order|) && InUseOrder(order, dirty) && k < |order|
    requires forall d :: d in dirty ==> d in order
    ensures InUseOrder(Front(order, k), dirty) <==> (forall i :: 0 <= i < |dirty| - 1 ==> dirty[i] != order[k])
  {
    var r := Front(order, k);
    if i :| 0 <= i < |dirty| - 1 && dirty[i] == order[k] {
      FrontKeepsSlots(|order|, order, k);
      FrontIsUsedLast(order, k, dirty[i + 1]);
      UsedAfterIsAntisymmetric(r, dirty[i], dirty[i + 1]);
    } else {
      forall i, j | 0 <= i < j < |dirty|
        ensures UsedAfter(r, dirty[j], dirty[i])
      {
        FrontKeepsUsedAfter(order, k, dirty[j], dirty[i]);
      }
    }
  }

  // ---------------------------------------------------------------- when a write can be lost

  /** The next miss takes a buffer with a pending write that is not the oldest one; it is then not issued. */
  ghost predicate LosesWrite(order: seq<nat>, dirty: seq<nat>)
    requires order != []
  {
    exists j :: 1 <= j < |dirty| && dirty[j] == order[|order| - 1]
  }

  /** The dirty list after a read that misses: the victim is issued if it is the oldest write. */
  ghost function DirtyAfterMiss(order: seq<nat>, dirty: seq<nat>): seq<nat>
    requires order != []
  {
    if dirty != [] && dirty[0] == order[|order| - 1] then dirty[1..] else dirty
  }

  ghost predicate LosesWriteWithin(order: seq<nat>, dirty: seq<nat>, misses: nat)
    requires order != []
    decreases misses
  {
    || LosesWrite(order, dirty)
    || (misses > 0 && LosesWriteWithin(Front(order, |order| - 1), DirtyAfterMiss(order, dirty), misses - 1))
  }

  lemma MissKeepsLists(order: seq<nat>, dirty: seq<nat>)
    requires WellFormedLists(order, dirty, |order|) && !LosesWrite(order, dirty)
    ensures WellFormedLists(Front(order, |order| - 1), DirtyAfterMiss(order, dirty), |order|)
    ensures order[|order| - 1] !in DirtyAfterMiss(order, dirty)
  {
    FrontKeepsSlots(|order|, order, |order| - 1);
  }

  /** Reads that miss keep the use order, and never lose a write from it. */
  lemma {:induction false} InUseOrderLosesNothing(order: seq<nat>, dirty: seq<nat>, misses: nat)
    requires WellFormedLists(order, dirty, |order|) && InUseOrder(order, dirty)
    ensures !LosesWriteWithin(order, dirty, misses)
    decreases misses
  {
    if LosesWrite(order, dirty) {
      var j :| 1 <= j < |dirty| && dirty[j] == order[|order| - 1];
      VictimIsOldestWrite(order, dirty, j);
    } else if misses > 0 {
      MissKeepsLists(order, dirty);
      MissKeepsUseOrder(order, dirty);
      InUseOrderLosesNothing(Front(order, |order| - 1), DirtyAfterMiss(order, dirty), misses - 1);
    }
  }

  lemma MissKeepsUseOrder(order: seq<nat>, dirty: seq<nat>)
    requires WellFormedLists(order, dirty, |order|) && InUseOrder(order, dirty) && !LosesWrite(order, dirty)
    ensures InUseOrder(Front(order, |order| - 1), DirtyAfterMiss(order, dirty))
  {
    var rest := DirtyAfterMiss(order, dirty);
    MissKeepsLists(order, dirty);
    TailInUseOrder(order, dirty);
    CleanFrontKeepsUseOrder(order, rest, |order| - 1);
  }

  lemma TailInUseOrder(order: seq<nat>, dirty: seq<nat>)
    requires InUseOrder(order, dirty)
    ensures dirty != [] ==> InUseOrder(order, dirty[1..])
  {
  }

  lemma CleanFrontKeepsUseOrder(order: seq<nat>, dirty: seq<nat>, k: nat)
    requires Distinct(order) && InUseOrder(order, dirty) && k < |order| && order[k] !in dirty
    ensures InUseOrder(Front(order, k), dirty)
  {
    forall i, j | 0 <= i < j < |dirty|
      ensures UsedAfter(Front(order, k), dirty[j], dirty[i])
    {
      FrontKeepsUsedAfter(order, k, dirty[j], dirty[i]);
    }
  }

  /** The buffer of write j was used before the one of the earlier write i. */
  ghost predicate Disorder(order: seq<nat>, dirty: seq<nat>, i: int, j: int, a: nat, b: nat) {
    0 <= i < j < |dirty| && a < b < |order| && order[a] == dirty[i] && order[b] == dirty[j]
  }

  lemma MissKeepsDisorder(order: seq<nat>, dirty: seq<nat>, i: nat, j: nat, a: nat, b: nat)
    returns (next: seq<nat>, rest: seq<nat>, i': nat, j': nat)
    requires Distinct(order) && Disorder(order, dirty, i, j, a, b) && !LosesWrite(order, dirty)
    ensures next == Front(order, |order| - 1) && rest == DirtyAfterMiss(order, dirty)
    ensures b < |order| - 1 && |next| == |order|
    ensures Disorder(next, rest, i', j', a + 1, b + 1)
  {
    assert dirty[j] == order[b];
    if dirty[0] == order[|order| - 1] {
      assert order[a] != order[|order| - 1];
      i', j' := i - 1, j - 1;
    } else {
      i', j' := i, j;
    }
    FrontShifts(order, a);
    FrontShifts(order, b);
    next, rest := Front(order, |order| - 1), DirtyAfterMiss(order, dirty);
  }

  lemma FrontKeepsDistinct(order: seq<nat>, k: nat)
    requires k < |order| && Distinct(order)
    ensures Distinct(Front(order, k))
  {
  }

  /** A buffer that was used before the one of an earlier write is lost after enough misses. */
  lemma {:induction false} DisorderLosesWrite(order: seq<nat>, dirty: seq<nat>, i: nat, j: nat, a: nat, b: nat,
                                               misses: nat)
    requires Distinct(order) && Disorder(order, dirty, i, j, a, b) && misses == |order| - 1 - b
    ensures LosesWriteWithin(order, dirty, misses)
    decreases misses
  {
    if !LosesWrite(order, dirty) {
      var next, rest, i', j' := MissKeepsDisorder(order, dirty, i, j, a, b);
      FrontKeepsDistinct(order, |order| - 1);
      DisorderLosesWrite(next, rest, i', j', a + 1, b + 1, misses - 1);
      LosesLater(order, dirty, next, rest, misses);
    }
  }

  lemma LosesLater(order: seq<nat>, dirty: seq<nat>, next: seq<nat>, rest: seq<nat>, misses: nat)
    requires order != [] && next == Front(order, |order| - 1) && rest == DirtyAfterMiss(order, dirty)
    requires misses > 0 && LosesWriteWithin(next, rest, misses - 1)
    ensures LosesWriteWithin(order, dirty, misses)
  {
  }

  lemma FrontShifts(order: seq<nat>, a: nat)
    requires a < |order| - 1
    ensures Front(order, |order| - 1)[a + 1] == order[a]
  {
  }

  ghost predicate NeverLosesWrite(order: seq<nat>, dirty: seq<nat>)
    requires order != []
  {
    forall misses: nat :: !LosesWriteWithin(order, dirty, misses)
  }

  /** No sequence of misses loses a write if and only if the dirty buffers are in use order. */
  lemma NothingLostIffInUseOrder(order: seq<nat>, dirty: seq<nat>)
    requires WellFormedLists(order, dirty, |order|) && (forall d :: d in dirty ==> d in order)
    ensures InUseOrder(order, dirty) <==> NeverLosesWrite(order, dirty)
  {
    if InUseOrder(order, dirty) {
      forall misses: nat
        ensures !LosesWriteWithin(order, dirty, misses)
      {
        InUseOrderLosesNothing(order, dirty, misses);
      }
    } else {
      var i: nat, j: nat :| i < j < |dirty| && !UsedAfter(order, dirty[j], dirty[i]);
      assert dirty[i] in order && dirty[j] in order;
      var a: nat :| a < |order| && order[a] == dirty[i];
      var b: nat :| b < |order| && order[b] == dirty[j];
      assert a < b by {
        assert !(order[b] == dirty[j] && order[a] == dirty[i] && b < a);
      }
      DisorderLosesWrite(order, dirty, i, j, a, b, |order| - 1 - b);
    }
  }

  // ---------------------------------------------------------------- requests

  /** The writes among the accesses. */
  ghost function Writes(issued: seq<Access>): seq<Key> {
    if issued == [] then []
    else Writes(issued[..|issued| - 1]) + if issued[|issued| - 1].read then [] else [issued[|issued| - 1].key]
  }

  /** The writes that still wait in the buffers. */
  ghost function Pending(entries: seq<Entry>, dirty: seq<nat>): seq<Key>
    requires Slots(dirty, |entries|)
  {
    seq(|dirty|, i requires 0 <= i < |dirty| => entries[dirty[i]].key)
  }

  ghost predicate WellFormedState(s: State) {
    && WellFormedLists(s.order, s.dirty, |s.entries|)
    && Covers(s.order, |s.entries|)
  }

  /** Every write asked for was issued or is pending, each once, in the order of the requests. */
  ghost predicate Conserved(s: State, requested: seq<Key>)
    requires WellFormedState(s)
  {
    Writes(s.issued) + Pending(s.entries, s.dirty) == requested
  }

  ghost predicate Inv(s: State, requested: seq<Key>) {
    WellFormedState(s) && InUseOrder(s.order, s.dirty) && Conserved(s, requested)
  }

  ghost function Place(s: State, k: Key): (place: nat)
    requires WellFormedState(s)
    ensures place < |s.order|
  {
    Search(s.entries, s.order, k, 0)
  }

  ghost predicate Hits(s: State, k: Key)
    requires WellFormedState(s)
  {
    Place(s, k) < |s.order| - 1
  }

  /** Issue the oldest write. */
  ghost function Flush(s: State): State
    requires WellFormedState(s) && s.dirty != []
  {
    s.(dirty := s.dirty[1..], issued := s.issued + [Access(false, s.entries[s.dirty[0]].key)])
  }

  ghost function Victim(s: State): nat
    requires WellFormedState(s)
  {
    s.order[|s.order| - 1]
  }

  /** Issue the write of the next victim if it is the oldest one. */
  ghost function Cleaned(s: State): State
    requires WellFormedState(s)
  {
    if s.dirty != [] && s.dirty[0] == Victim(s) then Flush(s) else s
  }

  /** A miss takes the buffer that was not used for the longest time. */
  ghost function Taken(s: State, q: Request): State
    requires WellFormedState(s)
  {
    var t := Cleaned(s);
    State(s.entries[Victim(s) := Entry(q.key, 1)],
          Front(s.order, |s.order| - 1),
          if q.write then t.dirty + [Victim(s)] else t.dirty,
          if q.read then t.issued + [Access(true, q.key)] else t.issued)
  }

  /** The second half of `get`. */
  ghost function Served(s: State, q: Request): State
    requires WellFormedState(s)
  {
    if Hits(s, q.key) then s.(order := Front(s.order, Place(s, q.key))) else Taken(s, q)
  }

  /** A request that finds a buffer is no write and does not find a pending write other than the newest one. */
  ghost predicate Safe(s: State, q: Request)
    requires WellFormedState(s)
  {
    Hits(s, q.key) ==>
      !q.write && forall i :: 0 <= i < |s.dirty| - 1 ==> s.dirty[i] != s.order[Place(s, q.key)]
  }

  function Asked(q: Request): seq<Key> {
    if q.write then [q.key] else []
  }

  lemma WritesOfOneMore(issued: seq<Access>, a: Access)
    ensures Writes(issued + [a]) == Writes(issued) + if a.read then [] else [a.key]
  {
    assert (issued + [a])[..|issued|] == issued;
  }

  lemma FlushConserves(s: State)
    requires WellFormedState(s) && s.dirty != []
    ensures Slots(s.dirty[1..], |s.entries|)
    ensures Writes(Flush(s).issued) + Pending(s.entries, s.dirty[1..]) ==
            Writes(s.issued) + Pending(s.entries, s.dirty)
  {
    WritesOfOneMore(s.issued, Access(false, s.entries[s.dirty[0]].key));
    assert Pending(s.entries, s.dirty) == [s.entries[s.dirty[0]].key] + Pending(s.entries, s.dirty[1..]);
  }

  lemma FillKeepsPending(entries: seq<Entry>, dirty: seq<nat>, v: nat, e: Entry, more: bool)
    requires Slots(dirty, |entries|) && v < |entries| && v !in dirty
    ensures Slots(if more then dirty + [v] else dirty, |entries[v := e]|)
    ensures Pending(entries[v := e], if more then dirty + [v] else dirty) ==
            Pending(entries, dirty) + if more then [e.key] else []
  {
  }

  lemma FrontCovers(order: seq<nat>, k: nat, n: nat)
    requires k < |order| && Covers(order, n)
    ensures Covers(Front(order, k), n)
  {
    FrontIsPermutation(order, k);
    forall i: nat | i < n
      ensures i in Front(order, k)
    {
      assert i in order;
      assert i in multiset(order);
      assert i in multiset(Front(order, k));
    }
  }

  lemma HitKeepsInv(s: State, q: Request, requested: seq<Key>)
    requires Inv(s, requested) && Hits(s, q.key) && Safe(s, q)
    ensures Inv(Served(s, q), requested + Asked(q))
  {
    var k := Place(s, q.key);
    FrontKeepsSlots(|s.entries|, s.order, k);
    FrontCovers(s.order, k, |s.entries|);
    HitKeepsUseOrder(s.order, s.dirty, k);
    assert requested + Asked(q) == requested;
  }

  lemma NoWriteIsLost(s: State)
    requires WellFormedState(s) && InUseOrder(s.order, s.dirty)
    ensures !LosesWrite(s.order, s.dirty)
  {
    InUseOrderLosesNothing(s.order, s.dirty, 0);
  }

  lemma CleanedConserves(s: State, requested: seq<Key>)
    requires Inv(s, requested)
    ensures Cleaned(s).entries == s.entries && Cleaned(s).dirty == DirtyAfterMiss(s.order, s.dirty)
    ensures Slots(Cleaned(s).dirty, |s.entries|)
    ensures Writes(Cleaned(s).issued) + Pending(s.entries, Cleaned(s).dirty) == requested
  {
    if s.dirty != [] {
      FlushConserves(s);
    }
  }

  lemma AppendKeepsUseOrder(order: seq<nat>, dirty: seq<nat>)
    requires order != [] && InUseOrder(Front(order, |order| - 1), dirty) && order[|order| - 1] !in dirty
    requires forall d :: d in dirty ==> d in order
    ensures InUseOrder(Front(order, |order| - 1), dirty + [order[|order| - 1]])
  {
    var v := order[|order| - 1];
    forall i, j | 0 <= i < j < |dirty + [v]|
      ensures UsedAfter(Front(order, |order| - 1), (dirty + [v])[j], (dirty + [v])[i])
    {
      if j == |dirty| {
        FrontIsUsedLast(order, |order| - 1, dirty[i]);
      }
    }
  }

  /** The dirty list after a miss. */
  ghost function DirtyAfter(order: seq<nat>, dirty: seq<nat>, write: bool): seq<nat>
    requires order != []
  {
    if write then DirtyAfterMiss(order, dirty) + [order[|order| - 1]] else DirtyAfterMiss(order, dirty)
  }

  lemma TakenKeepsLists(order: seq<nat>, dirty: seq<nat>, write: bool)
    requires WellFormedLists(order, dirty, |order|) && !LosesWrite(order, dirty)
    ensures WellFormedLists(Front(order, |order| - 1), DirtyAfter(order, dirty, write), |order|)
  {
    MissKeepsLists(order, dirty);
  }

  lemma TakenKeepsUseOrder(order: seq<nat>, dirty: seq<nat>, write: bool)
    requires WellFormedLists(order, dirty, |order|) && Covers(order, |order|)
    requires InUseOrder(order, dirty) && !LosesWrite(order, dirty)
    ensures InUseOrder(Front(order, |order| - 1), DirtyAfter(order, dirty, write))
  {
    MissKeepsLists(order, dirty);
    MissKeepsUseOrder(order, dirty);
    AppendKeepsUseOrder(order, DirtyAfterMiss(order, dirty));
  }

  lemma TakenWellFormed(s: State, q: Request)
    requires WellFormedState(s) && InUseOrder(s.order, s.dirty)
    ensures WellFormedState(Taken(s, q)) && InUseOrder(Taken(s, q).order, Taken(s, q).dirty)
  {
    NoWriteIsLost(s);
    TakenKeepsLists(s.order, s.dirty, q.write);
    TakenKeepsUseOrder(s.order, s.dirty, q.write);
    FrontCovers(s.order, |s.order| - 1, |s.entries|);
    assert Taken(s, q).dirty == DirtyAfter(s.order, s.dirty, q.write);
  }

  lemma VictimIsClean(s: State)
    requires WellFormedState(s) && InUseOrder(s.order, s.dirty)
    ensures Victim(s) !in Cleaned(s).dirty
  {
    NoWriteIsLost(s);
    MissKeepsLists(s.order, s.dirty);
  }

  lemma AppendBoth(issued: seq<Key>, pending: seq<Key>, more: seq<Key>, requested: seq<Key>)
    requires issued + pending == requested
    ensures issued + (pending + more) == requested + more
  {
  }

  lemma TakenPending(s: State, q: Request)
    requires WellFormedState(s) && Slots(Cleaned(s).dirty, |s.entries|) && Victim(s) !in Cleaned(s).dirty
    ensures Slots(Taken(s, q).dirty, |Taken(s, q).entries|)
    ensures Pending(Taken(s, q).entries, Taken(s, q).dirty) == Pending(s.entries, Cleaned(s).dirty) + Asked(q)
  {
    FillKeepsPending(s.entries, Cleaned(s).dirty, Victim(s), Entry(q.key, 1), q.write);
  }

  lemma TakenWrites(s: State, q: Request)
    requires WellFormedState(s)
    ensures Writes(Taken(s, q).issued) == Writes(Cleaned(s).issued)
  {
    WritesOfOneMore(Cleaned(s).issued, Access(true, q.key));
  }

  lemma TakenConserves(s: State, q: Request, requested: seq<Key>)
    requires Inv(s, requested) && WellFormedState(Taken(s, q))
    ensures Conserved(Taken(s, q), requested + Asked(q))
  {
    VictimIsClean(s);
    CleanedConserves(s, requested);
    TakenPending(s, q);
    TakenWrites(s, q);
    var t := Cleaned(s);
    AppendBoth(Writes(t.issued), Pending(s.entries, t.dirty), Asked(q), requested);
  }

  lemma MissKeepsInv(s: State, q: Request, requested: seq<Key>)
    requires Inv(s, requested) && !Hits(s, q.key)
    ensures Inv(Served(s, q), requested + Asked(q))
  {
    TakenWellFormed(s, q);
    TakenConserves(s, q, requested);
  }

  /**
   A request keeps the lists in order, with no write lost, repeated or overtaken, if and only if
   it misses, or is no write and hits a clean buffer or the newest write.
   */
  lemma ServedKeepsInvIffSafe(s: State, q: Request, requested: seq<Key>)
    requires Inv(s, requested)
    ensures Inv(Served(s, q), requested + Asked(q)) <==> Safe(s, q)
  {
    if !Hits(s, q.key) {
      MissKeepsInv(s, q, requested);
    } else if Safe(s, q) {
      HitKeepsInv(s, q, requested);
    } else if !q.write {
      HitKeepsUseOrder(s.order, s.dirty, Place(s, q.key));
    }
  }

  // ---------------------------------------------------------------- invalidation and whole runs

  lemma FlushKeepsInv(s: State, requested: seq<Key>)
    requires Inv(s, requested) && s.dirty != []
    ensures Inv(Flush(s), requested)
  {
    FlushConserves(s);
    TailInUseOrder(s.order, s.dirty);
  }

  ghost function FlushAll(s: State): State
    requires WellFormedState(s)
    decreases |s.dirty|
  {
    if s.dirty == [] then s else FlushAll(Flush(s))
  }

  /** No buffer holds a valid entry. */
  ghost predicate Emptied(entries: seq<Entry>, before: seq<Entry>) {
    |entries| == |before| && forall i :: 0 <= i < |entries| ==> entries[i] == before[i].(ptr := 0)
  }

  /** Flushing all issues exactly the pending writes. */
  lemma {:induction false} FlushAllIssuesPending(s: State, requested: seq<Key>)
    requires Inv(s, requested)
    ensures FlushAll(s) == s.(dirty := [], issued := FlushAll(s).issued)
    ensures Writes(FlushAll(s).issued) == requested
    decreases |s.dirty|
  {
    if s.dirty == [] {
      assert Pending(s.entries, []) == [];
    } else {
      FlushKeepsInv(s, requested);
      FlushAllIssuesPending(Flush(s), requested);
    }
  }

  datatype Op = Ask(q: Request) | Invalidate

  ghost predicate Step(s: State, op: Op, t: State) {
    && WellFormedState(s)
    && match op
       case Ask(q) => Safe(s, q) && t == Served(s, q)
       case Invalidate => Emptied(t.entries, s.entries) && t == FlushAll(s).(entries := t.entries)
  }

  ghost predicate Run(s: State, ops: seq<Op>, t: State)
    decreases |ops|
  {
    if ops == [] then s == t else exists m :: Step(s, ops[0], m) && Run(m, ops[1..], t)
  }

  function AskedBy(op: Op): seq<Key> {
    if op.Ask? then Asked(op.q) else []
  }

  function AllAsked(ops: seq<Op>): seq<Key> {
    if ops == [] then [] else AskedBy(ops[0]) + AllAsked(ops[1..])
  }

  lemma InvalidateKeepsInv(s: State, t: State, requested: seq<Key>)
    requires Inv(s, requested) && Step(s, Invalidate, t)
    ensures Inv(t, requested) && t.dirty == []
    ensures forall i, k :: 0 <= i < |t.entries| ==> !IsValid(t.entries[i], k)
  {
    FlushAllIssuesPending(s, requested);
    assert Pending(t.entries, []) == [];
  }

  lemma StepKeepsInv(s: State, op: Op, t: State, requested: seq<Key>)
    requires Inv(s, requested) && Step(s, op, t)
    ensures Inv(t, requested + AskedBy(op))
  {
    if op.Ask? {
      ServedKeepsInvIffSafe(s, op.q, requested);
    } else {
      InvalidateKeepsInv(s, t, requested);
      assert requested + [] == requested;
    }
  }

  /** Over every run, the writes issued and pending are those asked for, in order. */
  lemma {:induction false} InvOverAllRuns(s: State, ops: seq<Op>, t: State, requested: seq<Key>)
    requires Inv(s, requested) && Run(s, ops, t)
    ensures Inv(t, requested + AllAsked(ops))
    decreases |ops|
  {
    if ops == [] {
      assert requested + [] == requested;
    } else {
      var m := FirstStep(s, ops, t);
      StepKeepsInv(s, ops[0], m, requested);
      InvOverAllRuns(m, ops[1..], t, requested + AskedBy(ops[0]));
      AskedFirst(requested, ops);
    }
  }

  lemma FirstStep(s: State, ops: seq<Op>, t: State) returns (m: State)
    requires ops != [] && Run(s, ops, t)
    ensures Step(s, ops[0], m) && Run(m, ops[1..], t)
  {
    m :| Step(s, ops[0], m) && Run(m, ops[1..], t);
  }

  lemma AskedFirst(requested: seq<Key>, ops: seq<Op>)
    requires ops != []
    ensures requested + AskedBy(ops[0]) + AllAsked(ops[1..]) == requested + AllAsked(ops)
  {
    Regroup(requested, AskedBy(ops[0]), AllAsked(ops[1..]));
  }

  lemma Regroup(a: seq<Key>, b: seq<Key>, c: seq<Key>)
    ensures a + b + c == a + (b + c)
  {
  }

  ghost predicate Fresh(s: State) {
    WellFormedState(s) && s.dirty == [] && s.issued == [] && forall i :: 0 <= i < |s.entries| ==> s.entries[i].ptr == 0
  }

  /** After a run from the start that ends with an invalidation, each write was issued exactly once, in order. */
  lemma WriteBackOverAllRuns(s: State, ops: seq<Op>, m: State, t: State)
    requires Fresh(s) && Run(s, ops, m) && Step(m, Invalidate, t)
    ensures Writes(t.issued) == AllAsked(ops)
  {
    FreshInv(s);
    InvOverAllRuns(s, ops, m, []);
    assert [] + AllAsked(ops) == AllAsked(ops);
    InvalidateKeepsInv(m, t, AllAsked(ops));
    NothingPending(t, AllAsked(ops));
  }

  lemma FreshInv(s: State)
    requires Fresh(s)
    ensures Inv(s, [])
  {
    assert Pending(s.entries, []) == [];
  }

  lemma NothingPending(s: State, requested: seq<Key>)
    requires Inv(s, requested) && s.dirty == []
    ensures Writes(s.issued) == requested
  {
    assert Pending(s.entries, []) == [];
  }

  // ---------------------------------------------------------------- a run that loses a write

  /** After a hit on a pending write other than the newest one, enough misses always lose a write. */
  lemma HitOnOlderWriteLosesWrite(s: State, q: Request, i: nat)
    requires WellFormedState(s) && InUseOrder(s.order, s.dirty) && Hits(s, q.key)
    requires i < |s.dirty| - 1 && s.dirty[i] == s.order[Place(s, q.key)]
    ensures !NeverLosesWrite(Served(s, q).order, Served(s, q).dirty)
  {
    var k := Place(s, q.key);
    HitKeepsUseOrder(s.order, s.dirty, k);
    FrontKeepsSlots(|s.entries|, s.order, k);
    FrontCovers(s.order, k, |s.entries|);
    NothingLostIffInUseOrder(Front(s.order, k), s.dirty);
  }

  ghost function Initial(): State {
    State(seq(6, i => Entry(Key(0, 0, 0), 0)), [5, 4, 3, 2, 1, 0], [], [])
  }

  lemma InitialInv()
    ensures Inv(Initial(), [])
  {
    assert Covers([5, 4, 3, 2, 1, 0], 6);
    FreshInv(Initial());
  }

  lemma FirstWrite(a: Key)
    requires WellFormedState(Initial())
    ensures Served(Initial(), Request(a, false, true)) ==
            State(Initial().entries[0 := Entry(a, 1)], [0, 5, 4, 3, 2, 1], [0], [])
  {
    assert !Hits(Initial(), a);
  }

  lemma SecondWrite(a: Key, b: Key, s: State)
    requires a != b && Inv(s, [a])
    requires s == State(Initial().entries[0 := Entry(a, 1)], [0, 5, 4, 3, 2, 1], [0], [])
    ensures Served(s, Request(b, false, true)) ==
            State(s.entries[1 := Entry(b, 1)], [1, 0, 5, 4, 3, 2], [0, 1], [])
  {
    assert !Hits(s, b);
  }

  /** From the start, two writes followed by a read of the first one lead to such a hit. */
  lemma ReadOfOlderWrite(a: Key, b: Key) returns (s: State)
    requires a != b
    ensures Run(Initial(), [Ask(Request(a, false, true)), Ask(Request(b, false, true))], s)
    ensures WellFormedState(s) && Hits(s, a)
    ensures !NeverLosesWrite(Served(s, Request(a, true, false)).order, Served(s, Request(a, true, false)).dirty)
  {
    var q, r := Request(a, false, true), Request(b, false, true);
    InitialInv();
    FirstWrite(a);
    ServedKeepsInvIffSafe(Initial(), q, []);
    var s1 := Served(Initial(), q);
    SecondWrite(a, b, s1);
    ServedKeepsInvIffSafe(s1, r, [a]);
    s := Served(s1, r);
    TwoSteps(Initial(), Ask(q), s1, Ask(r), s);
    HitOnFirst(a, b, s);
    HitOnOlderWriteLosesWrite(s, Request(a, true, false), 0);
  }

  lemma HitOnFirst(a: Key, b: Key, s: State)
    requires a != b && WellFormedState(s) && |s.entries| == 6 && s.order == [1, 0, 5, 4, 3, 2]
    requires s.entries[0] == Entry(a, 1) && s.entries[1] == Entry(b, 1)
    ensures Place(s, a) == 1
  {
    assert !IsValid(s.entries[s.order[0]], a) && IsValid(s.entries[s.order[1]], a);
    assert Search(s.entries, s.order, a, 1) == 1;
  }

  lemma TwoSteps(s: State, x: Op, m: State, y: Op, t: State)
    requires Step(s, x, m) && Step(m, y, t)
    ensures Run(s, [x, y], t)
  {
    OneStep(m, y, [], t, t);
    assert [x, y] == [x] + [y];
    OneStep(s, x, [y], m, t);
  }

  lemma OneStep(s: State, op: Op, ops: seq<Op>, m: State, t: State)
    requires Step(s, op, m) && Run(m, ops, t)
    ensures Run(s, [op] + ops, t)
  {
    assert ([op] + ops)[1..] == ops;
    assert Step(s, ([op] + ops)[0], m);
  }

  lemma FirstRead(a: Key)
    requires WellFormedState(Initial())
    ensures Served(Initial(), Request(a, true, false)) ==
            State(Initial().entries[0 := Entry(a, 1)], [0, 5, 4, 3, 2, 1], [], [Access(true, a)])
  {
    assert !Hits(Initial(), a);
  }

  /** A write that finds a buffer is not put on the dirty list. */
  lemma WriteOnHitIsNotQueued(s: State, q: Request, requested: seq<Key>)
    requires Inv(s, requested) && Hits(s, q.key) && q.write
    ensures Served(s, q) == s.(order := Front(s.order, Place(s, q.key)))
    ensures WellFormedState(Served(s, q)) && Conserved(Served(s, q), requested)
  {
    FrontKeepsSlots(|s.entries|, s.order, Place(s, q.key));
    FrontCovers(s.order, Place(s, q.key), |s.entries|);
  }

  /** From the start, a read and then a write of the same key: an invalidation issues no write at all. */
  lemma WriteAfterRead(a: Key, t: State) returns (s: State)
    ensures Run(Initial(), [Ask(Request(a, true, false))], s)
    ensures WellFormedState(s) && Hits(s, a) && WellFormedState(Served(s, Request(a, false, true)))
    ensures Step(Served(s, Request(a, false, true)), Invalidate, t) ==> Writes(t.issued) == []
  {
    var q, w := Request(a, true, false), Request(a, false, true);
    InitialInv();
    FirstRead(a);
    ServedKeepsInvIffSafe(Initial(), q, []);
    s := Served(Initial(), q);
    assert Run(s, [], s);
    OneStep(Initial(), Ask(q), [], s, s);
    assert [Ask(q)] + [] == [Ask(q)];
    HitOnNewest(a, s);
    WriteOnHitIsNotQueued(s, w, []);
    var r := Served(s, w);
    assert InUseOrder(r.order, r.dirty);
    if Step(r, Invalidate, t) {
      InvalidateKeepsInv(r, t, []);
      NothingPending(t, []);
    }
  }

  lemma HitOnNewest(a: Key, s: State)
    requires WellFormedState(s) && IsValid(s.entries[s.order[0]], a)
    ensures Place(s, a) == 0
  {
  }
}
