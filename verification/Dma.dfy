/**
 Scatter/gather copies of include/host/dma.h: `copy_inout` moves a slice of the bytes that a
 list of descriptors describes between guest memory and a buffer.
 */
module Dma {
  import opened Common

  /** A range of guest memory; its addresses are 64-bit values that wrap. */
  datatype Descriptor = Descriptor(start: u64, count: u64)

  /** The addresses that a list of descriptors describes, in order. */
  function Addresses(dma: seq<Descriptor>): seq<nat> {
    if dma == [] then [] else Places(dma[0].start, dma[0].count) + Addresses(dma[1..])
  }

  function AddressAt(start: nat, i: nat): nat { Wrap64(start + i) }

  function Places(start: nat, count: nat): (r: seq<nat>)
    ensures |r| == count
    ensures forall i :: 0 <= i < count ==> r[i] == Wrap64(start + i)
  {
    seq(count, i requires 0 <= i < count => AddressAt(start, i))
  }

  /** Places that do not wrap follow each other. */
  lemma PlacesInARow(start: nat, count: nat)
    requires Wrap64(start) + count <= 0x1_0000_0000_0000_0000
    ensures Places(start, count) == Range(Wrap64(start), count)
  {
    forall i: nat | i < count
      ensures Places(start, count)[i] == Wrap64(start) + i
    {
      NoWrapBetween(start, i);
    }
  }

  lemma NoWrapBetween(start: nat, i: nat)
    requires Wrap64(start) + i < 0x1_0000_0000_0000_0000
    ensures Wrap64(start + i) == Wrap64(start) + i
  {
  }

  function Range(start: nat, count: nat): (r: seq<nat>)
    ensures |r| == count
    ensures forall i :: 0 <= i < count ==> r[i] == start + i
  {
    seq(count, i requires 0 <= i < count => start + i)
  }

  /** The bytes at the given addresses. */
  function Gather(mem: seq<byte>, addresses: seq<nat>): (r: seq<byte>)
    requires forall i :: 0 <= i < |addresses| ==> addresses[i] < |mem|
    ensures |r| == |addresses|
  {
    seq(|addresses|, i requires 0 <= i < |addresses| => mem[addresses[i]])
  }

  /** Memory after writing the data to the given addresses one after the other. */
  function Scatter(mem: seq<byte>, addresses: seq<nat>, data: seq<byte>): (r: seq<byte>)
    requires |addresses| == |data| && forall i :: 0 <= i < |addresses| ==> addresses[i] < |mem|
    ensures |r| == |mem|
    decreases |data|
  {
    if data == [] then mem
    else
      var n := |data| - 1;
      Scatter(mem, addresses[..n], data[..n])[addresses[n] := data[n]]
  }

  /** `sum_length`: the sum is a 64-bit value, so it is the number of bytes unless those are 2^64 or more. */
  method SumLength(dma: seq<Descriptor>) returns (res: u64)
    ensures res == Wrap64(|Addresses(dma)|)
  {
    res := 0;
    ghost var total: nat := 0;
    for i := 0 to |dma|
      invariant res == Wrap64(total) && total + |Addresses(dma[i..])| == |Addresses(dma)|
    {
      Tail(dma, i);
      WrapSum(total, dma[i].count);
      res, total := Wrap64(res + dma[i].count), total + dma[i].count;
    }
  }

  lemma Tail(dma: seq<Descriptor>, i: nat)
    requires i < |dma|
    ensures Addresses(dma[i..]) == Places(dma[i].start, dma[i].count) + Addresses(dma[i + 1..])
  {
    assert dma[i..][1..] == dma[i + 1..];
  }

  // ---------------------------------------------------------------- scattering and gathering

  lemma {:induction false} ScatterConcat(mem: seq<byte>, a: seq<nat>, x: seq<byte>, b: seq<nat>, y: seq<byte>)
    requires |a| == |x| && |b| == |y|
    requires forall i :: 0 <= i < |a| ==> a[i] < |mem|
    requires forall i :: 0 <= i < |b| ==> b[i] < |mem|
    ensures Scatter(mem, a + b, x + y) == Scatter(Scatter(mem, a, x), b, y)
    decreases |b|
  {
    if b == [] {
      assert a + b == a && x + y == x;
    } else {
      var n := |b| - 1;
      assert (a + b)[..|a| + n] == a + b[..n];
      assert (x + y)[..|a| + n] == x + y[..n];
      ScatterConcat(mem, a, x, b[..n], y[..n]);
    }
  }

  /** An address that is not written keeps its byte. */
  lemma {:induction false} ScatterFrame(mem: seq<byte>, a: seq<nat>, x: seq<byte>, k: nat)
    requires |a| == |x| && (forall i :: 0 <= i < |a| ==> a[i] < |mem|) && k < |mem| && k !in a
    ensures Scatter(mem, a, x)[k] == mem[k]
    decreases |a|
  {
    if a != [] {
      var n := |a| - 1;
      ScatterFrame(mem, a[..n], x[..n], k);
    }
  }

  /** At distinct addresses, what was copied out is what is copied in again. */
  lemma {:induction false} OutThenIn(mem: seq<byte>, a: seq<nat>, x: seq<byte>)
    requires |a| == |x| && (forall i :: 0 <= i < |a| ==> a[i] < |mem|) && Distinct(a)
    ensures Gather(Scatter(mem, a, x), a) == x
    decreases |a|
  {
    if a != [] {
      var n := |a| - 1;
      var m1 := Scatter(mem, a[..n], x[..n]);
      OutThenIn(mem, a[..n], x[..n]);
      var m2 := m1[a[n] := x[n]];
      forall i | 0 <= i < |a|
        ensures Gather(m2, a)[i] == x[i]
      {
        if i < n {
          assert Gather(m1, a[..n])[i] == x[..n][i];
        }
      }
    }
  }

  ghost predicate Returns(mem: seq<byte>, a: seq<nat>, x: seq<byte>)
    requires |a| == |x| && forall i :: 0 <= i < |a| ==> a[i] < |mem|
  {
    Gather(Scatter(mem, a, x), a) == x
  }

  /** Only then does everything return: of two bytes for the same address one is lost. */
  lemma AllReturnIffDistinct(mem: seq<byte>, a: seq<nat>)
    requires forall i :: 0 <= i < |a| ==> a[i] < |mem|
    ensures (forall x: seq<byte> | |x| == |a| :: Returns(mem, a, x)) <==> Distinct(a)
  {
    if Distinct(a) {
      forall x: seq<byte> | |x| == |a|
        ensures Returns(mem, a, x)
      {
        OutThenIn(mem, a, x);
      }
    } else {
      var i, j :| 0 <= i < j < |a| && a[i] == a[j];
      var x: seq<byte> := seq(|a|, k => if k == j then 1 else 0);
      OneByteLost(mem, a, x, i, j);
    }
  }

  lemma OneByteLost(mem: seq<byte>, a: seq<nat>, x: seq<byte>, i: nat, j: nat)
    requires |a| == |x| && (forall i :: 0 <= i < |a| ==> a[i] < |mem|)
    requires i < j < |a| && a[i] == a[j] && x[i] != x[j]
    ensures !Returns(mem, a, x)
  {
    var back := Gather(Scatter(mem, a, x), a);
    assert back[i] == back[j];
  }

  /** Copying in and out again leaves memory as it is, for any addresses. */
  lemma {:induction false} InThenOut(mem: seq<byte>, a: seq<nat>)
    requires forall i :: 0 <= i < |a| ==> a[i] < |mem|
    ensures Scatter(mem, a, Gather(mem, a)) == mem
    decreases |a|
  {
    if a != [] {
      var n := |a| - 1;
      InThenOut(mem, a[..n]);
      assert Gather(mem, a)[..n] == Gather(mem, a[..n]);
    }
  }

  // ---------------------------------------------------------------- descriptors that do not overlap

  predicate Within(d: Descriptor, a: nat) { a in Places(d.start, d.count) }

  ghost predicate Overlap(d: Descriptor, e: Descriptor) { exists a: nat :: Within(d, a) && Within(e, a) }

  ghost predicate NoOverlaps(dma: seq<Descriptor>) {
    forall i, j :: 0 <= i < j < |dma| ==> !Overlap(dma[i], dma[j])
  }

  /** The places of one descriptor are distinct, even if they wrap. */
  lemma PlacesAreDistinct(d: Descriptor)
    ensures Distinct(Places(d.start, d.count))
  {
    forall i, j | 0 <= i < j < d.count
      ensures Places(d.start, d.count)[i] != Places(d.start, d.count)[j]
    {
      WrapApart(d.start + i, j - i);
    }
  }

  lemma WrapApart(x: nat, k: nat)
    requires 0 < k < 0x1_0000_0000_0000_0000
    ensures Wrap64(x) != Wrap64(x + k)
  {
  }

  lemma {:induction false} InAddresses(dma: seq<Descriptor>, a: nat)
    ensures a in Addresses(dma) <==> exists i :: 0 <= i < |dma| && Within(dma[i], a)
  {
    if dma != [] {
      InAddresses(dma[1..], a);
      if a in Addresses(dma[1..]) {
        var i :| 0 <= i < |dma[1..]| && Within(dma[1..][i], a);
        assert Within(dma[i + 1], a);
      }
      if i :| 0 < i < |dma| && Within(dma[i], a) {
        assert Within(dma[1..][i - 1], a);
      }
    }
  }

  lemma DistinctConcat(a: seq<nat>, b: seq<nat>)
    ensures Distinct(a + b) <==> Distinct(a) && Distinct(b) && forall x :: x in a ==> x !in b
  {
    if Distinct(a) && Distinct(b) && forall x :: x in a ==> x !in b {
      forall i, j | 0 <= i < j < |a + b|
        ensures (a + b)[i] != (a + b)[j]
      {
        if i < |a| <= j {
          assert a[i] in a && b[j - |a|] in b;
        }
      }
    }
    if Distinct(a + b) {
      forall i, j | 0 <= i < j < |b|
        ensures b[i] != b[j]
      {
        assert (a + b)[|a| + i] != (a + b)[|a| + j];
      }
      forall i, j | 0 <= i < j < |a|
        ensures a[i] != a[j]
      {
        assert (a + b)[i] != (a + b)[j];
      }
      forall x | x in a
        ensures x !in b
      {
        var i :| 0 <= i < |a| && a[i] == x;
        forall j | 0 <= j < |b|
          ensures b[j] != x
        {
          assert (a + b)[i] != (a + b)[|a| + j];
        }
      }
    }
  }

  /** The addresses of a list are distinct iff no two of its descriptors overlap. */
  lemma {:induction false} DistinctIffNoOverlaps(dma: seq<Descriptor>)
    ensures Distinct(Addresses(dma)) <==> NoOverlaps(dma)
  {
    if dma != [] {
      var rest := dma[1..];
      DistinctIffNoOverlaps(rest);
      PlacesAreDistinct(dma[0]);
      DistinctConcat(Places(dma[0].start, dma[0].count), Addresses(rest));
      FirstOverlaps(dma);
      RestOverlaps(dma);
    }
  }

  lemma FirstOverlaps(dma: seq<Descriptor>)
    requires dma != []
    ensures (forall a :: Within(dma[0], a) ==> a !in Addresses(dma[1..])) <==>
            (forall j :: 0 < j < |dma| ==> !Overlap(dma[0], dma[j]))
  {
    var rest := dma[1..];
    forall a: nat
      ensures a in Addresses(rest) <==> exists i :: 0 <= i < |rest| && Within(rest[i], a)
    {
      InAddresses(rest, a);
    }
    assert forall j :: 0 < j < |dma| ==> dma[j] == rest[j - 1];
  }

  lemma RestOverlaps(dma: seq<Descriptor>)
    requires dma != []
    ensures NoOverlaps(dma) <==> NoOverlaps(dma[1..]) && forall j :: 0 < j < |dma| ==> !Overlap(dma[0], dma[j])
  {
    var rest := dma[1..];
    if NoOverlaps(rest) && forall j :: 0 < j < |dma| ==> !Overlap(dma[0], dma[j]) {
      forall i, j | 0 <= i < j < |dma|
        ensures !Overlap(dma[i], dma[j])
      {
        if i > 0 {
          assert !Overlap(rest[i - 1], rest[j - 1]);
        }
      }
    }
  }

  // ---------------------------------------------------------------- memcpy

  method CopyToMemory(mem: array<byte>, address: nat, buffer: array<byte>, pos: nat, n: nat)
    requires mem != buffer && address + n <= mem.Length && pos + n <= buffer.Length
    modifies mem
    ensures mem[..] == Scatter(old(mem[..]), Range(address, n), buffer[pos..pos + n])
  {
    ghost var m0, data := mem[..], buffer[pos..pos + n];
    for k := 0 to n
      invariant mem[..] == Scatter(m0, Range(address, n)[..k], data[..k])
    {
      ghost var before := mem[..];
      mem[address + k] := buffer[pos + k];
      assert mem[..] == before[address + k := data[k]];
      assert Range(address, n)[..k + 1][..k] == Range(address, n)[..k];
      assert data[..k + 1][..k] == data[..k];
    }
    assert Range(address, n)[..n] == Range(address, n) && data[..n] == data;
  }

  method CopyFromMemory(mem: array<byte>, address: nat, buffer: array<byte>, pos: nat, n: nat)
    requires mem != buffer && address + n <= mem.Length && pos + n <= buffer.Length
    modifies buffer
    ensures buffer[..] == old(buffer[..pos]) + Gather(mem[..], Range(address, n)) + old(buffer[pos + n..])
  {
    ghost var b0 := buffer[..];
    for k := 0 to n
      invariant buffer[..] == b0[..pos] + Gather(mem[..], Range(address, n))[..k] + b0[pos + k..]
    {
      buffer[pos + k] := mem[address + k];
    }
  }

  // ---------------------------------------------------------------- when a copy succeeds

  /** The bytes in front of descriptor i. */
  function Begin(dma: seq<Descriptor>, i: nat): nat
    requires i <= |dma|
  {
    if i == 0 then 0 else Begin(dma, i - 1) + dma[i - 1].count
  }

  lemma {:induction false} BeginIsMonotone(dma: seq<Descriptor>, i: nat, j: nat)
    requires i <= j <= |dma|
    ensures Begin(dma, i) <= Begin(dma, j)
    decreases j - i
  {
    if i < j {
      BeginIsMonotone(dma, i, j - 1);
    }
  }

  /** The slice reaches into descriptor i or, if that is empty, beyond it on both sides. */
  predicate Visited(dma: seq<Descriptor>, offset: nat, len: nat, i: nat)
    requires i < |dma|
  {
    offset < Begin(dma, i + 1) && Begin(dma, i) < offset + len
  }

  /** The n bytes at `offset` in descriptor d lie in a memory of `size` bytes. */
  predicate Fits(d: Descriptor, offset: nat, n: nat, size: nat) { Wrap64(d.start + offset) + n <= size }

  /** The part of the slice in descriptor i lies in a memory of `size` bytes. */
  predicate PieceFits(dma: seq<Descriptor>, offset: nat, len: nat, size: nat, i: nat)
    requires i < |dma|
  {
    var b := Begin(dma, i);
    FitsBetween(dma[i], FirstAt(b, offset), LastAt(b, dma[i].count, offset + len), size)
  }

  /** Where in a descriptor behind `b` bytes a slice from `offset` on begins, and where one up to `end` ends. */
  function FirstAt(b: nat, offset: nat): nat { if offset > b then offset - b else 0 }

  function LastAt(b: nat, count: nat, end: nat): int { if end < b + count then end - b else count }

  predicate FitsBetween(d: Descriptor, lo: nat, hi: int, size: nat) { lo <= hi && Fits(d, lo, hi - lo, size) }

  /**
   A copy succeeds iff it is empty, or the slice ends in the list and every descriptor that it
   visits, empty ones included, begins and ends in memory.
   */
  ghost predicate Succeeds(dma: seq<Descriptor>, offset: nat, len: nat, size: nat) {
    || len == 0
    || (offset + len <= Begin(dma, |dma|)
        && forall i: nat :: i < |dma| && Visited(dma, offset, len, i) ==> PieceFits(dma, offset, len, size, i))
  }

  /** The second loop moves all that is left from descriptor i on. */
  predicate Completes(dma: seq<Descriptor>, i: nat, rest: nat, left: nat, size: nat)
    requires i <= |dma| && (left > 0 && i < |dma| ==> rest <= dma[i].count)
    decreases |dma| - i
  {
    || left == 0
    || (i < |dma| && !OutOfMemory(dma[i], rest, left, size)
        && Completes(dma, i + 1, 0, left - PieceSize(dma[i], rest, left), size))
  }

  /** All descriptors from i on that the slice visits fit. */
  ghost predicate RestFits(dma: seq<Descriptor>, offset: nat, len: nat, size: nat, i: nat) {
    forall k: nat :: i <= k < |dma| && Visited(dma, offset, len, k) ==> PieceFits(dma, offset, len, size, k)
  }

  /** From a descriptor behind the begin of the slice on. */
  lemma {:induction false} CompletesFrom(dma: seq<Descriptor>, offset: nat, len: nat, size: nat, i: nat)
    requires i <= |dma| && offset < Begin(dma, i) <= offset + len
    ensures Completes(dma, i, 0, offset + len - Begin(dma, i), size) <==>
              offset + len <= Begin(dma, |dma|) && RestFits(dma, offset, len, size, i)
    decreases |dma| - i
  {
    var left := offset + len - Begin(dma, i);
    BeginIsMonotone(dma, i, |dma|);
    forall k: nat | i <= k < |dma|
      ensures Begin(dma, i) <= Begin(dma, k)
    {
      BeginIsMonotone(dma, i, k);
    }
    if left > 0 && i < |dma| {
      SplitFits(dma, offset, len, size, i);
      if dma[i].count <= left {
        CompletesFrom(dma, offset, len, size, i + 1);
      } else {
        BeginIsMonotone(dma, i + 1, |dma|);
        NothingBehind(dma, offset, len, size, i + 1);
      }
    }
  }

  lemma SplitFits(dma: seq<Descriptor>, offset: nat, len: nat, size: nat, i: nat)
    requires i < |dma| && Visited(dma, offset, len, i)
    ensures RestFits(dma, offset, len, size, i) <==>
              PieceFits(dma, offset, len, size, i) && RestFits(dma, offset, len, size, i + 1)
  {
  }

  /** Behind its end the slice visits nothing. */
  lemma NothingBehind(dma: seq<Descriptor>, offset: nat, len: nat, size: nat, i: nat)
    requires i <= |dma| && offset + len <= Begin(dma, i)
    ensures RestFits(dma, offset, len, size, i)
  {
    forall k: nat | i <= k < |dma|
      ensures !Visited(dma, offset, len, k)
    {
      BeginIsMonotone(dma, i, k);
    }
  }

  /** In front of its begin the slice visits nothing. */
  lemma NothingBefore(dma: seq<Descriptor>, offset: nat, len: nat, size: nat, i: nat)
    requires i <= |dma| && Begin(dma, i) <= offset
    ensures RestFits(dma, offset, len, size, 0) <==> RestFits(dma, offset, len, size, i)
  {
    forall k: nat | k < i
      ensures !Visited(dma, offset, len, k)
    {
      BeginIsMonotone(dma, k + 1, i);
    }
  }

  /** What the first loop finds, and the second loop makes of it. */
  lemma SucceedsIff(dma: seq<Descriptor>, offset: nat, len: nat, size: nat, i: nat, rest: nat)
    requires i <= |dma| && Begin(dma, i) + rest == offset && (i < |dma| ==> rest < dma[i].count)
    ensures i < |dma| ==> (Completes(dma, i, rest, len, size) <==> Succeeds(dma, offset, len, size))
    ensures i == |dma| ==> (len == 0 <==> Succeeds(dma, offset, len, size))
  {
    if i < |dma| && len > 0 {
      NothingBefore(dma, offset, len, size, i);
      CompletesInside(dma, offset, len, size, i, rest);
    }
  }

  /** From the descriptor in which the slice begins. */
  lemma CompletesInside(dma: seq<Descriptor>, offset: nat, len: nat, size: nat, i: nat, rest: nat)
    requires i < |dma| && Begin(dma, i) + rest == offset && rest < dma[i].count && len > 0
    ensures Completes(dma, i, rest, len, size) <==>
              offset + len <= Begin(dma, |dma|) && RestFits(dma, offset, len, size, i)
  {
    SplitFits(dma, offset, len, size, i);
    PieceInMemory(dma, offset, len, size, i, rest);
    if dma[i].count - rest <= len {
      CompletesFrom(dma, offset, len, size, i + 1);
    } else {
      BeginIsMonotone(dma, i + 1, |dma|);
      NothingBehind(dma, offset, len, size, i + 1);
    }
  }

  lemma PieceInMemory(dma: seq<Descriptor>, offset: nat, len: nat, size: nat, i: nat, rest: nat)
    requires i < |dma| && Begin(dma, i) + rest == offset && rest < dma[i].count
    ensures PieceFits(dma, offset, len, size, i) <==> !OutOfMemory(dma[i], rest, len, size)
  {
    var b, n := Begin(dma, i), PieceSize(dma[i], rest, len);
    assert FirstAt(b, offset) == rest && LastAt(b, dma[i].count, offset + len) == rest + n;
    assert FitsBetween(dma[i], rest, rest + n, size) == Fits(dma[i], rest, n, size);
  }

  /** An empty descriptor outside of memory between two others stops a copy whose bytes all lie in memory. */
  lemma EmptyDescriptorStopsCopy()
    ensures var dma := [Descriptor(0, 4), Descriptor(100, 0), Descriptor(4, 4)];
            && Addresses(dma) == [0, 1, 2, 3, 4, 5, 6, 7]
            && !Succeeds(dma, 0, 8, 8)
  {
    var dma := [Descriptor(0, 4), Descriptor(100, 0), Descriptor(4, 4)];
    assert dma[1..] == [Descriptor(100, 0), Descriptor(4, 4)] && dma[1..][1..] == [Descriptor(4, 4)];
    assert Addresses([Descriptor(4, 4)]) == Places(4, 4) + Addresses([]);
    assert Begin(dma, 1) == 4 && Begin(dma, 2) == 4 && Begin(dma, 3) == 8;
    assert Visited(dma, 0, 8, 1) && !PieceFits(dma, 0, 8, 8, 1);
  }

  // ---------------------------------------------------------------- copy_inout

  /** The slice that is still to be moved: from descriptor i on, `offset` bytes into it. */
  ghost predicate Remaining(dma: seq<Descriptor>, total: nat, i: nat, offset: nat) {
    && i <= |dma| && total <= |Addresses(dma)| && offset <= |Addresses(dma[i..])|
    && Addresses(dma)[total..] == Addresses(dma[i..])[offset..]
  }

  /** The first loop: skips the descriptors before `offset`, empty ones included. */
  method Skip(dma: seq<Descriptor>, offset: nat) returns (i: nat, rest: nat)
    ensures i <= |dma|
    ensures i < |dma| ==> rest < dma[i].count && ToDo(dma, offset, i, rest)
    ensures i == |dma| ==> offset == |Addresses(dma)| + rest
    ensures Begin(dma, i) + rest == offset
  {
    i, rest := 0, offset;
    assert dma[0..] == dma;
    while i < |dma| && rest >= dma[i].count
      invariant i <= |dma| && offset + |Addresses(dma[i..])| == |Addresses(dma)| + rest
      invariant Begin(dma, i) + rest == offset
      invariant offset <= |Addresses(dma)| ==> Remaining(dma, offset, i, rest)
    {
      Tail(dma, i);
      if offset <= |Addresses(dma)| {
        assert Addresses(dma[i..])[rest..] == Addresses(dma[i + 1..])[rest - dma[i].count..];
      }
      i, rest := i + 1, rest - dma[i].count;
    }
    if i < |dma| {
      Tail(dma, i);
    }
  }

  /** The next piece of the slice lies in one descriptor. */
  lemma NextPiece(dma: seq<Descriptor>, total: nat, i: nat, offset: nat, n: nat)
    requires Remaining(dma, total, i, offset) && i < |dma| && offset + n <= dma[i].count
    ensures total + n <= |Addresses(dma)|
    ensures Addresses(dma)[total..total + n] == Places(dma[i].start + offset, n)
    ensures offset + n == dma[i].count ==> ToDo(dma, total + n, i + 1, 0)
  {
    Tail(dma, i);
    var all, rest := Addresses(dma), Addresses(dma[i..]);
    assert all[total..total + n] == all[total..][..n] == rest[offset..][..n];
    if offset + n == dma[i].count {
      assert all[total + n..] == all[total..][n..];
      assert rest[offset..][n..] == rest[dma[i].count..] == Addresses(dma[i + 1..]);
    }
  }

  /** The piece of at most `left` bytes, `offset` bytes into descriptor d. */
  function PieceSize(d: Descriptor, offset: nat, left: nat): nat
    requires offset <= d.count
  {
    if d.count - offset > left then left else d.count - offset
  }

  /** A piece of at most `left` bytes, `offset` bytes into descriptor d, leaves the memory of `size` bytes. */
  predicate OutOfMemory(d: Descriptor, offset: nat, left: nat, size: nat)
    requires offset <= d.count
  {
    !Fits(d, offset, PieceSize(d, offset, left), size)
  }

  /** The next piece of the slice does not lie in memory. */
  ghost predicate StuckAt(dma: seq<Descriptor>, total: nat, i: nat, o: nat, left: nat, size: nat) {
    i < |dma| && Remaining(dma, total, i, o) && o <= dma[i].count && OutOfMemory(dma[i], o, left, size)
  }

  ghost predicate Stuck(dma: seq<Descriptor>, total: nat, left: nat, size: nat) {
    exists i: nat, o: nat :: StuckAt(dma, total, i, o, left, size)
  }

  ghost predicate InMemory(addresses: seq<nat>, size: nat) {
    forall k :: 0 <= k < |addresses| ==> addresses[k] < size
  }

  /** `mem` and `buffer` are `m0` and `b0` with the bytes at the addresses `done` moved. */
  ghost predicate Moved(done: seq<nat>, copyOut: bool, m0: seq<byte>, b0: seq<byte>, mem: seq<byte>,
                        buffer: seq<byte>)
  {
    && |done| <= |b0| && InMemory(done, |m0|)
    && (if copyOut then buffer == b0 && mem == Scatter(m0, done, b0[..|done|])
        else mem == m0 && buffer == Gather(m0, done) + b0[|done|..])
  }

  lemma InMemoryConcat(a: seq<nat>, b: seq<nat>, size: nat)
    requires InMemory(a, size) && InMemory(b, size)
    ensures InMemory(a + b, size)
  {
  }

  lemma MovedOut(done: seq<nat>, m0: seq<byte>, b0: seq<byte>, mem: seq<byte>, piece: seq<nat>)
    requires Moved(done, true, m0, b0, mem, b0) && |done| + |piece| <= |b0| && InMemory(piece, |m0|)
    ensures Moved(done + piece, true, m0, b0, Scatter(mem, piece, b0[|done|..|done| + |piece|]), b0)
  {
    var n := |done|;
    ScatterConcat(m0, done, b0[..n], piece, b0[n..n + |piece|]);
    assert b0[..n] + b0[n..n + |piece|] == b0[..|done + piece|];
    InMemoryConcat(done, piece, |m0|);
  }

  lemma MovedIn(done: seq<nat>, m0: seq<byte>, b0: seq<byte>, buffer: seq<byte>, piece: seq<nat>)
    requires Moved(done, false, m0, b0, m0, buffer) && |done| + |piece| <= |b0| && InMemory(piece, |m0|)
    ensures |buffer| == |b0|
    ensures var n := |done|;
            Moved(done + piece, false, m0, b0, m0, buffer[..n] + Gather(m0, piece) + buffer[n + |piece|..])
  {
    var n := |done|;
    assert Gather(m0, done + piece) == Gather(m0, done) + Gather(m0, piece);
    assert buffer[..n] == Gather(m0, done) && buffer[n + |piece|..] == b0[n + |piece|..];
  }

  /**
   `copy_inout`: moves the bytes [offset, offset + len) of the flattened descriptor list, and
   reports a failure iff it had to stop before, at the end of the list or of the memory.
   `done` are the addresses of the bytes moved.
   */
  method CopyInOut(buffer: array<byte>, len: nat, offset: nat, dma: seq<Descriptor>, copyOut: bool,
                   mem: array<byte>) returns (failed: bool, ghost done: seq<nat>)
    requires buffer != mem && len <= buffer.Length && mem.Length + len < 0x1_0000_0000_0000_0000
    modifies buffer, mem
    ensures |done| <= len && (failed <==> |done| < len)
    ensures failed <==> !Succeeds(dma, offset, len, mem.Length)
    ensures done == [] || (offset + |done| <= |Addresses(dma)| && done == Addresses(dma)[offset..offset + |done|])
    ensures Moved(done, copyOut, old(mem[..]), old(buffer[..]), mem[..], buffer[..])
    ensures failed ==> offset + |done| >= |Addresses(dma)| || Stuck(dma, offset + |done|, len - |done|, mem.Length)
  {
    var i, rest := Skip(dma, offset);
    SucceedsIff(dma, offset, len, mem.Length, i, rest);
    if i < |dma| {
      PlannedIsSlice(dma, i, rest, len, mem.Length, offset);
      PlannedCompletes(dma, i, rest, len, mem.Length);
      PlannedStops(dma, i, rest, len, mem.Length, offset);
      failed, done := CopyFrom(buffer, len, dma, copyOut, mem, i, rest);
    } else {
      failed, done := len > 0, [];
    }
  }

  /** What is copied out of one buffer and into another through descriptors that do not overlap arrives unchanged. */
  method RoundTrip(source: array<byte>, target: array<byte>, len: nat, offset: nat, dma: seq<Descriptor>,
                   mem: array<byte>) returns (failed: bool)
    requires source != target && source != mem && target != mem && NoOverlaps(dma)
    requires len <= source.Length && len <= target.Length && mem.Length + len < 0x1_0000_0000_0000_0000
    modifies source, target, mem
    ensures failed <==> !Succeeds(dma, offset, len, mem.Length)
    ensures source[..] == old(source[..])
    ensures !failed ==> target[..] == old(source[..len] + target[len..])
  {
    ghost var m0, s0, t0 := mem[..], source[..], target[..];
    ghost var out, back: seq<nat>;
    failed, out := CopyInOut(source, len, offset, dma, true, mem);
    if !failed {
      ghost var m1 := mem[..];
      failed, back := CopyInOut(target, len, offset, dma, false, mem);
      DistinctIffNoOverlaps(dma);
      Returned(out, m0, s0, m1, t0, target[..]);
    }
  }

  lemma Returned(a: seq<nat>, m0: seq<byte>, s0: seq<byte>, m1: seq<byte>, t0: seq<byte>, t1: seq<byte>)
    requires Distinct(a) && Moved(a, true, m0, s0, m1, s0) && Moved(a, false, m1, t0, m1, t1)
    ensures t1 == s0[..|a|] + t0[|a|..]
  {
    OutThenIn(m0, a, s0[..|a|]);
  }

  /** Copying in and out again through the same descriptors leaves memory as it is. */
  method ReadAndRestore(buffer: array<byte>, len: nat, offset: nat, dma: seq<Descriptor>, mem: array<byte>)
    returns (failed: bool)
    requires buffer != mem && len <= buffer.Length && mem.Length + len < 0x1_0000_0000_0000_0000
    modifies buffer, mem
    ensures failed <==> !Succeeds(dma, offset, len, mem.Length)
    ensures mem[..] == old(mem[..])
  {
    ghost var m0, b0 := mem[..], buffer[..];
    ghost var done, again: seq<nat>;
    failed, done := CopyInOut(buffer, len, offset, dma, false, mem);
    if !failed {
      ghost var b1 := buffer[..];
      failed, again := CopyInOut(buffer, len, offset, dma, true, mem);
      Restored(done, m0, b0, b1, mem[..]);
    }
  }

  lemma Restored(a: seq<nat>, m0: seq<byte>, b0: seq<byte>, b1: seq<byte>, m1: seq<byte>)
    requires Moved(a, false, m0, b0, m0, b1) && Moved(a, true, m0, b1, m1, b1)
    ensures m1 == m0
  {
    InThenOut(m0, a);
    assert b1[..|a|] == Gather(m0, a);
  }

  /** The rest of the slice begins in descriptor i, or there is none. */
  ghost predicate ToDo(dma: seq<Descriptor>, total: nat, i: nat, offset: nat) {
    Remaining(dma, total, i, offset) && if i < |dma| then offset <= dma[i].count else total == |Addresses(dma)|
  }

  /** The addresses of the bytes that the second loop moves from descriptor i on. */
  function Planned(dma: seq<Descriptor>, i: nat, rest: nat, left: nat, size: nat): (r: seq<nat>)
    requires i <= |dma| && (left > 0 && i < |dma| ==> rest <= dma[i].count)
    ensures |r| <= left
    decreases |dma| - i
  {
    if left == 0 || i == |dma| || OutOfMemory(dma[i], rest, left, size) then []
    else
      var sub := PieceSize(dma[i], rest, left);
      Range(Wrap64(dma[i].start + rest), sub) + Planned(dma, i + 1, 0, left - sub, size)
  }

  lemma PlannedStep(dma: seq<Descriptor>, i: nat, rest: nat, left: nat, size: nat, done: seq<nat>, done': seq<nat>)
    requires i < |dma| && rest <= dma[i].count && left > 0 && !OutOfMemory(dma[i], rest, left, size)
    requires done' == done + Range(Wrap64(dma[i].start + rest), PieceSize(dma[i], rest, left))
    ensures done + Planned(dma, i, rest, left, size)
            == done' + Planned(dma, i + 1, 0, left - PieceSize(dma[i], rest, left), size)
  {
  }

  lemma PlannedEnds(dma: seq<Descriptor>, i: nat, rest: nat, left: nat, size: nat, done: seq<nat>)
    requires left == 0 || i == |dma|
    requires i <= |dma|
    ensures done + Planned(dma, i, rest, left, size) == done
  {
  }

  /** They are the slice, as far as it goes. */
  lemma {:induction false} PlannedIsSlice(dma: seq<Descriptor>, i: nat, rest: nat, left: nat, size: nat, total: nat)
    requires i <= |dma| && (left > 0 ==> ToDo(dma, total, i, rest)) && total <= |Addresses(dma)|
    requires size <= 0x1_0000_0000_0000_0000
    ensures var n := |Planned(dma, i, rest, left, size)|;
            && total + n <= |Addresses(dma)|
            && Planned(dma, i, rest, left, size) == Addresses(dma)[total..total + n]
    decreases |dma| - i
  {
    if left > 0 && i < |dma| && !OutOfMemory(dma[i], rest, left, size) {
      var sub := PieceSize(dma[i], rest, left);
      var piece := NextRange(dma, total, i, rest, left, size);
      PlannedIsSlice(dma, i + 1, 0, left - sub, size, total + sub);
      var more := Planned(dma, i + 1, 0, left - sub, size);
      assert Planned(dma, i, rest, left, size) == piece + more;
      JoinSlices(Addresses(dma), total, piece, more);
    }
  }

  lemma NextRange(dma: seq<Descriptor>, total: nat, i: nat, rest: nat, left: nat, size: nat) returns (piece: seq<nat>)
    requires i < |dma| && left > 0 && ToDo(dma, total, i, rest) && !OutOfMemory(dma[i], rest, left, size)
    requires size <= 0x1_0000_0000_0000_0000
    ensures var sub := PieceSize(dma[i], rest, left);
            && piece == Range(Wrap64(dma[i].start + rest), sub)
            && total + sub <= |Addresses(dma)| && piece == Addresses(dma)[total..total + sub]
            && (left > sub ==> ToDo(dma, total + sub, i + 1, 0))
  {
    var sub := PieceSize(dma[i], rest, left);
    NextPiece(dma, total, i, rest, sub);
    PlacesInARow(dma[i].start + rest, sub);
    piece := Range(Wrap64(dma[i].start + rest), sub);
  }

  /** They are all that is left iff the loop completes. */
  lemma {:induction false} PlannedCompletes(dma: seq<Descriptor>, i: nat, rest: nat, left: nat, size: nat)
    requires i <= |dma| && (left > 0 && i < |dma| ==> rest <= dma[i].count)
    ensures |Planned(dma, i, rest, left, size)| == left <==> Completes(dma, i, rest, left, size)
    decreases |dma| - i
  {
    if left > 0 && i < |dma| && !OutOfMemory(dma[i], rest, left, size) {
      PlannedCompletes(dma, i + 1, 0, left - PieceSize(dma[i], rest, left), size);
    }
  }

  /** If they are not, the slice or the memory ends. */
  lemma {:induction false} PlannedStops(dma: seq<Descriptor>, i: nat, rest: nat, left: nat, size: nat, total: nat)
    requires i <= |dma| && (left > 0 ==> ToDo(dma, total, i, rest))
    ensures var n := |Planned(dma, i, rest, left, size)|;
            n < left ==> total + n >= |Addresses(dma)| || Stuck(dma, total + n, left - n, size)
    decreases |dma| - i
  {
    if left > 0 && i < |dma| {
      if OutOfMemory(dma[i], rest, left, size) {
        assert StuckAt(dma, total, i, rest, left, size);
      } else {
        var sub := PieceSize(dma[i], rest, left);
        if left > sub {
          NextPiece(dma, total, i, rest, sub);
          PlannedStops(dma, i + 1, 0, left - sub, size, total + sub);
        }
      }
    }
  }

  lemma JoinSlices(a: seq<nat>, from: nat, x: seq<nat>, y: seq<nat>)
    requires from + |x| + |y| <= |a| && x == a[from..from + |x|] && y == a[from + |x|..from + |x| + |y|]
    ensures x + y == a[from..from + |x + y|]
  {
  }

  /** The two comparisons of the loop test whether the piece lies in memory. */
  lemma MemoryTest(d: Descriptor, rest: nat, left: nat, size: nat)
    requires rest <= d.count && size + left < 0x1_0000_0000_0000_0000
    ensures (Wrap64(d.start + rest) > size || Wrap64(d.start + rest + PieceSize(d, rest, left)) > size)
            <==> OutOfMemory(d, rest, left, size)
  {
    if Wrap64(d.start + rest) <= size {
      NoWrapBetween(d.start + rest, PieceSize(d, rest, left));
    }
  }

  /** The second loop, from descriptor `first` on and `skip` bytes into it. */
  method CopyFrom(buffer: array<byte>, len: nat, dma: seq<Descriptor>, copyOut: bool, mem: array<byte>, first: nat,
                  skip: nat) returns (failed: bool, ghost done: seq<nat>)
    requires buffer != mem && len <= buffer.Length && mem.Length + len < 0x1_0000_0000_0000_0000
    requires first < |dma| && skip <= dma[first].count
    modifies buffer, mem
    ensures done == Planned(dma, first, skip, len, mem.Length) && (failed <==> |done| < len)
    ensures Moved(done, copyOut, old(mem[..]), old(buffer[..]), mem[..], buffer[..])
  {
    ghost var m0, b0 := mem[..], buffer[..];
    ghost var plan := Planned(dma, first, skip, len, mem.Length);
    var i: nat, rest: nat, pos: nat, left: nat := first, skip, 0, len;
    done := [];
    while left > 0 && i < |dma|
      invariant i <= |dma| && (left > 0 && i < |dma| ==> rest <= dma[i].count)
      invariant pos + left == len && |done| == pos && done + Planned(dma, i, rest, left, mem.Length) == plan
      invariant Moved(done, copyOut, m0, b0, mem[..], buffer[..])
      decreases |dma| - i
    {
      var moved, sub, done' := CopyPiece(buffer, pos, left, mem, dma, i, rest, copyOut, done, m0, b0);
      done := done';
      if !moved {
        return true, done;
      }
      pos, left := pos + sub, left - sub;
      i, rest := i + 1, 0;
    }
    failed := left > 0;
    PlannedEnds(dma, i, rest, left, mem.Length, done);
  }

  /** One round of the second loop; it stops before a piece that does not lie in memory. */
  method CopyPiece(buffer: array<byte>, pos: nat, left: nat, mem: array<byte>, dma: seq<Descriptor>, i: nat, rest: nat,
                   copyOut: bool, ghost done: seq<nat>, ghost m0: seq<byte>, ghost b0: seq<byte>)
    returns (moved: bool, sub: nat, ghost done': seq<nat>)
    requires buffer != mem && 0 < left && pos + left <= buffer.Length && mem.Length + left < 0x1_0000_0000_0000_0000
    requires i < |dma| && rest <= dma[i].count && |done| == pos && |m0| == mem.Length && |b0| == buffer.Length
    requires Moved(done, copyOut, m0, b0, mem[..], buffer[..])
    modifies buffer, mem
    ensures Moved(done', copyOut, m0, b0, mem[..], buffer[..])
    ensures !moved ==> done' == done == done + Planned(dma, i, rest, left, mem.Length)
    ensures moved ==> && sub <= left && |done'| == pos + sub
                      && done + Planned(dma, i, rest, left, mem.Length)
                         == done' + Planned(dma, i + 1, 0, left - sub, mem.Length)
  {
    sub := dma[i].count - rest;
    if sub > left {
      sub := left;
    }
    var address := Wrap64(dma[i].start + rest);
    moved := !(address > mem.Length || Wrap64(dma[i].start + rest + sub) > mem.Length);
    MemoryTest(dma[i], rest, left, mem.Length);
    if moved {
      MovePiece(buffer, pos, mem, address, sub, copyOut, done, m0, b0);
      done' := done + Range(address, sub);
      PlannedStep(dma, i, rest, left, mem.Length, done, done');
    } else {
      done' := done;
    }
  }

  /** One `memcpy` of the second loop. */
  method MovePiece(buffer: array<byte>, pos: nat, mem: array<byte>, address: nat, sub: nat, copyOut: bool,
                   ghost done: seq<nat>, ghost m0: seq<byte>, ghost b0: seq<byte>)
    requires buffer != mem && address + sub <= mem.Length && pos + sub <= buffer.Length
    requires |m0| == mem.Length && |b0| == buffer.Length && |done| == pos
    requires Moved(done, copyOut, m0, b0, mem[..], buffer[..])
    modifies buffer, mem
    ensures Moved(done + Range(address, sub), copyOut, m0, b0, mem[..], buffer[..])
  {
    if copyOut {
      MovedOut(done, m0, b0, mem[..], Range(address, sub));
      CopyToMemory(mem, address, buffer, pos, sub);
    } else {
      MovedIn(done, m0, b0, buffer[..], Range(address, sub));
      CopyFromMemory(mem, address, buffer, pos, sub);
    }
  }
}
