/**
 TCP segmentation in model/intel82576vf.cc: one large packet is sent as many small ones from the
 same buffer, by rewriting its header and moving its payload down.
 */
module Segmentation {
  import opened Common
  import opened Packet

  /** A transmit context together with the checksum options of the descriptor. */
  datatype Context = Context(maclen: nat, iplen: nat, mss: nat, ipv6: bool, l4t: nat,
                             ixsm: bool, txsm: bool, ipsec: bool)

  const L4T_UDP := 0
  const L4T_TCP := 1
  const L4T_SCTP := 2

  /** A checksum over some bytes; its value is stored with the low byte first. */
  type Sum = seq<byte> -> nat

  // ---------------------------------------------------------------- checksums

  function Zeroed(p: seq<byte>, at: nat): seq<byte>
    requires at + 2 <= |p|
  {
    p[at := 0][at + 1 := 0]
  }

  /** The sum over the bytes from lo to hi, computed while its own field is zero, is in that field. */
  ghost predicate HasSum(p: seq<byte>, at: nat, sum: Sum, lo: nat, hi: nat) {
    && at + 2 <= |p| && lo <= hi <= |p|
    && p[at] == sum(p[at := 0][at + 1 := 0][lo..hi]) % 256
    && p[at + 1] == sum(p[at := 0][at + 1 := 0][lo..hi]) / 256 % 256
  }

  function Checked(p: seq<byte>, at: nat, sum: Sum, lo: nat, hi: nat): (r: seq<byte>)
    requires at + 2 <= |p| && lo <= hi <= |p|
    ensures |r| == |p| && HasSum(r, at, sum, lo, hi)
    ensures forall j :: 0 <= j < |p| && j != at && j != at + 1 ==> r[j] == p[j]
  {
    var v := sum(Zeroed(p, at)[lo..hi]);
    var r := p[at := v % 256][at + 1 := v / 256 % 256];
    assert Zeroed(r, at) == Zeroed(p, at);
    r
  }

  /** The places of the header fields. */
  function LengthAt(c: Context): nat { c.maclen + if c.ipv6 then 4 else 2 }

  function IdAt(c: Context): nat { c.maclen + 4 }

  function SeqAt(c: Context): nat { c.maclen + c.iplen + 4 }

  function FlagsAt(c: Context): nat { c.maclen + c.iplen + 13 }

  function IpSumAt(c: Context): nat { c.maclen + 10 }

  function L4SumAt(c: Context): nat { c.maclen + c.iplen + if c.l4t == L4T_UDP then 6 else 16 }

  predicate IpSummed(c: Context) { !c.ipsec && c.ixsm && !c.ipv6 }

  predicate L4Summed(c: Context) { !c.ipsec && c.txsm && (c.l4t == L4T_UDP || c.l4t == L4T_TCP) }

  /** The buffer after `apply_offload` on its first len bytes. */
  function Offloaded(p: seq<byte>, len: nat, c: Context, ipSum: Sum, l4Sum: Sum): (r: seq<byte>)
    requires len <= |p| && c.maclen + c.iplen + 18 <= |p|
    ensures |r| == |p|
  {
    if c.maclen + c.iplen > len then p
    else
      var q := if IpSummed(c) then Checked(p, IpSumAt(c), ipSum, c.maclen, c.maclen + c.iplen) else p;
      if L4Summed(c) then Checked(q, L4SumAt(c), l4Sum, 0, len) else q
  }

  // ---------------------------------------------------------------- one segment

  /** The header covers the fields of TCP, and its fields do not overlap. */
  predicate Layout(c: Context, headerLen: nat) {
    c.iplen >= 12 && c.maclen + c.iplen + 18 <= headerLen
  }

  /** The header bytes that segmentation writes. */
  predicate Touched(c: Context, j: int) {
    || LengthAt(c) <= j < LengthAt(c) + 2
    || (!c.ipv6 && IdAt(c) <= j < IdAt(c) + 2)
    || (c.l4t == L4T_TCP && (SeqAt(c) <= j < SeqAt(c) + 4 || j == FlagsAt(c)))
    || IsSumByte(c, j)
  }

  ghost predicate SameHeader(p: seq<byte>, q: seq<byte>, c: Context, headerLen: nat) {
    headerLen <= |p| && headerLen <= |q| && forall j :: 0 <= j < headerLen && !Touched(c, j) ==> p[j] == q[j]
  }

  /** The buffer with length, flags and payload of a segment in place, before its checksums. */
  function Filled(p: seq<byte>, c: Context, headerLen: nat, sent: nat, chunk: nat, flags: byte): (r: seq<byte>)
    requires Layout(c, headerLen) && headerLen + sent + chunk <= |p|
    ensures |r| == |p|
  {
    var q := WithFields(p, c, headerLen, (chunk + headerLen - c.maclen) % 65536, flags);
    if sent != 0 then Moved(q, headerLen, headerLen + sent, chunk) else q
  }

  function WithFields(p: seq<byte>, c: Context, headerLen: nat, length: nat, flags: byte): (r: seq<byte>)
    requires Layout(c, headerLen) && headerLen <= |p| && length < 65536
    ensures |r| == |p|
  {
    var q := Put16(p, LengthAt(c), length);
    if c.l4t == L4T_TCP then q[FlagsAt(c) := flags] else q
  }

  /** The buffer with the identification and the sequence number of the next segment. */
  function Advanced(p: seq<byte>, c: Context, headerLen: nat, chunk: nat): (r: seq<byte>)
    requires Layout(c, headerLen) && headerLen <= |p|
    ensures |r| == |p|
  {
    var q := if c.ipv6 then p else Put16(p, IdAt(c), (Be16(p, IdAt(c)) + 1) % 65536);
    if c.l4t == L4T_TCP then Put32(q, SeqAt(c), (Be32(q, SeqAt(c)) + chunk) % 0x1_0000_0000) else q
  }

  /** The header before segment i, of which `sent` bytes of payload were sent before. */
  ghost predicate HeaderAt(p: seq<byte>, p0: seq<byte>, c: Context, headerLen: nat, i: nat, sent: nat)
    requires Layout(c, headerLen)
  {
    && |p| == |p0| && SameHeader(p, p0, c, headerLen)
    && (!c.ipv6 ==> Be16(p, IdAt(c)) == (Be16(p0, IdAt(c)) + i) % 65536)
    && (c.l4t == L4T_TCP ==> Be32(p, SeqAt(c)) == (Be32(p0, SeqAt(c)) + sent) % 0x1_0000_0000)
  }

  /** The flags of a segment: all of the original ones only for the last segment. */
  function FlagsOf(p0: seq<byte>, c: Context, last: bool): byte
    requires FlagsAt(c) < |p0|
  {
    if last then p0[FlagsAt(c)] else WithoutFinPsh(p0[FlagsAt(c)])
  }

  /** What a segment must be: its payload, its own fields, valid checksums, and else the original header. */
  ghost predicate IsSegment(seg: seq<byte>, p0: seq<byte>, c: Context, headerLen: nat, i: nat, sent: nat, chunk: nat,
                            last: bool, ipSum: Sum, l4Sum: Sum)
    requires Layout(c, headerLen) && headerLen + sent + chunk <= |p0|
  {
    && |seg| == headerLen + chunk
    && seg[headerLen..] == p0[headerLen + sent..headerLen + sent + chunk]
    && SameHeader(seg, p0, c, headerLen)
    && Be16(seg, LengthAt(c)) == (chunk + headerLen - c.maclen) % 65536
    && (!c.ipv6 ==> Be16(seg, IdAt(c)) == (Be16(p0, IdAt(c)) + i) % 65536)
    && (c.l4t == L4T_TCP ==> Be32(seg, SeqAt(c)) == (Be32(p0, SeqAt(c)) + sent) % 0x1_0000_0000)
    && (c.l4t == L4T_TCP ==> seg[FlagsAt(c)] == FlagsOf(p0, c, last))
    && (IpSummed(c) ==> HasSum(seg, IpSumAt(c), ipSum, c.maclen, c.maclen + c.iplen))
    && (L4Summed(c) ==> HasSum(seg, L4SumAt(c), l4Sum, 0, |seg|))
  }

  // ---------------------------------------------------------------- proof of one segment

  ghost predicate SameFrom(p: seq<byte>, q: seq<byte>, from: nat) {
    |p| == |q| && forall j :: from <= j < |p| ==> p[j] == q[j]
  }

  /** Length, flags and payload of a segment are in place. */
  ghost predicate Carries(p: seq<byte>, p0: seq<byte>, c: Context, headerLen: nat, sent: nat, chunk: nat, flags: byte)
    requires Layout(c, headerLen) && headerLen + sent + chunk <= |p0|
  {
    && |p| == |p0|
    && Be16(p, LengthAt(c)) == (chunk + headerLen - c.maclen) % 65536
    && (c.l4t == L4T_TCP ==> p[FlagsAt(c)] == flags)
    && forall j :: headerLen <= j < headerLen + chunk ==> p[j] == p0[j + sent]
  }

  lemma FilledHeader(p: seq<byte>, p0: seq<byte>, c: Context, headerLen: nat, i: nat, sent: nat, chunk: nat,
                     flags: byte)
    requires Layout(c, headerLen) && headerLen + sent + chunk <= |p| && HeaderAt(p, p0, c, headerLen, i, sent)
    ensures HeaderAt(Filled(p, c, headerLen, sent, chunk, flags), p0, c, headerLen, i, sent)
  {
  }

  lemma FilledCarries(p: seq<byte>, p0: seq<byte>, c: Context, headerLen: nat, sent: nat, chunk: nat, flags: byte)
    requires Layout(c, headerLen) && headerLen + sent + chunk <= |p| && SameFrom(p, p0, headerLen + sent)
    ensures Carries(Filled(p, c, headerLen, sent, chunk, flags), p0, c, headerLen, sent, chunk, flags)
  {
  }

  /** Moving a chunk down does not reach the payload behind it. */
  lemma FilledTail(p: seq<byte>, p0: seq<byte>, c: Context, headerLen: nat, sent: nat, chunk: nat, flags: byte)
    requires Layout(c, headerLen) && headerLen + sent + chunk <= |p| && SameFrom(p, p0, headerLen + sent)
    ensures SameFrom(Filled(p, c, headerLen, sent, chunk, flags), p0, headerLen + sent + chunk)
  {
  }

  /** At most the checksum fields differ. */
  ghost predicate OnlySums(p: seq<byte>, r: seq<byte>, c: Context) {
    |r| == |p| && forall j :: 0 <= j < |p| && !IsSumByte(c, j) ==> r[j] == p[j]
  }

  predicate IsSumByte(c: Context, j: int) {
    || (IpSummed(c) && IpSumAt(c) <= j < IpSumAt(c) + 2)
    || (L4Summed(c) && L4SumAt(c) <= j < L4SumAt(c) + 2)
  }

  /** Computing the checksums changes their own fields only. */
  lemma OffloadFootprint(p: seq<byte>, len: nat, c: Context, ipSum: Sum, l4Sum: Sum)
    requires len <= |p| && c.maclen + c.iplen + 18 <= |p|
    ensures OnlySums(p, Offloaded(p, len, c, ipSum, l4Sum), c)
  {
  }

  /** The checksums are those of the whole segment, although they are computed one after the other. */
  lemma OffloadSums(p: seq<byte>, len: nat, c: Context, ipSum: Sum, l4Sum: Sum)
    requires len <= |p| && c.iplen >= 12 && c.maclen + c.iplen <= len && c.maclen + c.iplen + 18 <= |p|
    ensures IpSummed(c) ==> HasSum(Offloaded(p, len, c, ipSum, l4Sum), IpSumAt(c), ipSum, c.maclen, c.maclen + c.iplen)
    ensures L4Summed(c) ==> HasSum(Offloaded(p, len, c, ipSum, l4Sum), L4SumAt(c), l4Sum, 0, len)
  {
    if IpSummed(c) {
      var q := Checked(p, IpSumAt(c), ipSum, c.maclen, c.maclen + c.iplen);
      var r := Offloaded(p, len, c, ipSum, l4Sum);
      assert Zeroed(q, IpSumAt(c))[c.maclen..c.maclen + c.iplen] == Zeroed(r, IpSumAt(c))[c.maclen..c.maclen + c.iplen];
    }
  }

  /** A checksum does not depend on what follows the segment in the buffer. */
  lemma SumOfPrefix(p: seq<byte>, len: nat, at: nat, sum: Sum, lo: nat, hi: nat)
    requires HasSum(p, at, sum, lo, hi) && hi <= len <= |p| && at + 2 <= len
    ensures HasSum(p[..len], at, sum, lo, hi)
  {
    assert Zeroed(p, at)[lo..hi] == Zeroed(p[..len], at)[lo..hi];
  }

  lemma AdvancedHeader(p: seq<byte>, p0: seq<byte>, c: Context, headerLen: nat, i: nat, sent: nat, chunk: nat)
    requires Layout(c, headerLen) && headerLen <= |p| && HeaderAt(p, p0, c, headerLen, i, sent)
    ensures HeaderAt(Advanced(p, c, headerLen, chunk), p0, c, headerLen, i + 1, sent + chunk)
    ensures SameFrom(Advanced(p, c, headerLen, chunk), p, headerLen)
  {
    if !c.ipv6 {
      AddTwice16(Be16(p0, IdAt(c)), i);
    }
    if c.l4t == L4T_TCP {
      AddTwice32(Be32(p0, SeqAt(c)), sent, chunk);
    }
  }

  lemma AddTwice16(a: nat, b: nat)
    ensures ((a + b) % 65536 + 1) % 65536 == (a + (b + 1)) % 65536
  {
  }

  lemma AddTwice32(a: nat, b: nat, d: nat)
    ensures ((a + b) % 0x1_0000_0000 + d) % 0x1_0000_0000 == (a + (b + d)) % 0x1_0000_0000
  {
  }

  /** The first bytes of a filled and summed buffer are the segment. */
  lemma PrefixIsSegment(r: seq<byte>, p0: seq<byte>, c: Context, headerLen: nat, i: nat, sent: nat, chunk: nat,
                        last: bool, ipSum: Sum, l4Sum: Sum)
    requires Layout(c, headerLen) && headerLen + sent + chunk <= |p0|
    requires HeaderAt(r, p0, c, headerLen, i, sent)
    requires Carries(r, p0, c, headerLen, sent, chunk, FlagsOf(p0, c, last))
    requires IpSummed(c) ==> HasSum(r, IpSumAt(c), ipSum, c.maclen, c.maclen + c.iplen)
    requires L4Summed(c) ==> HasSum(r, L4SumAt(c), l4Sum, 0, headerLen + chunk)
    ensures IsSegment(r[..headerLen + chunk], p0, c, headerLen, i, sent, chunk, last, ipSum, l4Sum)
  {
    PrefixSums(r, headerLen + chunk, c, ipSum, l4Sum);
    PrefixPayload(r, p0, c, headerLen, sent, chunk, FlagsOf(p0, c, last));
  }

  lemma PrefixSums(r: seq<byte>, len: nat, c: Context, ipSum: Sum, l4Sum: Sum)
    requires c.iplen >= 12 && c.maclen + c.iplen + 18 <= len <= |r|
    requires IpSummed(c) ==> HasSum(r, IpSumAt(c), ipSum, c.maclen, c.maclen + c.iplen)
    requires L4Summed(c) ==> HasSum(r, L4SumAt(c), l4Sum, 0, len)
    ensures IpSummed(c) ==> HasSum(r[..len], IpSumAt(c), ipSum, c.maclen, c.maclen + c.iplen)
    ensures L4Summed(c) ==> HasSum(r[..len], L4SumAt(c), l4Sum, 0, |r[..len]|)
  {
    if IpSummed(c) {
      SumOfPrefix(r, len, IpSumAt(c), ipSum, c.maclen, c.maclen + c.iplen);
    }
    if L4Summed(c) {
      SumOfPrefix(r, len, L4SumAt(c), l4Sum, 0, len);
    }
  }

  lemma PrefixPayload(r: seq<byte>, p0: seq<byte>, c: Context, headerLen: nat, sent: nat, chunk: nat, flags: byte)
    requires Layout(c, headerLen) && headerLen + sent + chunk <= |p0|
    requires Carries(r, p0, c, headerLen, sent, chunk, flags)
    ensures r[..headerLen + chunk][headerLen..] == p0[headerLen + sent..headerLen + sent + chunk]
  {
  }

  lemma SumsKeepHeader(q: seq<byte>, r: seq<byte>, p0: seq<byte>, c: Context, headerLen: nat, i: nat, sent: nat)
    requires Layout(c, headerLen) && headerLen <= |q| && HeaderAt(q, p0, c, headerLen, i, sent) && OnlySums(q, r, c)
    ensures HeaderAt(r, p0, c, headerLen, i, sent)
  {
  }

  lemma SumsKeepPayload(q: seq<byte>, r: seq<byte>, p0: seq<byte>, c: Context, headerLen: nat, sent: nat, chunk: nat,
                        flags: byte)
    requires Layout(c, headerLen) && headerLen + sent + chunk <= |p0| && OnlySums(q, r, c)
    requires Carries(q, p0, c, headerLen, sent, chunk, flags)
    ensures Carries(r, p0, c, headerLen, sent, chunk, flags) && SameFrom(r, q, headerLen)
  {
  }

  // ---------------------------------------------------------------- all segments

  /** The bytes sent before segment i. */
  function Start(i: nat, mss: nat): nat {
    if i == 0 then 0 else Start(i - 1, mss) + mss
  }

  function ChunkOf(start: nat, mss: nat, paylen: nat): nat
    requires start <= paylen
  {
    if paylen - start > mss then mss else paylen - start
  }

  /** Segment i of the payload. */
  ghost predicate IsSegmentNumber(seg: seq<byte>, p0: seq<byte>, c: Context, headerLen: nat, paylen: nat, i: nat,
                                  ipSum: Sum, l4Sum: Sum)
    requires Layout(c, headerLen) && headerLen + paylen <= |p0|
  {
    var start := Start(i, c.mss);
    && start < paylen
    && IsSegment(seg, p0, c, headerLen, i, start, ChunkOf(start, c.mss, paylen), start + c.mss >= paylen, ipSum, l4Sum)
  }

  ghost predicate AreSegments(out: seq<seq<byte>>, p0: seq<byte>, c: Context, headerLen: nat, paylen: nat,
                              ipSum: Sum, l4Sum: Sum)
    requires Layout(c, headerLen) && headerLen + paylen <= |p0|
  {
    forall i :: 0 <= i < |out| ==> IsSegmentNumber(out[i], p0, c, headerLen, paylen, i, ipSum, l4Sum)
  }

  function Payload(seg: seq<byte>, headerLen: nat): seq<byte> {
    if headerLen <= |seg| then seg[headerLen..] else []
  }

  /** The payloads of the segments, one after the other. */
  function Joined(out: seq<seq<byte>>, headerLen: nat): seq<byte> {
    if out == [] then [] else Joined(out[..|out| - 1], headerLen) + Payload(out[|out| - 1], headerLen)
  }

  lemma {:induction false} StartIsProduct(i: nat, mss: nat)
    ensures Start(i, mss) == i * mss
  {
    if i > 0 {
      StartIsProduct(i - 1, mss);
      assert i * mss == (i - 1) * mss + mss;
    }
  }

  /** The payload of each segment is the next piece of the original. */
  ghost predicate ArePieces(out: seq<seq<byte>>, headerLen: nat, data: seq<byte>, mss: nat) {
    forall i :: 0 <= i < |out| ==> IsPiece(out[i], headerLen, data, mss, i)
  }

  ghost predicate IsPiece(seg: seq<byte>, headerLen: nat, data: seq<byte>, mss: nat, i: nat) {
    var start := Start(i, mss);
    start < |data| && Payload(seg, headerLen) == data[start..start + ChunkOf(start, mss, |data|)]
  }

  /** The first n payloads join to the first n pieces. */
  lemma {:induction false} PiecesJoin(out: seq<seq<byte>>, headerLen: nat, data: seq<byte>, mss: nat, n: nat)
    requires ArePieces(out, headerLen, data, mss) && n <= |out|
    ensures Joined(out[..n], headerLen) == if Start(n, mss) < |data| then data[..Start(n, mss)] else data
  {
    if n == 0 {
      assert Start(0, mss) == 0;
    } else {
      PiecesJoin(out, headerLen, data, mss, n - 1);
      assert IsPiece(out[n - 1], headerLen, data, mss, n - 1);
      JoinedNext(out, headerLen, data, mss, n - 1);
    }
  }

  lemma JoinedNext(out: seq<seq<byte>>, headerLen: nat, data: seq<byte>, mss: nat, n: nat)
    requires n < |out| && IsPiece(out[n], headerLen, data, mss, n)
    requires Joined(out[..n], headerLen) == data[..Start(n, mss)]
    ensures Joined(out[..n + 1], headerLen)
            == if Start(n + 1, mss) < |data| then data[..Start(n + 1, mss)] else data
  {
    var joined, piece := Joined(out[..n], headerLen), Payload(out[n], headerLen);
    assert Joined(out[..n + 1], headerLen) == joined + piece by {
      assert out[..n + 1][..n] == out[..n];
    }
    NextPiece(joined, piece, data, Start(n, mss), mss);
  }

  lemma NextPiece(joined: seq<byte>, piece: seq<byte>, data: seq<byte>, start: nat, mss: nat)
    requires start < |data| && joined == data[..start]
    requires piece == data[start..start + ChunkOf(start, mss, |data|)]
    ensures joined + piece == if start + mss < |data| then data[..start + mss] else data
  {
  }

  lemma SegmentIsPiece(seg: seq<byte>, p0: seq<byte>, c: Context, headerLen: nat, paylen: nat, i: nat,
                       ipSum: Sum, l4Sum: Sum)
    requires Layout(c, headerLen) && headerLen + paylen <= |p0|
    requires IsSegmentNumber(seg, p0, c, headerLen, paylen, i, ipSum, l4Sum)
    ensures IsPiece(seg, headerLen, p0[headerLen..headerLen + paylen], c.mss, i)
  {
    SliceOfSlice(p0, headerLen, paylen, Start(i, c.mss), ChunkOf(Start(i, c.mss), c.mss, paylen));
  }

  lemma SliceOfSlice(p: seq<byte>, from: nat, len: nat, a: nat, b: nat)
    requires a + b <= len && from + len <= |p|
    ensures p[from..from + len][a..a + b] == p[from + a..from + a + b]
  {
    var q := p[from..from + len];
    assert forall k :: a <= k < a + b ==> q[k] == p[from + k];
  }

  /** The payloads of all segments join to the original payload. */
  lemma PayloadConserved(out: seq<seq<byte>>, p0: seq<byte>, c: Context, headerLen: nat, paylen: nat,
                         ipSum: Sum, l4Sum: Sum)
    requires Layout(c, headerLen) && headerLen + paylen <= |p0|
    requires AreSegments(out, p0, c, headerLen, paylen, ipSum, l4Sum) && paylen <= Start(|out|, c.mss)
    ensures Joined(out, headerLen) == p0[headerLen..headerLen + paylen]
  {
    var data := p0[headerLen..headerLen + paylen];
    forall i | 0 <= i < |out|
      ensures IsPiece(out[i], headerLen, data, c.mss, i)
    {
      SegmentIsPiece(out[i], p0, c, headerLen, paylen, i, ipSum, l4Sum);
    }
    PiecesJoin(out, headerLen, data, c.mss, |out|);
    assert out[..|out|] == out;
  }

  /** The bytes of the header that a segment may differ in, by their places in the IP, TCP and UDP headers. */
  predicate FieldByte(c: Context, j: int) {
    var ip, l4 := c.maclen, c.maclen + c.iplen;
    || (if c.ipv6 then ip + 4 <= j < ip + 6 else ip + 2 <= j < ip + 6)
    || (c.l4t == 1 && (l4 + 4 <= j < l4 + 8 || j == l4 + 13))
    || (!c.ipsec && c.ixsm && !c.ipv6 && ip + 10 <= j < ip + 12)
    || (!c.ipsec && c.txsm && c.l4t == 1 && l4 + 16 <= j < l4 + 18)
    || (!c.ipsec && c.txsm && c.l4t == 0 && l4 + 6 <= j < l4 + 8)
  }

  /** FIN and PSH are cleared, the other flags are those of the original. */
  predicate ClearsFinPsh(f: byte, g: byte) {
    f % 2 == 0 && f / 8 % 2 == 0 && f / 2 % 4 == g / 2 % 4 && f / 16 == g / 16
  }

  /**
   Segment i with `chunk` bytes of payload after `sent` bytes that were sent before, byte by byte: total length,
   identification and header checksum of section 3.1 of RFC 791, payload length of section 3 of RFC 8200,
   sequence number, flags and checksum of section 3.1 of RFC 793, UDP checksum of RFC 768.
   */
  ghost predicate OnTheWire(seg: seq<byte>, p0: seq<byte>, c: Context, headerLen: nat, i: nat, sent: nat, chunk: nat,
                            last: bool, ipSum: Sum, l4Sum: Sum)
    requires Layout(c, headerLen) && headerLen + sent + chunk <= |p0|
  {
    var ip, l4 := c.maclen, c.maclen + c.iplen;
    && |seg| == headerLen + chunk
    && seg[headerLen..] == p0[headerLen + sent..headerLen + sent + chunk]
    && KeepsOtherBytes(seg, p0, c, headerLen)
    && Be16(seg, if c.ipv6 then ip + 4 else ip + 2) == (|seg| - c.maclen) % 65536
    && (!c.ipv6 ==> Be16(seg, ip + 4) == (Be16(p0, ip + 4) + i) % 65536)
    && (c.l4t == 1 ==> Be32(seg, l4 + 4) == (Be32(p0, l4 + 4) + sent) % 0x1_0000_0000)
    && (c.l4t == 1 ==> if last then seg[l4 + 13] == p0[l4 + 13] else ClearsFinPsh(seg[l4 + 13], p0[l4 + 13]))
    && SumsOnTheWire(seg, c, ipSum, l4Sum)
  }

  ghost predicate KeepsOtherBytes(seg: seq<byte>, p0: seq<byte>, c: Context, headerLen: nat)
    requires headerLen <= |seg| && headerLen <= |p0|
  {
    forall j :: 0 <= j < headerLen && !FieldByte(c, j) ==> seg[j] == p0[j]
  }

  ghost predicate SumsOnTheWire(seg: seq<byte>, c: Context, ipSum: Sum, l4Sum: Sum) {
    var ip, l4 := c.maclen, c.maclen + c.iplen;
    && (!c.ipsec && c.ixsm && !c.ipv6 ==> HasSum(seg, ip + 10, ipSum, ip, l4))
    && (!c.ipsec && c.txsm && c.l4t == 1 ==> HasSum(seg, l4 + 16, l4Sum, 0, |seg|))
    && (!c.ipsec && c.txsm && c.l4t == 0 ==> HasSum(seg, l4 + 6, l4Sum, 0, |seg|))
  }

  lemma SegmentOnTheWire(seg: seq<byte>, p0: seq<byte>, c: Context, headerLen: nat, i: nat, sent: nat, chunk: nat,
                         last: bool, ipSum: Sum, l4Sum: Sum)
    requires Layout(c, headerLen) && headerLen + sent + chunk <= |p0|
    requires IsSegment(seg, p0, c, headerLen, i, sent, chunk, last, ipSum, l4Sum)
    ensures OnTheWire(seg, p0, c, headerLen, i, sent, chunk, last, ipSum, l4Sum)
  {
    OtherBytesKept(seg, p0, c, headerLen);
    SumsAreOnTheWire(seg, c, ipSum, l4Sum);
  }

  lemma OtherBytesKept(seg: seq<byte>, p0: seq<byte>, c: Context, headerLen: nat)
    requires SameHeader(seg, p0, c, headerLen)
    ensures KeepsOtherBytes(seg, p0, c, headerLen)
  {
    forall j | 0 <= j < headerLen && !FieldByte(c, j)
      ensures seg[j] == p0[j]
    {
      assert !Touched(c, j);
    }
  }

  lemma SumsAreOnTheWire(seg: seq<byte>, c: Context, ipSum: Sum, l4Sum: Sum)
    requires IpSummed(c) ==> HasSum(seg, IpSumAt(c), ipSum, c.maclen, c.maclen + c.iplen)
    requires L4Summed(c) ==> HasSum(seg, L4SumAt(c), l4Sum, 0, |seg|)
    ensures SumsOnTheWire(seg, c, ipSum, l4Sum)
  {
  }

  /**
   The payload is cut into pieces of the maximal size, the last of which may be smaller. All segments but the last
   carry neither FIN nor PSH; the last one has the original flags.
   */
  lemma SegmentShape(out: seq<seq<byte>>, p0: seq<byte>, c: Context, headerLen: nat, paylen: nat, i: nat,
                     ipSum: Sum, l4Sum: Sum) returns (sent: nat, chunk: nat)
    requires Layout(c, headerLen) && headerLen + paylen <= |p0| && i < |out|
    requires AreSegments(out, p0, c, headerLen, paylen, ipSum, l4Sum) && paylen <= Start(|out|, c.mss)
    ensures (|out| - 1) * c.mss < paylen <= |out| * c.mss && sent == i * c.mss
    ensures 0 < chunk <= c.mss && sent + chunk <= paylen
    ensures if i == |out| - 1 then sent + chunk == paylen else chunk == c.mss
    ensures OnTheWire(out[i], p0, c, headerLen, i, sent, chunk, i == |out| - 1, ipSum, l4Sum)
  {
    StartOfLast(out, p0, c, headerLen, paylen, ipSum, l4Sum);
    sent, chunk := CutOf(|out|, i, c.mss, paylen);
    assert IsSegmentNumber(out[i], p0, c, headerLen, paylen, i, ipSum, l4Sum);
    SegmentOnTheWire(out[i], p0, c, headerLen, i, sent, chunk, i == |out| - 1, ipSum, l4Sum);
  }

  /** Where piece i of n begins, and how long it is. */
  lemma CutOf(n: nat, i: nat, mss: nat, paylen: nat) returns (start: nat, chunk: nat)
    requires i < n && Start(n - 1, mss) < paylen <= Start(n, mss)
    ensures (n - 1) * mss < paylen <= n * mss
    ensures start == i * mss && 0 < chunk <= mss && start + chunk <= paylen
    ensures if i == n - 1 then start + chunk == paylen else chunk == mss
    ensures start == Start(i, mss) < paylen && chunk == ChunkOf(start, mss, paylen)
    ensures start + mss >= paylen <==> i == n - 1
  {
    StartIsProduct(i, mss);
    StartIsProduct(n - 1, mss);
    StartIsProduct(n, mss);
    StartIsMonotone(i, n - 1, mss);
    LastIffEnd(n, i, mss, paylen);
    start := Start(i, mss);
    chunk := ChunkOf(start, mss, paylen);
  }

  /** Only the last segment reaches the end of the payload. */
  lemma LastIffEnd(n: nat, i: nat, mss: nat, paylen: nat)
    requires i < n && Start(n - 1, mss) < paylen <= Start(n, mss)
    ensures i == n - 1 <==> Start(i, mss) + mss >= paylen
  {
    if i < n - 1 {
      StartIsMonotone(i + 1, n - 1, mss);
    }
  }

  /**
   The length field is the length of the IP datagram with its header iff that fits 16 bits. For
   IPv6 the standard counts what follows the 40 bytes of the header; the field never holds that.
   */
  lemma LengthField(seg: seq<byte>, p0: seq<byte>, c: Context, headerLen: nat, i: nat, sent: nat, chunk: nat,
                    last: bool, ipSum: Sum, l4Sum: Sum)
    requires Layout(c, headerLen) && headerLen + sent + chunk <= |p0|
    requires IsSegment(seg, p0, c, headerLen, i, sent, chunk, last, ipSum, l4Sum)
    ensures Be16(seg, LengthAt(c)) == |seg| - c.maclen <==> |seg| - c.maclen < 65536
    ensures Be16(seg, LengthAt(c)) != (|seg| - c.maclen - 40) % 65536
  {
    FortyLess(|seg| - c.maclen);
  }

  lemma FortyLess(n: nat)
    ensures n % 65536 != (n - 40) % 65536
  {
  }

  lemma StartOfLast(out: seq<seq<byte>>, p0: seq<byte>, c: Context, headerLen: nat, paylen: nat, ipSum: Sum, l4Sum: Sum)
    requires Layout(c, headerLen) && headerLen + paylen <= |p0| && out != []
    requires AreSegments(out, p0, c, headerLen, paylen, ipSum, l4Sum)
    ensures Start(|out| - 1, c.mss) < paylen
  {
    assert IsSegmentNumber(out[|out| - 1], p0, c, headerLen, paylen, |out| - 1, ipSum, l4Sum);
  }

  lemma {:induction false} StartIsMonotone(i: nat, j: nat, mss: nat)
    requires i <= j
    ensures Start(i, mss) <= Start(j, mss)
    decreases j - i
  {
    if i < j {
      StartIsMonotone(i, j - 1, mss);
    }
  }

  lemma OriginalHeader(p0: seq<byte>, c: Context, headerLen: nat)
    requires Layout(c, headerLen) && headerLen <= |p0|
    ensures HeaderAt(p0, p0, c, headerLen, 0, 0) && SameFrom(p0, p0, headerLen)
  {
  }

  lemma NumberSegment(seg: seq<byte>, p0: seq<byte>, c: Context, headerLen: nat, paylen: nat, i: nat, sent: nat,
                      chunk: nat, last: bool, ipSum: Sum, l4Sum: Sum)
    requires Layout(c, headerLen) && headerLen + paylen <= |p0| && sent < paylen && sent == Start(i, c.mss)
    requires chunk == ChunkOf(sent, c.mss, paylen) && last == (sent + c.mss >= paylen)
    requires IsSegment(seg, p0, c, headerLen, i, sent, chunk, last, ipSum, l4Sum)
    ensures IsSegmentNumber(seg, p0, c, headerLen, paylen, i, ipSum, l4Sum)
    ensures if last then paylen <= Start(i + 1, c.mss) else sent + chunk == Start(i + 1, c.mss)
  {
  }

  lemma AppendSegment(out: seq<seq<byte>>, seg: seq<byte>, p0: seq<byte>, c: Context, headerLen: nat, paylen: nat,
                      sent: nat, chunk: nat, last: bool, ipSum: Sum, l4Sum: Sum)
    requires Layout(c, headerLen) && headerLen + paylen <= |p0| && sent < paylen && sent == Start(|out|, c.mss)
    requires chunk == ChunkOf(sent, c.mss, paylen) && last == (sent + c.mss >= paylen)
    requires AreSegments(out, p0, c, headerLen, paylen, ipSum, l4Sum)
    requires IsSegment(seg, p0, c, headerLen, |out|, sent, chunk, last, ipSum, l4Sum)
    ensures AreSegments(out + [seg], p0, c, headerLen, paylen, ipSum, l4Sum)
    ensures if last then paylen <= Start(|out + [seg]|, c.mss) else sent + chunk == Start(|out + [seg]|, c.mss)
  {
    NumberSegment(seg, p0, c, headerLen, paylen, |out|, sent, chunk, last, ipSum, l4Sum);
  }

  // ---------------------------------------------------------------- in place

  method StoreSum(packet: array<byte>, at: nat, sum: Sum, lo: nat, hi: nat)
    requires at + 2 <= packet.Length && lo <= hi <= packet.Length
    modifies packet
    ensures packet[..] == Checked(old(packet[..]), at, sum, lo, hi)
  {
    packet[at] := 0;
    packet[at + 1] := 0;
    assert packet[..] == Zeroed(old(packet[..]), at);
    assert packet[lo..hi] == packet[..][lo..hi];
    var v := sum(packet[lo..hi]);
    packet[at] := v % 256;
    packet[at + 1] := v / 256 % 256;
  }

  method ApplyOffload(packet: array<byte>, len: nat, c: Context, ipSum: Sum, l4Sum: Sum)
    requires len <= packet.Length && c.maclen + c.iplen + 18 <= packet.Length
    modifies packet
    ensures packet[..] == Offloaded(old(packet[..]), len, c, ipSum, l4Sum)
  {
    if !c.ixsm && !c.txsm && !c.ipsec {
      return;
    }
    if c.maclen + c.iplen > len {
      return;
    }
    if c.ipsec {
      return;
    }
    if c.ixsm && !c.ipv6 {
      StoreSum(packet, c.maclen + 10, ipSum, c.maclen, c.maclen + c.iplen);
    }
    if c.txsm && (c.l4t == L4T_UDP || c.l4t == L4T_TCP) {
      StoreSum(packet, c.maclen + c.iplen + (if c.l4t == L4T_UDP then 6 else 16), l4Sum, 0, len);
    }
  }

  method StoreFields(packet: array<byte>, c: Context, headerLen: nat, length: nat, flags: byte)
    requires Layout(c, headerLen) && headerLen <= packet.Length && length < 65536
    modifies packet
    ensures packet[..] == WithFields(old(packet[..]), c, headerLen, length, flags)
  {
    Store16(packet, LengthAt(c), length);
    if c.l4t == L4T_TCP {
      packet[FlagsAt(c)] := flags;
    }
  }

  method FillSegment(packet: array<byte>, c: Context, headerLen: nat, sent: nat, chunk: nat, flags: byte)
    requires Layout(c, headerLen) && headerLen + sent + chunk <= packet.Length
    modifies packet
    ensures packet[..] == Filled(old(packet[..]), c, headerLen, sent, chunk, flags)
  {
    StoreFields(packet, c, headerLen, (chunk + headerLen - c.maclen) % 65536, flags);
    if sent != 0 {
      MoveDown(packet, headerLen, headerLen + sent, chunk);
    }
  }

  method AdvanceHeader(packet: array<byte>, c: Context, headerLen: nat, chunk: nat)
    requires Layout(c, headerLen) && headerLen <= packet.Length
    modifies packet
    ensures packet[..] == Advanced(old(packet[..]), c, headerLen, chunk)
  {
    if !c.ipv6 {
      Store16(packet, IdAt(c), (Be16(packet[..], IdAt(c)) + 1) % 65536);
    }
    if c.l4t == L4T_TCP {
      Store32(packet, SeqAt(c), (Be32(packet[..], SeqAt(c)) + chunk) % 0x1_0000_0000);
    }
  }

  /** One round of the loop: the segment sent, and the buffer ready for the next one. */
  method SendSegment(packet: array<byte>, c: Context, headerLen: nat, sent: nat, chunk: nat, flags: byte, last: bool,
                     ipSum: Sum, l4Sum: Sum, ghost p0: seq<byte>, ghost i: nat) returns (seg: seq<byte>)
    requires Layout(c, headerLen) && headerLen + sent + chunk <= packet.Length == |p0|
    requires HeaderAt(packet[..], p0, c, headerLen, i, sent) && SameFrom(packet[..], p0, headerLen + sent)
    requires flags == FlagsOf(p0, c, last)
    modifies packet
    ensures IsSegment(seg, p0, c, headerLen, i, sent, chunk, last, ipSum, l4Sum)
    ensures HeaderAt(packet[..], p0, c, headerLen, i + 1, sent + chunk)
    ensures SameFrom(packet[..], p0, headerLen + sent + chunk)
  {
    ghost var p := packet[..];
    FillSegment(packet, c, headerLen, sent, chunk, flags);
    ghost var q := packet[..];
    FilledHeader(p, p0, c, headerLen, i, sent, chunk, flags);
    FilledCarries(p, p0, c, headerLen, sent, chunk, flags);
    FilledTail(p, p0, c, headerLen, sent, chunk, flags);
    seg := SendAndAdvance(packet, c, headerLen, sent, chunk, last, ipSum, l4Sum, p0, i);
  }

  /** The checksums, the sending and the next header. */
  method SendAndAdvance(packet: array<byte>, c: Context, headerLen: nat, ghost sent: nat, chunk: nat, ghost last: bool,
                        ipSum: Sum, l4Sum: Sum, ghost p0: seq<byte>, ghost i: nat) returns (seg: seq<byte>)
    requires Layout(c, headerLen) && headerLen + sent + chunk <= packet.Length == |p0|
    requires HeaderAt(packet[..], p0, c, headerLen, i, sent)
    requires Carries(packet[..], p0, c, headerLen, sent, chunk, FlagsOf(p0, c, last))
    requires SameFrom(packet[..], p0, headerLen + sent + chunk)
    modifies packet
    ensures IsSegment(seg, p0, c, headerLen, i, sent, chunk, last, ipSum, l4Sum)
    ensures HeaderAt(packet[..], p0, c, headerLen, i + 1, sent + chunk)
    ensures SameFrom(packet[..], p0, headerLen + sent + chunk)
  {
    seg := Send(packet, c, headerLen, sent, chunk, last, ipSum, l4Sum, p0, i);
    AdvancedHeader(packet[..], p0, c, headerLen, i, sent, chunk);
    AdvanceHeader(packet, c, headerLen, chunk);
  }

  /** The checksums and the sending. */
  method Send(packet: array<byte>, c: Context, headerLen: nat, ghost sent: nat, chunk: nat, ghost last: bool,
              ipSum: Sum, l4Sum: Sum, ghost p0: seq<byte>, ghost i: nat) returns (seg: seq<byte>)
    requires Layout(c, headerLen) && headerLen + sent + chunk <= packet.Length == |p0|
    requires HeaderAt(packet[..], p0, c, headerLen, i, sent)
    requires Carries(packet[..], p0, c, headerLen, sent, chunk, FlagsOf(p0, c, last))
    modifies packet
    ensures IsSegment(seg, p0, c, headerLen, i, sent, chunk, last, ipSum, l4Sum)
    ensures HeaderAt(packet[..], p0, c, headerLen, i, sent)
    ensures SameFrom(packet[..], old(packet[..]), headerLen)
  {
    ghost var q := packet[..];
    Checksums(packet, headerLen + chunk, c, ipSum, l4Sum);
    SumsKeepHeader(q, packet[..], p0, c, headerLen, i, sent);
    SumsKeepPayload(q, packet[..], p0, c, headerLen, sent, chunk, FlagsOf(p0, c, last));
    seg := packet[..][..headerLen + chunk];
    PrefixIsSegment(packet[..], p0, c, headerLen, i, sent, chunk, last, ipSum, l4Sum);
  }

  /** The checksums of a segment leave all else in place. */
  method Checksums(packet: array<byte>, len: nat, c: Context, ipSum: Sum, l4Sum: Sum)
    requires c.iplen >= 12 && c.maclen + c.iplen + 18 <= len <= packet.Length
    modifies packet
    ensures OnlySums(old(packet[..]), packet[..], c)
    ensures IpSummed(c) ==> HasSum(packet[..], IpSumAt(c), ipSum, c.maclen, c.maclen + c.iplen)
    ensures L4Summed(c) ==> HasSum(packet[..], L4SumAt(c), l4Sum, 0, len)
  {
    OffloadFootprint(packet[..], len, c, ipSum, l4Sum);
    OffloadSums(packet[..], len, c, ipSum, l4Sum);
    ApplyOffload(packet, len, c, ipSum, l4Sum);
  }

  /** The loop of `apply_segmentation`. */
  method Segment(packet: array<byte>, headerLen: nat, paylen: nat, c: Context, ipSum: Sum, l4Sum: Sum)
    returns (out: seq<seq<byte>>)
    requires Layout(c, headerLen) && headerLen + paylen <= packet.Length && c.mss > 0
    modifies packet
    ensures AreSegments(out, old(packet[..]), c, headerLen, paylen, ipSum, l4Sum)
    ensures paylen <= Start(|out|, c.mss)
  {
    ghost var p0 := packet[..];
    var left: nat, sent: nat := paylen, 0;
    var flags := packet[FlagsAt(c)];
    out := [];
    OriginalHeader(p0, c, headerLen);
    while left > 0
      invariant left + sent == paylen && if left > 0 then sent == Start(|out|, c.mss) else paylen <= Start(|out|, c.mss)
      invariant HeaderAt(packet[..], p0, c, headerLen, |out|, sent) && SameFrom(packet[..], p0, headerLen + sent)
      invariant AreSegments(out, p0, c, headerLen, paylen, ipSum, l4Sum)
      decreases left
    {
      var chunk := if left > c.mss then c.mss else left;
      left := left - chunk;
      var seg := SendSegment(packet, c, headerLen, sent, chunk, if left == 0 then flags else WithoutFinPsh(flags),
                             left == 0, ipSum, l4Sum, p0, |out|);
      AppendSegment(out, seg, p0, c, headerLen, paylen, sent, chunk, left == 0, ipSum, l4Sum);
      sent := sent + chunk;
      out := out + [seg];
    }
  }

  /** `apply_segmentation`: the packets sent for one packet of the driver. */
  method ApplySegmentation(packet: array<byte>, packetLen: nat, paylen: nat, c: Context, tse: bool,
                           ipSum: Sum, l4Sum: Sum) returns (out: seq<seq<byte>>)
    requires packetLen <= packet.Length && c.maclen + c.iplen + 18 <= packet.Length
    requires tse && c.l4t != L4T_UDP && c.l4t != L4T_SCTP ==>
               paylen <= packetLen && c.mss > 0 && Layout(c, packetLen - paylen)
    modifies packet
    ensures !tse ==> out == if paylen != packetLen then []
                            else [Offloaded(old(packet[..]), packetLen, c, ipSum, l4Sum)[..packetLen]]
    ensures tse && (c.l4t == L4T_UDP || c.l4t == L4T_SCTP) ==> out == []
    ensures tse && c.l4t != L4T_UDP && c.l4t != L4T_SCTP ==>
              && AreSegments(out, old(packet[..]), c, packetLen - paylen, paylen, ipSum, l4Sum)
              && paylen <= Start(|out|, c.mss)
  {
    if !tse {
      if paylen != packetLen {
        return [];
      }
      ApplyOffload(packet, paylen, c, ipSum, l4Sum);
      out := [packet[..packetLen]];
    } else if c.l4t == L4T_SCTP || c.l4t == L4T_UDP {
      out := [];
    } else {
      out := Segment(packet, packetLen - paylen, paylen, c, ipSum, l4Sum);
    }
  }
}
