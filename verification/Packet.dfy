/**
 Bytes and big-endian header fields of a packet, for model/intel82576vf.cc.
 */
module Packet {
  import opened Common
  import opened Multiples

  function Be16(p: seq<byte>, at: nat): (v: nat)
    requires at + 2 <= |p|
  {
    p[at] as int * 256 + p[at + 1]
  }

  function Put16(p: seq<byte>, at: nat, v: nat): (r: seq<byte>)
    requires at + 2 <= |p| && v < 65536
    ensures |r| == |p| && Be16(r, at) == v
    ensures forall j :: 0 <= j < |p| && j != at && j != at + 1 ==> r[j] == p[j]
  {
    p[at := v / 256][at + 1 := v % 256]
  }

  function Be32(p: seq<byte>, at: nat): (v: nat)
    requires at + 4 <= |p|
  {
    Be16(p, at) * 65536 + Be16(p, at + 2)
  }

  function Put32(p: seq<byte>, at: nat, v: nat): (r: seq<byte>)
    requires at + 4 <= |p| && v < 0x1_0000_0000
    ensures |r| == |p| && Be32(r, at) == v
    ensures forall j :: 0 <= j < |p| && !(at <= j < at + 4) ==> r[j] == p[j]
  {
    Put16(Put16(p, at, v / 65536), at + 2, v % 65536)
  }

  /** Fields stand in network order, the highest byte first. */
  lemma NetworkOrder(p: seq<byte>, at: nat)
    requires at + 4 <= |p|
    ensures Be16(p, at) / 256 == p[at] && Be16(p, at) % 256 == p[at + 1]
    ensures Be32(p, at) / 65536 == Be16(p, at) && Be32(p, at) % 65536 == Be16(p, at + 2)
  {
    DivideBy(Be16(p, at), 256, p[at], p[at + 1]);
    DivideBy(Be32(p, at), 65536, Be16(p, at), Be16(p, at + 2));
  }

  /** `memmove` towards the front. */
  function Moved(p: seq<byte>, to: nat, from: nat, n: nat): (r: seq<byte>)
    requires to <= from && from + n <= |p|
    ensures |r| == |p|
    ensures forall j :: to <= j < to + n ==> r[j] == p[j + (from - to)]
    ensures forall j :: 0 <= j < |p| && !(to <= j < to + n) ==> r[j] == p[j]
  {
    p[..to] + p[from..from + n] + p[to + n..]
  }

  /** FIN is bit 0 and PSH is bit 3 of the TCP flags. */
  function WithoutFinPsh(flags: byte): (r: byte)
    ensures r % 2 == 0 && r / 8 % 2 == 0
    ensures r / 2 % 4 == flags / 2 % 4 && r / 16 == flags / 16
  {
    FlagParts(flags / 16, flags / 2 % 4);
    flags / 16 * 16 + flags / 2 % 4 * 2
  }

  lemma FlagParts(high: nat, low: nat)
    requires low < 4
    ensures (high * 16 + low * 2) / 16 == high && (high * 16 + low * 2) / 2 % 4 == low
    ensures (high * 16 + low * 2) % 2 == 0 && (high * 16 + low * 2) / 8 % 2 == 0
  {
    var r := high * 16 + low * 2;
    DivideBy(r, 16, high, low * 2);
    DivideBy(r, 2, high * 8 + low, 0);
    DivideBy(high * 8 + low, 4, high * 2, low);
    DivideBy(r, 8, high * 2, low * 2);
    DivideBy(high * 2, 2, high, 0);
  }

  method Store16(packet: array<byte>, at: nat, v: nat)
    requires at + 2 <= packet.Length && v < 65536
    modifies packet
    ensures packet[..] == Put16(old(packet[..]), at, v)
  {
    packet[at] := v / 256;
    packet[at + 1] := v % 256;
  }

  method Store32(packet: array<byte>, at: nat, v: nat)
    requires at + 4 <= packet.Length && v < 0x1_0000_0000
    modifies packet
    ensures packet[..] == Put32(old(packet[..]), at, v)
  {
    Store16(packet, at, v / 65536);
    Store16(packet, at + 2, v % 65536);
  }

  method MoveDown(packet: array<byte>, to: nat, from: nat, n: nat)
    requires to < from && from + n <= packet.Length
    modifies packet
    ensures packet[..] == Moved(old(packet[..]), to, from, n)
  {
    ghost var before := packet[..];
    var i := 0;
    while i < n
      invariant 0 <= i <= n
      invariant packet[..] == Moved(before, to, from, i)
    {
      MoveNext(before, to, from, i);
      assert packet[from + i] == packet[..][from + i];
      packet[to + i] := packet[from + i];
      i := i + 1;
    }
  }

  /** A byte behind the target is still in place when its turn comes. */
  lemma MoveNext(p: seq<byte>, to: nat, from: nat, i: nat)
    requires to < from && from + i < |p|
    ensures Moved(p, to, from, i)[from + i] == p[from + i]
    ensures Moved(p, to, from, i)[to + i := p[from + i]] == Moved(p, to, from, i + 1)
  {
  }
}
