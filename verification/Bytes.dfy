/** Bytes, byte-addressed memories and little-endian words, shared by every engine.

A transfer is described by the sequence of addresses its bytes travel to or from, so
that splitting, chaining and gathering all become statements about concatenation. */
module Bytes {

  type byte = x: nat | x < 256

  const U16: nat := 0x1_0000
  const U32: nat := 0x1_0000_0000
  const U64: nat := 0x1_0000_0000_0000_0000

  /** A sparse memory: an address never stored to holds zero. */
  type Ram = map<nat, byte>

  function Load(m: Ram, a: nat): byte {
    if a in m then m[a] else 0
  }

  function LoadAll(m: Ram, addrs: seq<nat>): (data: seq<byte>)
    ensures |data| == |addrs|
    ensures forall i :: 0 <= i < |addrs| ==> data[i] == Load(m, addrs[i])
  {
    seq(|addrs|, i requires 0 <= i < |addrs| => Load(m, addrs[i]))
  }

  /** Stores bytes in order; a repeated address keeps the last byte. */
  function StoreAll(m: Ram, addrs: seq<nat>, data: seq<byte>): Ram
    requires |addrs| == |data|
  {
    if addrs == [] then m
    else
      var n := |addrs| - 1;
      StoreAll(m, addrs[..n], data[..n])[addrs[n] := data[n]]
  }

  ghost predicate Distinct(addrs: seq<nat>) {
    forall i, j :: 0 <= i < j < |addrs| ==> addrs[i] != addrs[j]
  }

  lemma {:induction false} StoreAppend(m: Ram, a1: seq<nat>, a2: seq<nat>, d1: seq<byte>, d2: seq<byte>)
    requires |a1| == |d1| && |a2| == |d2|
    ensures StoreAll(m, a1 + a2, d1 + d2) == StoreAll(StoreAll(m, a1, d1), a2, d2)
    decreases |a2|
  {
    if a2 == [] {
      assert a1 + a2 == a1 && d1 + d2 == d1;
    } else {
      var n := |a2| - 1;
      StoreAppend(m, a1, a2[..n], d1, d2[..n]);
      assert (a1 + a2)[..|a1| + n] == a1 + a2[..n];
      assert (d1 + d2)[..|a1| + n] == d1 + d2[..n];
    }
  }

  lemma {:induction false} StoreFrame(m: Ram, addrs: seq<nat>, data: seq<byte>, a: nat)
    requires |addrs| == |data| && a !in addrs
    ensures Load(StoreAll(m, addrs, data), a) == Load(m, a)
    decreases |addrs|
  {
    if addrs != [] {
      var n := |addrs| - 1;
      StoreFrame(m, addrs[..n], data[..n], a);
      assert a != addrs[n];
    }
  }

  lemma StoreFrameAll(m: Ram, addrs: seq<nat>, data: seq<byte>, others: seq<nat>)
    requires |addrs| == |data|
    requires forall i :: 0 <= i < |others| ==> others[i] !in addrs
    ensures LoadAll(StoreAll(m, addrs, data), others) == LoadAll(m, others)
  {
  }

  /** The byte found at address `addrs[i]` is the last one stored there. */
  lemma {:induction false} StoreLast(m: Ram, addrs: seq<nat>, data: seq<byte>, i: nat)
    requires |addrs| == |data| && i < |addrs|
    requires forall j :: i < j < |addrs| ==> addrs[j] != addrs[i]
    ensures Load(StoreAll(m, addrs, data), addrs[i]) == data[i]
    decreases |addrs|
  {
    var n := |addrs| - 1;
    if i < n {
      StoreLast(m, addrs[..n], data[..n], i);
      assert addrs[n] != addrs[i];
    }
  }

  /** A byte stored over later, by zeros only, is lost. */
  lemma {:induction false} StoredLater(m: Ram, addrs: seq<nat>, data: seq<byte>, j: nat, k: nat)
    requires j < k < |addrs| == |data| && addrs[k] == addrs[j]
    requires forall l :: j < l < |data| ==> data[l] == 0
    ensures Load(StoreAll(m, addrs, data), addrs[j]) == 0
    decreases |addrs|
  {
    var n := |addrs| - 1;
    if addrs[n] != addrs[j] {
      StoredLater(m, addrs[..n], data[..n], j, k);
    }
  }

  /** What was stored is read back, for every content, exactly when no address repeats. */
  lemma StoreThenLoad(m: Ram, addrs: seq<nat>, data: seq<byte>)
    requires |addrs| == |data| && Distinct(addrs)
    ensures LoadAll(StoreAll(m, addrs, data), addrs) == data
  {
  }

  lemma RoundTripOnlyIfDistinct(m: Ram, addrs: seq<nat>)
    requires forall data: seq<byte> :: |data| == |addrs| ==> LoadAll(StoreAll(m, addrs, data), addrs) == data
    ensures Distinct(addrs)
  {
    forall i, j | 0 <= i < j < |addrs|
      ensures addrs[i] != addrs[j]
    {
      var data: seq<byte> := seq(|addrs|, k => if k == i then 1 else 0);
      var back := LoadAll(StoreAll(m, addrs, data), addrs);
      assert back[i] == data[i] && back[j] == data[j];
    }
  }

  lemma LoadAllAppend(m: Ram, a1: seq<nat>, a2: seq<nat>)
    ensures LoadAll(m, a1 + a2) == LoadAll(m, a1) + LoadAll(m, a2)
  {
  }

  lemma LoadAllSlice(m: Ram, addrs: seq<nat>, lo: nat, hi: nat)
    requires lo <= hi <= |addrs|
    ensures LoadAll(m, addrs[lo..hi]) == LoadAll(m, addrs)[lo..hi]
  {
  }

  /** A memory with bytes put at an offset. */
  function Overlay(mem: seq<byte>, at: nat, data: seq<byte>): (r: seq<byte>)
    requires at + |data| <= |mem|
    ensures |r| == |mem|
  {
    mem[..at] + data + mem[at + |data|..]
  }

  lemma SliceOfSlice<T>(s: seq<T>, a: nat, b: nat, lo: nat, hi: nat)
    requires a <= b <= |s| && lo <= hi <= b - a
    ensures s[a..b][lo..hi] == s[a + lo..a + hi]
  {
    var inner, outer := s[a..b][lo..hi], s[a + lo..a + hi];
    forall i | 0 <= i < hi - lo
      ensures inner[i] == outer[i]
    {
      assert inner[i] == s[a..b][lo + i];
    }
  }

  lemma Regroup<T>(a: seq<T>, b: seq<T>, c: seq<T>)
    ensures a + b + c == a + (b + c)
  {
  }

  /** The unsigned value of a little-endian byte string. */
  function FromLE(data: seq<byte>): nat {
    if data == [] then 0 else data[0] + 256 * FromLE(data[1..])
  }

  lemma {:induction false} ZerosAreZero(b: seq<byte>)
    requires forall k :: 0 <= k < |b| ==> b[k] == 0
    ensures FromLE(b) == 0
    decreases |b|
  {
    if b != [] {
      ZerosAreZero(b[1..]);
    }
  }

  /** The low `n` bytes of a value, least significant first. */
  function ToLE(v: nat, n: nat): (data: seq<byte>)
    ensures |data| == n
  {
    if n == 0 then [] else [v % 256] + ToLE(v / 256, n - 1)
  }

  function Pow256(n: nat): (p: nat)
    ensures p > 0
  {
    if n == 0 then 1 else 256 * Pow256(n - 1)
  }

  lemma {:induction false} FromLEBound(data: seq<byte>)
    ensures FromLE(data) < Pow256(|data|)
  {
    if data != [] {
      FromLEBound(data[1..]);
    }
  }

  lemma {:induction false} ToFromLE(data: seq<byte>)
    ensures ToLE(FromLE(data), |data|) == data
  {
    if data != [] {
      var rest := FromLE(data[1..]);
      ToFromLE(data[1..]);
      assert (data[0] + 256 * rest) / 256 == rest;
      assert (data[0] + 256 * rest) % 256 == data[0];
    }
  }

  lemma {:induction false} FromToLE(v: nat, n: nat)
    requires v < Pow256(n)
    ensures FromLE(ToLE(v, n)) == v
  {
    if n != 0 {
      FromToLE(v / 256, n - 1);
      assert ToLE(v, n)[1..] == ToLE(v / 256, n - 1);
    }
  }
}
