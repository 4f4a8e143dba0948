/**
 Guest memory as a map from mapped byte addresses to bytes, and the
 little-endian layout of words in it.
 */
module GuestMemory {
  import opened Common

  type Memory = map<int, byte>

  const TWO64: int := 0x1_0000_0000_0000_0000

  // ---- words and bytes -------------------------------------------------

  function Pow256(k: nat): (p: nat)
    ensures p > 0
  {
    if k == 0 then 1 else 256 * Pow256(k - 1)
  }

  /** The k low bytes of a number, least significant first. */
  function LeBytes(k: nat, w: nat): (b: seq<byte>)
    ensures |b| == k
  {
    if k == 0 then [] else [w % 256] + LeBytes(k - 1, w / 256)
  }

  function LeValue(b: seq<byte>): (w: nat)
    ensures w < Pow256(|b|)
  {
    if b == [] then 0 else b[0] + 256 * LeValue(b[1..])
  }

  lemma {:induction false} LeRoundTrip(k: nat, w: nat)
    requires w < Pow256(k)
    ensures LeValue(LeBytes(k, w)) == w
  {
    if k > 0 {
      LeRoundTrip(k - 1, w / 256);
      assert LeBytes(k, w)[1..] == LeBytes(k - 1, w / 256);
    }
  }

  lemma WordSize()
    ensures Pow256(8) == TWO64 && Pow256(2) == 0x1_0000
  {
    assert Pow256(2) == 0x1_0000;
    assert Pow256(4) == 0x1_0000_0000;
    assert Pow256(6) == 0x1_0000_0000_0000;
  }

  /** Words of k bytes, one after the other. */
  function Pack(k: nat, ws: seq<nat>): (b: seq<byte>)
    ensures |b| == k * |ws|
  {
    if ws == [] then [] else LeBytes(k, ws[0]) + Pack(k, ws[1..])
  }

  function Unpack(k: nat, n: nat, b: seq<byte>): (ws: seq<nat>)
    requires |b| == k * n
    ensures |ws| == n && forall i :: 0 <= i < n ==> ws[i] < Pow256(k)
  {
    if n == 0 then [] else
      assert k <= k * n;
      [LeValue(b[..k])] + Unpack(k, n - 1, b[k..])
  }

  lemma {:induction false} PackRoundTrip(k: nat, ws: seq<nat>)
    requires forall i :: 0 <= i < |ws| ==> ws[i] < Pow256(k)
    ensures Unpack(k, |ws|, Pack(k, ws)) == ws
  {
    if ws != [] {
      LeRoundTrip(k, ws[0]);
      PackRoundTrip(k, ws[1..]);
      var b := Pack(k, ws);
      assert b[..k] == LeBytes(k, ws[0]) && b[k..] == Pack(k, ws[1..]);
    }
  }

  // ---- 64-bit words ----------------------------------------------------

  function WordBytes(w: nat): (b: seq<byte>)
    ensures |b| == 8
  {
    LeBytes(8, w)
  }

  function Words(ws: seq<nat>): (b: seq<byte>)
    ensures |b| == 8 * |ws|
  {
    if ws == [] then [] else WordBytes(ws[0]) + Words(ws[1..])
  }

  lemma WordRoundTrip(w: nat)
    requires w < TWO64
    ensures LeValue(WordBytes(w)) == w
  {
    hide LeBytes, LeValue;
    WordSize();
    LeRoundTrip(8, w);
  }

  // ---- loads and stores ------------------------------------------------

  predicate Mapped(mem: Memory, a: int, n: int) {
    forall p :: a <= p < a + n ==> p in mem
  }

  /** The i-th of unpacked words. */
  lemma {:induction false} UnpackAt(k: nat, n: nat, b: seq<byte>, i: nat)
    requires |b| == k * n && i < n
    ensures 0 <= k * i && k * i + k <= |b| && Unpack(k, n, b)[i] == LeValue(b[k * i..k * i + k])
    decreases n
  {
    hide LeValue;
    assert k <= k * n && k * i + k <= k * n by { Slots(k, n, i); }
    if i > 0 {
      UnpackAt(k, n - 1, b[k..], i - 1);
      assert k * i == k + k * (i - 1);
      assert b[k..][k * (i - 1)..k * (i - 1) + k] == b[k * i..k * i + k];
    }
  }

  lemma {:induction false} Slots(k: nat, n: nat, i: nat)
    requires i < n
    ensures k * i + k <= k * n && k <= k * n
  {
    if i + 1 < n {
      Slots(k, n - 1, i);
    }
  }

  /** A packed word is read back where it is. */
  lemma {:induction false} PackedWord(ws: seq<nat>, i: nat)
    requires i < |ws| && ws[i] < TWO64
    ensures 8 * i + 8 <= |Pack(8, ws)| && LeValue(Pack(8, ws)[8 * i..8 * i + 8]) == ws[i]
  {
    hide LeValue, LeBytes;
    var first, rest := WordBytes(ws[0]), Pack(8, ws[1..]);
    assert Pack(8, ws) == first + rest;
    if i == 0 {
      assert Pack(8, ws)[0..8] == first;
      WordRoundTrip(ws[0]);
    } else {
      PackedWord(ws[1..], i - 1);
      assert (first + rest)[8 * i..8 * i + 8] == rest[8 * (i - 1)..8 * (i - 1) + 8];
    }
  }

  /** Little-endian: byte i of a word is its i-th digit to the base 256. */
  lemma {:induction false} LeBytesAt(k: nat, w: nat, i: nat)
    requires i < k
    ensures LeBytes(k, w)[i] == Digit(w, i)
  {
    if i > 0 {
      LeBytesAt(k - 1, w / 256, i - 1);
    }
  }

  /** The i-th digit to the base 256, from the least significant one. */
  function Digit(w: nat, i: nat): (d: nat)
    ensures d < 256
  {
    if i == 0 then w % 256 else Digit(w / 256, i - 1)
  }

  /** What is at [a, a + n). */
  function Load(mem: Memory, a: int, n: nat): (b: seq<byte>)
    requires Mapped(mem, a, n)
    ensures |b| == n && forall i :: 0 <= i < n ==> b[i] == mem[a + i]
  {
    seq(n, i requires 0 <= i < n => mem[a + i])
  }

  function Save(mem: Memory, a: int, b: seq<byte>): (m: Memory) {
    map p | p in mem :: if a <= p < a + |b| then b[p - a] else mem[p]
  }

  lemma LoadSaved(mem: Memory, a: int, b: seq<byte>)
    requires Mapped(mem, a, |b|)
    ensures Mapped(Save(mem, a, b), a, |b|) && Load(Save(mem, a, b), a, |b|) == b
  {
  }

  /** Two memories agree on a range. */
  ghost predicate SameOn(mem: Memory, mem': Memory, a: int, n: int) {
    forall p :: a <= p < a + n ==> (p in mem <==> p in mem') && (p in mem ==> mem[p] == mem'[p])
  }

  lemma SaveElsewhere(mem: Memory, a: int, b: seq<byte>, c: int, n: int)
    requires a + |b| <= c || c + n <= a
    ensures SameOn(mem, Save(mem, a, b), c, n)
  {
  }

  lemma LoadSame(mem: Memory, mem': Memory, a: int, n: nat)
    requires SameOn(mem, mem', a, n) && Mapped(mem, a, n)
    ensures Mapped(mem', a, n) && Load(mem', a, n) == Load(mem, a, n)
  {
  }
}
