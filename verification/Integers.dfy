/** Integers of 1, 2, 4 or 8 bytes in network byte order, on a little-endian host. */
module Integers {
  type Byte = c: char | c as int < 256 witness '\0'

  function ToByte(x: nat): (b: Byte)
    requires x < 256
    ensures b as int == x
  {
    x as char
  }

  /** The number of values of a w-byte word. */
  function Range(w: nat): (r: nat)
    ensures r > 0
  {
    if w == 0 then 1 else 256 * Range(w - 1)
  }

  /** The memory image of an unsigned w-byte word. */
  function LittleEndian(u: nat, w: nat): (s: seq<Byte>)
    ensures |s| == w
  {
    if w == 0 then [] else [ToByte(u % 256)] + LittleEndian(u / 256, w - 1)
  }

  function FromLittleEndian(s: seq<Byte>): nat {
    if s == [] then 0 else s[0] as int + 256 * FromLittleEndian(s[1..])
  }

  function Reverse(s: seq<Byte>): (r: seq<Byte>)
    ensures |r| == |s| && forall i :: 0 <= i < |s| ==> r[i] == s[|s| - 1 - i]
  {
    if s == [] then [] else Reverse(s[1..]) + [s[0]]
  }

  /** hostToNetwork and networkToHost: the bytes of the word in opposite order. */
  function ByteSwap(u: nat, w: nat): nat {
    FromLittleEndian(Reverse(LittleEndian(u, w)))
  }

  /** Two's complement: the signed value as a word, and back. */
  function ToWord(x: int, w: nat): (u: nat)
    ensures u < Range(w)
  {
    x % Range(w)
  }

  function FromWord(u: nat, w: nat): int {
    if 2 * u < Range(w) then u else u - Range(w)
  }

  predicate Fits(x: int, w: nat) { 0 <= 2 * x + Range(w) && 2 * x < Range(w) }

  /** The bytes that appendInt writes. */
  function Encode(x: int, w: nat): (s: seq<Byte>)
    ensures |s| == w
  {
    LittleEndian(ByteSwap(ToWord(x, w), w), w)
  }

  /** The value that peekInt reads from w bytes. */
  function Decode(s: seq<Byte>): int {
    FromWord(ByteSwap(FromLittleEndian(s), |s|), |s|)
  }

  function FromBigEndian(s: seq<Byte>): nat {
    if s == [] then 0 else 256 * FromBigEndian(s[..|s| - 1]) + s[|s| - 1] as int
  }

  lemma {:induction false} BytesOfWord(s: seq<Byte>)
    ensures FromLittleEndian(s) < Range(|s|) && LittleEndian(FromLittleEndian(s), |s|) == s
  {
    if s == [] {
    } else {
      BytesOfWord(s[1..]);
      assert s == [s[0]] + s[1..];
      assert FromLittleEndian(s) % 256 == s[0] as int && FromLittleEndian(s) / 256 == FromLittleEndian(s[1..]);
    }
  }

  lemma {:induction false} WordOfBytes(u: nat, w: nat)
    requires u < Range(w)
    ensures FromLittleEndian(LittleEndian(u, w)) == u
  {
    if w == 0 {
    } else {
      WordOfBytes(u / 256, w - 1);
      assert LittleEndian(u, w)[1..] == LittleEndian(u / 256, w - 1);
    }
  }

  lemma ReverseTwice(s: seq<Byte>)
    ensures Reverse(Reverse(s)) == s
  {}

  lemma ByteSwapTwice(u: nat, w: nat)
    requires u < Range(w)
    ensures ByteSwap(u, w) < Range(w) && ByteSwap(ByteSwap(u, w), w) == u
  {
    var s := LittleEndian(u, w);
    BytesOfWord(Reverse(s));
    ReverseTwice(s);
    WordOfBytes(u, w);
  }

  lemma {:induction false} ReverseIsBigEndian(s: seq<Byte>)
    ensures FromBigEndian(Reverse(s)) == FromLittleEndian(s)
  {
    if s == [] {
    } else {
      ReverseIsBigEndian(s[1..]);
      assert Reverse(s)[..|s| - 1] == Reverse(s[1..]);
    }
  }

  /** What is written is the two's complement word, most significant byte first. */
  lemma EncodeIsBigEndian(x: int, w: nat)
    ensures FromBigEndian(Encode(x, w)) == x % Range(w)
  {
    var s := LittleEndian(ToWord(x, w), w);
    BytesOfWord(Reverse(s));
    ReverseIsBigEndian(s);
    WordOfBytes(ToWord(x, w), w);
  }

  lemma DecodeEncode(x: int, w: nat)
    requires Fits(x, w)
    ensures Decode(Encode(x, w)) == x
  {
    var u := ToWord(x, w);
    ByteSwapTwice(u, w);
    WordOfBytes(ByteSwap(u, w), w);
    SignedWord(x, Range(w));
  }

  lemma SignedWord(x: int, r: nat)
    requires r > 0 && 0 <= 2 * x + r && 2 * x < r
    ensures x % r == if x >= 0 then x else x + r
  {
    if x >= 0 { Residue(x, 0, r); } else { Residue(x, -1, r); }
  }

  lemma Residue(x: int, q: int, r: nat)
    requires r > 0 && 0 <= x - q * r < r
    ensures x % r == x - q * r
  {
    var d := x / r - q;
    assert x == (x / r) * r + x % r;
    assert (x / r) * r - q * r == d * r;
    Multiple(d, r);
  }

  lemma Multiple(d: int, r: nat)
    ensures d > 0 ==> d * r >= r
    ensures d < 0 ==> d * r + r <= 0
  {
    if d > 0 { assert (d - 1) * r >= 0; }
    if d < 0 { assert (-1 - d) * r >= 0; }
  }

  /** A typed integer: its value and its width in bytes. */
  datatype Item = Item(value: int, width: nat)

  predicate Typed(i: Item) { i.width in {1, 2, 4, 8} && Fits(i.value, i.width) }

  function EncodeAll(items: seq<Item>): seq<Byte> {
    if items == [] then [] else Encode(items[0].value, items[0].width) + EncodeAll(items[1..])
  }

  /** Reading the widths in turn: the values, and the bytes that are left. */
  function DecodeAll(widths: seq<nat>, s: seq<Byte>): (seq<int>, seq<Byte>) {
    if widths == [] || |s| < widths[0] then ([], s)
    else
      var (xs, rest) := DecodeAll(widths[1..], s[widths[0]..]);
      ([Decode(s[..widths[0]])] + xs, rest)
  }

  function Values(items: seq<Item>): seq<int> { seq(|items|, i requires 0 <= i < |items| => items[i].value) }
  function Widths(items: seq<Item>): seq<nat> { seq(|items|, i requires 0 <= i < |items| => items[i].width) }

  /** Any list of typed integers is read back unchanged by the matching reads. */
  lemma {:induction false} ReadBack(items: seq<Item>, rest: seq<Byte>)
    requires forall i :: i in items ==> Typed(i)
    ensures DecodeAll(Widths(items), EncodeAll(items) + rest) == (Values(items), rest)
  {
    if items == [] {
      assert EncodeAll(items) + rest == rest;
    } else {
      var i := items[0];
      assert i in items && Typed(i);
      ReadBack(items[1..], rest);
      DecodeEncode(i.value, i.width);
      ReadBackHead(Encode(i.value, i.width), EncodeAll(items[1..]), rest);
      assert Widths(items) == [i.width] + Widths(items[1..]);
      assert Values(items) == [i.value] + Values(items[1..]);
    }
  }

  lemma ReadBackHead(e: seq<Byte>, tail: seq<Byte>, rest: seq<Byte>)
    ensures var s := e + tail + rest; s[..|e|] == e && s[|e|..] == tail + rest
  {}
}
