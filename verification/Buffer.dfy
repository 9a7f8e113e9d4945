/** Buffer: a growing byte store with a readable window, refining a byte sequence. */
module Buffers {
  import opened Integers

  const CHEAP_PREPEND := 8
  const INITIAL_SIZE := 1024
  const EXTRA_SIZE := 65536

  datatype Found = At(index: nat) | Missing

  /** The first position of CR LF at or after `from`. */
  function FindCRLF(s: seq<Byte>, from: nat): (r: Found)
    requires from <= |s|
    ensures r.At? ==> from <= r.index && r.index + 2 <= |s|
    decreases |s| - from
  {
    if from + 2 > |s| then Missing
    else if s[from] == '\r' && s[from + 1] == '\n' then At(from)
    else FindCRLF(s, from + 1)
  }

  predicate CRLFAt(s: seq<Byte>, i: nat) { i + 2 <= |s| && s[i] == '\r' && s[i + 1] == '\n' }

  lemma {:induction false} FindCRLFFirst(s: seq<Byte>, from: nat)
    requires from <= |s|
    ensures var r := FindCRLF(s, from);
            (r.At? ==> CRLFAt(s, r.index)) &&
            forall j: nat :: from <= j && CRLFAt(s, j) ==> r.At? && r.index <= j
    decreases |s| - from
  {
    if from + 2 > |s| || CRLFAt(s, from) {
    } else {
      FindCRLFFirst(s, from + 1);
    }
  }

  /** The first position of c in s[from..end], or end. */
  function Find(s: seq<Byte>, c: char, from: nat, end: nat): (r: nat)
    requires from <= end <= |s|
    ensures from <= r <= end
    decreases end - from
  {
    if from == end || s[from] == c then from else Find(s, c, from + 1, end)
  }

  lemma {:induction false} FindFirst(s: seq<Byte>, c: char, from: nat, end: nat)
    requires from <= end <= |s|
    ensures var r := Find(s, c, from, end);
            (r < end ==> s[r] == c) && forall j :: from <= j < r ==> s[j] != c
    decreases end - from
  {
    if from == end || s[from] == c {
    } else {
      FindFirst(s, c, from + 1, end);
    }
  }

  class Buffer {
    var buffer: seq<Byte>
    var readIndex: nat
    var writeIndex: nat

    ghost predicate Valid()
      reads this
    {
      readIndex <= writeIndex <= |buffer| && CHEAP_PREPEND <= |buffer|
    }

    ghost function Contents(): seq<Byte>
      requires Valid()
      reads this
    {
      buffer[readIndex..writeIndex]
    }

    function ReadableBytes(): (n: nat)
      requires Valid()
      reads this
      ensures n == |Contents()|
    {
      writeIndex - readIndex
    }

    function WritableBytes(): nat
      requires Valid()
      reads this
    {
      |buffer| - writeIndex
    }

    constructor ()
      ensures Valid() && Contents() == [] && WritableBytes() == INITIAL_SIZE && readIndex == CHEAP_PREPEND
    {
      buffer := seq(INITIAL_SIZE + CHEAP_PREPEND, _ => '\0');
      readIndex, writeIndex := CHEAP_PREPEND, CHEAP_PREPEND;
    }

    method Swap(rhs: Buffer)
      requires Valid() && rhs.Valid()
      modifies this, rhs
      ensures Valid() && rhs.Valid()
      ensures Contents() == old(rhs.Contents()) && rhs.Contents() == old(Contents())
      ensures WritableBytes() == old(rhs.WritableBytes())
    {
      buffer, rhs.buffer := rhs.buffer, buffer;
      readIndex, rhs.readIndex := rhs.readIndex, readIndex;
      writeIndex, rhs.writeIndex := rhs.writeIndex, writeIndex;
    }

    /** Grows the store, or moves the contents to the front. The assertions of the
        source follow from having too little room. */
    method MakeSpace(len: nat)
      requires Valid() && WritableBytes() < len
      modifies this
      ensures Valid() && Contents() == old(Contents()) && WritableBytes() >= len
    {
      ghost var s := Contents();
      if WritableBytes() + readIndex < len + CHEAP_PREPEND {
        buffer := buffer + seq(writeIndex + len - |buffer|, _ => '\0');
      } else {
        assert CHEAP_PREPEND < readIndex;
        var readable := ReadableBytes();
        buffer := buffer[..CHEAP_PREPEND] + buffer[readIndex..writeIndex] + buffer[CHEAP_PREPEND + readable..];
        readIndex := CHEAP_PREPEND;
        writeIndex := readIndex + readable;
        assert readable == ReadableBytes();
      }
      assert Contents() == s;
    }

    method EnsureWritableBytes(len: nat)
      requires Valid()
      modifies this
      ensures Valid() && Contents() == old(Contents()) && WritableBytes() >= len
      ensures old(WritableBytes()) >= len ==> WritableBytes() == old(WritableBytes())
    {
      if WritableBytes() < len { MakeSpace(len); }
    }

    method Append(data: seq<Byte>)
      requires Valid()
      modifies this
      ensures Valid() && Contents() == old(Contents()) + data
      ensures old(WritableBytes()) >= |data| ==> WritableBytes() == old(WritableBytes()) - |data|
    {
      EnsureWritableBytes(|data|);
      ghost var s := Contents();
      buffer := buffer[..writeIndex] + data + buffer[writeIndex + |data|..];
      writeIndex := writeIndex + |data|;
      assert Contents() == s + data;
    }

    /** Writes in front of the contents; the source asserts that there is room. */
    method Prepend(data: seq<Byte>)
      requires Valid() && |data| <= readIndex
      modifies this
      ensures Valid() && Contents() == data + old(Contents())
    {
      ghost var s := Contents();
      readIndex := readIndex - |data|;
      buffer := buffer[..readIndex] + data + buffer[readIndex + |data|..];
      assert Contents() == data + s;
    }

    method RetrieveAll()
      requires Valid()
      modifies this`readIndex, this`writeIndex
      ensures Valid() && Contents() == []
    {
      readIndex := CHEAP_PREPEND;
      writeIndex := CHEAP_PREPEND;
    }

    method Retrieve(len: nat)
      requires Valid() && len <= ReadableBytes()
      modifies this`readIndex, this`writeIndex
      ensures Valid() && Contents() == old(Contents())[len..]
    {
      if len < ReadableBytes() {
        readIndex := readIndex + len;
      } else {
        RetrieveAll();
      }
    }

    method RetrieveAsString(len: nat) returns (s: seq<Byte>)
      requires Valid() && len <= ReadableBytes()
      modifies this`readIndex, this`writeIndex
      ensures Valid() && s == old(Contents())[..len] && Contents() == old(Contents())[len..]
    {
      s := buffer[readIndex..readIndex + len];
      Retrieve(len);
    }

    method RetrieveAllAsString() returns (s: seq<Byte>)
      requires Valid()
      modifies this`readIndex, this`writeIndex
      ensures Valid() && s == old(Contents()) && Contents() == []
    {
      s := RetrieveAsString(ReadableBytes());
    }

    method Shrink(reserve: nat)
      requires Valid()
      modifies this
      ensures Valid() && Contents() == old(Contents()) && WritableBytes() >= reserve
    {
      var other := new Buffer();
      var readable := ReadableBytes();
      other.EnsureWritableBytes(readable + reserve);
      other.Append(buffer[readIndex..writeIndex]);
      Swap(other);
    }

    /** readv into the free space and then into a local block. `data` is what the
        kernel delivers, or nothing on an error. */
    method ReadFd(data: seq<Byte>, error: bool) returns (n: int)
      requires Valid() && |data| <= WritableBytes() + EXTRA_SIZE
      modifies this
      ensures Valid()
      ensures if error then n == -1 && Contents() == old(Contents())
              else n == |data| && Contents() == old(Contents()) + data
    {
      if error { return -1; }
      var writable := WritableBytes();
      ghost var s := Contents();
      var direct := if |data| <= writable then |data| else writable;
      buffer := buffer[..writeIndex] + data[..direct] + buffer[writeIndex + direct..];
      n := |data|;
      if n <= writable {
        writeIndex := writeIndex + n;
        assert data[..direct] == data;
      } else {
        writeIndex := |buffer|;
        assert Contents() == s + data[..direct];
        Append(data[direct..]);
        assert data == data[..direct] + data[direct..];
      }
    }

    method AppendInt(x: int, w: nat)
      requires Valid() && Typed(Item(x, w))
      modifies this
      ensures Valid() && Contents() == old(Contents()) + Encode(x, w)
    {
      var be := ByteSwap(ToWord(x, w), w);
      Append(LittleEndian(be, w));
    }

    method PeekInt(w: nat) returns (x: int)
      requires Valid() && w in {1, 2, 4, 8} && w <= ReadableBytes()
      ensures x == Decode(Contents()[..w])
    {
      assert buffer[readIndex..readIndex + w] == Contents()[..w];
      var be := FromLittleEndian(buffer[readIndex..readIndex + w]);
      x := FromWord(ByteSwap(be, w), w);
    }

    method ReadInt(w: nat) returns (x: int)
      requires Valid() && w in {1, 2, 4, 8} && w <= ReadableBytes()
      modifies this`readIndex, this`writeIndex
      ensures Valid() && x == Decode(old(Contents())[..w]) && Contents() == old(Contents())[w..]
    {
      x := PeekInt(w);
      Retrieve(w);
    }
  }

  /** Appends typed integers one by one, whatever growing and moving that takes. */
  method AppendAll(b: Buffer, items: seq<Item>)
    requires b.Valid() && forall i :: i in items ==> Typed(i)
    modifies b
    ensures b.Valid() && b.Contents() == old(b.Contents()) + EncodeAll(items)
  {
    var k := 0;
    assert items[0..] == items;
    while k < |items|
      invariant 0 <= k <= |items| && b.Valid()
      invariant b.Contents() + EncodeAll(items[k..]) == old(b.Contents()) + EncodeAll(items)
    {
      assert items[k] in items && items[k..][0] == items[k] && items[k..][1..] == items[k + 1..];
      ghost var before := b.Contents();
      b.AppendInt(items[k].value, items[k].width);
      AppendAssoc(before, Encode(items[k].value, items[k].width), EncodeAll(items[k + 1..]));
      k := k + 1;
    }
    assert items[k..] == [];
  }

  lemma AppendAssoc(a: seq<Byte>, b: seq<Byte>, c: seq<Byte>)
    ensures a + b + c == a + (b + c)
  {}

  method ReadItem(b: Buffer, item: Item, tail: seq<Byte>) returns (x: int)
    requires b.Valid() && Typed(item) && b.Contents() == Encode(item.value, item.width) + tail
    modifies b
    ensures b.Valid() && x == item.value && b.Contents() == tail
  {
    DecodeEncode(item.value, item.width);
    ReadBackHead(Encode(item.value, item.width), tail, []);
    assert b.Contents() == Encode(item.value, item.width) + tail + [];
    x := b.ReadInt(item.width);
    assert tail + [] == tail;
  }

  /** Reads typed integers in front of other data. */
  method ReadAll(b: Buffer, items: seq<Item>, rest: seq<Byte>) returns (values: seq<int>)
    requires b.Valid() && b.Contents() == EncodeAll(items) + rest && forall i :: i in items ==> Typed(i)
    modifies b
    ensures b.Valid() && values == Values(items) && b.Contents() == rest
  {
    values := [];
    var k := 0;
    assert items[0..] == items;
    while k < |items|
      invariant 0 <= k <= |items| && b.Valid() && values == Values(items[..k])
      invariant b.Contents() == EncodeAll(items[k..]) + rest
    {
      assert items[k] in items && items[k..][0] == items[k] && items[k..][1..] == items[k + 1..];
      AppendAssoc(Encode(items[k].value, items[k].width), EncodeAll(items[k + 1..]), rest);
      var x := ReadItem(b, items[k], EncodeAll(items[k + 1..]) + rest);
      values := values + [x];
      k := k + 1;
    }
    assert items[..k] == items && items[k..] == [];
  }

  /** Typed integers appended to an empty buffer, followed by other data, are read back
      unchanged by the matching reads, which leave that data. */
  method AppendThenRead(b: Buffer, items: seq<Item>, rest: seq<Byte>) returns (values: seq<int>)
    requires b.Valid() && b.Contents() == [] && forall i :: i in items ==> Typed(i)
    modifies b
    ensures b.Valid() && values == Values(items) && b.Contents() == rest
  {
    AppendAll(b, items);
    b.Append(rest);
    values := ReadAll(b, items, rest);
  }
}
