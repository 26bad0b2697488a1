/**
 The circular buffers of the JTAG UART driver: a fixed array of LEN slots, an index `o` owned by the
 consumer ("out") and an index `i` owned by the producer ("in").  The buffer is empty when the two are
 equal, so at most LEN - 1 slots are ever in use.
 */
module Ring {

  const LEN: nat := 2048
  const CAPACITY: nat := LEN - 1

  type Byte = b: int | 0 <= b < 256

  /** An index moved forward by `n`. */
  function Advance(i: nat, n: nat): (i': nat)
    ensures i' < LEN
    ensures i + n < LEN ==> i' == i + n
    ensures i + n == LEN ==> i' == 0
  {
    (i + n) % LEN
  }

  function Next(i: nat): nat {
    Advance(i, 1)
  }

  /** How many slots separate the consumer from the producer. */
  function Used(o: nat, i: nat): nat
    requires o < LEN && i < LEN
  {
    if o <= i then i - o else LEN - o + i
  }

  /** The bytes in the buffer, oldest first. */
  function Live(buf: seq<Byte>, o: nat, i: nat): (bytes: seq<Byte>)
    requires |buf| == LEN && o < LEN && i < LEN
    ensures |bytes| == Used(o, i)
  {
    if o <= i then buf[o..i] else buf[o..] + buf[..i]
  }

  /** One direction of the driver: the buffer with its producer and consumer indices. */
  datatype Channel = Channel(buf: seq<Byte>, i: nat, o: nat) {
    predicate Shaped() {
      |buf| == LEN && i < LEN && o < LEN
    }

    function Bytes(): (bytes: seq<Byte>)
      requires Shaped()
      ensures |bytes| == Used(o, i)
    {
      Live(buf, o, i)
    }
  }

  /** The longest run the producer may fill without wrapping, as `write` computes it. */
  function WriteRoom(o: nat, i: nat): nat
    requires o < LEN && i < LEN
  {
    if i < o then o - 1 - i
    else if o > 0 then LEN - i
    else LEN - 1 - i
  }

  /** The longest run the consumer may take without wrapping, as `read` computes it. */
  function ReadRoom(o: nat, i: nat): nat
    requires o < LEN && i < LEN
  {
    if i >= o then i - o else LEN - o
  }

  /** `write` sees no room exactly when the ring is full, and never claims a slot that is in use. */
  lemma WriteRoomIsSafe(o: nat, i: nat)
    requires o < LEN && i < LEN
    ensures i + WriteRoom(o, i) <= LEN
    ensures WriteRoom(o, i) + Used(o, i) <= CAPACITY
    ensures WriteRoom(o, i) == 0 <==> Used(o, i) == CAPACITY
  {
  }

  /** `read` sees nothing exactly when the ring is empty, and never claims an unpublished slot. */
  lemma ReadRoomIsSafe(o: nat, i: nat)
    requires o < LEN && i < LEN
    ensures o + ReadRoom(o, i) <= LEN
    ensures ReadRoom(o, i) <= Used(o, i)
    ensures ReadRoom(o, i) == 0 <==> Used(o, i) == 0
  {
  }

  /** Producer and consumer positions determine each other, so a changed `out` is seen as changed. */
  lemma UsedIsInjective(o: nat, o': nat, i: nat)
    requires o < LEN && o' < LEN && i < LEN
    ensures Used(o, i) == Used(o', i) <==> o == o'
  {
  }

  /** Writing a free slot leaves the live bytes alone. */
  lemma StoreOutside(buf: seq<Byte>, o: nat, i: nat, k: nat, b: Byte)
    requires |buf| == LEN && o < LEN && i < LEN
    requires i + k < LEN && k + Used(o, i) < LEN
    ensures Live(buf[i + k := b], o, i) == Live(buf, o, i)
  {
    var buf' := buf[i + k := b];
    if o <= i {
      assert buf'[o..i] == buf[o..i];
    } else {
      assert buf'[o..] == buf[o..];
      assert buf'[..i] == buf[..i];
    }
  }

  /** Moving `in` forward over `n` free slots appends what they hold. */
  lemma Publish(buf: seq<Byte>, o: nat, i: nat, n: nat)
    requires |buf| == LEN && o < LEN && i < LEN
    requires i + n <= LEN && n + Used(o, i) <= CAPACITY
    ensures Used(o, Advance(i, n)) == Used(o, i) + n
    ensures Live(buf, o, Advance(i, n)) == Live(buf, o, i) + buf[i..i + n]
  {
    if i + n == LEN {
      if n == 0 { assert false; }
      assert buf[o..] == buf[o..i] + buf[i..];
      assert buf[o..] + buf[..0] == buf[o..];
    } else if o <= i {
      assert buf[o..i + n] == buf[o..i] + buf[i..i + n];
    } else {
      PublishWrapped(buf, o, i, n);
    }
  }

  lemma PublishWrapped(buf: seq<Byte>, o: nat, i: nat, n: nat)
    requires |buf| == LEN && i + n < o < LEN
    ensures buf[o..] + buf[..i + n] == (buf[o..] + buf[..i]) + buf[i..i + n]
  {
    assert buf[..i + n] == buf[..i] + buf[i..i + n];
    assert buf[o..] + (buf[..i] + buf[i..i + n]) == (buf[o..] + buf[..i]) + buf[i..i + n];
  }

  /** Moving `out` forward over `n` live slots drops the `n` oldest bytes, which are the ones there. */
  lemma Consume(buf: seq<Byte>, o: nat, i: nat, n: nat)
    requires |buf| == LEN && o < LEN && i < LEN
    requires o + n <= LEN && n <= Used(o, i)
    ensures Used(Advance(o, n), i) == Used(o, i) - n
    ensures Live(buf, o, i) == buf[o..o + n] + Live(buf, Advance(o, n), i)
  {
    if o + n == LEN {
      assert i < o || n == 0;
      assert buf[0..i] == buf[..i];
    } else if o <= i {
      assert buf[o..i] == buf[o..o + n] + buf[o + n..i];
    } else {
      ConsumeWrapped(buf, o, i, n);
    }
  }

  lemma ConsumeWrapped(buf: seq<Byte>, o: nat, i: nat, n: nat)
    requires |buf| == LEN && i < o && o + n < LEN
    ensures buf[o..] + buf[..i] == buf[o..o + n] + (buf[o + n..] + buf[..i])
  {
    assert buf[o..] == buf[o..o + n] + buf[o + n..];
    assert (buf[o..o + n] + buf[o + n..]) + buf[..i] == buf[o..o + n] + (buf[o + n..] + buf[..i]);
  }
}
